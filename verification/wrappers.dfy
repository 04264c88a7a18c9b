/** Failure-compatible wrapper used wherever Python returns `None` or a missing lookup. */
module Wrappers {

  datatype Option<+T> = None | Some(value: T) {

    /** Python's `d.get(k, default)` on the result of a lookup. */
    function GetOr(default: T): T {
      match this
      case Some(v) => v
      case None => default
    }
  }
}
