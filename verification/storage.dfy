/**
 * Persistence as the scripts see it: a file is absent, present but unreadable (loading it
 * raises), or present with a decodable content. Writes can fail; which ones do is an input.
 */
module Storage {

  datatype FileState<T> = Absent | Unreadable | Present(content: T)

  /** Which of the two writes of a save step raise. */
  datatype IoFaults = IoFaults(indexSaveFails: bool, mapWriteFails: bool)

  function NoFaults(): IoFaults {
    IoFaults(false, false)
  }
}
