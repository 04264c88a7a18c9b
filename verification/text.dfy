/**
 * The string operations the scripts apply to file names: `str.rfind`, `str.lower`,
 * `str.endswith` and `os.path.splitext` (POSIX flavour: separator `/`, extension separator `.`).
 */
module Text {

  /** Python's `s.rfind(c)`: index of the last occurrence of `c`, or -1. */
  function RFind(s: string, c: char): (r: int)
    ensures -1 <= r < |s|
    ensures r >= 0 ==> s[r] == c
    ensures forall j :: r < j < |s| ==> s[j] != c
  {
    if s == [] then -1
    else if s[|s| - 1] == c then |s| - 1
    else RFind(s[..|s| - 1], c)
  }

  function LowerChar(c: char): char {
    if 'A' <= c <= 'Z' then (c as int + 32) as char else c
  }

  /** `s.lower()` restricted to ASCII letters. */
  function Lower(s: string): (r: string)
    ensures |r| == |s|
    ensures forall i :: 0 <= i < |s| ==> r[i] == LowerChar(s[i])
  {
    seq(|s|, i requires 0 <= i < |s| => LowerChar(s[i]))
  }

  predicate EndsWith(s: string, suffix: string) {
    |suffix| <= |s| && s[|s| - |suffix|..] == suffix
  }

  /** True when some character of `s` in `[from, to)` is not a dot. */
  predicate HasNonDot(s: string, from: int, to: int)
    requires 0 <= from <= to <= |s|
  {
    exists j :: from <= j < to && s[j] != '.'
  }

  /**
   * `os.path.splitext(p)`: splits off the text from the last dot of the last path component,
   * unless every character before that dot in the component is a dot (so `.png` has no
   * extension and `a.png` has extension `.png`).
   */
  function Splitext(p: string): (r: (string, string))
    ensures r.0 + r.1 == p
    ensures r.1 == [] || (r.1[0] == '.' && forall j :: 0 < j < |r.1| ==> r.1[j] != '.' && r.1[j] != '/')
    ensures r.1 != [] ==> HasNonDot(r.0, RFind(r.0, '/') + 1, |r.0|)
  {
    var sepIndex := RFind(p, '/');
    var dotIndex := RFind(p, '.');
    if dotIndex > sepIndex && HasNonDot(p, sepIndex + 1, dotIndex) then
      assert RFind(p[..dotIndex], '/') == sepIndex by { RFindPrefix(p, '/', dotIndex); }
      (p[..dotIndex], p[dotIndex..])
    else (p, [])
  }

  /** The last occurrence in a prefix that still contains it is the same index. */
  lemma {:induction false} RFindPrefix(s: string, c: char, n: int)
    requires RFind(s, c) < n <= |s|
    ensures RFind(s[..n], c) == RFind(s, c)
    decreases |s|
  {
    if n < |s| {
      assert s[..|s| - 1][..n] == s[..n];
      RFindPrefix(s[..|s| - 1], c, n);
    } else {
      assert s[..n] == s;
    }
  }

  /** The stem `splitext` gives a file name that ends in an extension `.e` with a proper name before it. */
  lemma SplitextOfNamedFile(name: string, e: string)
    requires forall j :: 0 <= j < |name| ==> name[j] != '/'
    requires exists j :: 0 <= j < |name| && name[j] != '.'
    requires forall j :: 0 <= j < |e| ==> e[j] != '.' && e[j] != '/'
    ensures Splitext(name + "." + e) == (name, "." + e)
  {
    var p := name + "." + e;
    assert RFind(p, '.') == |name| by {
      assert p[|name|] == '.';
      assert forall j :: |name| < j < |p| ==> p[j] == e[j - |name| - 1];
      RFindLast(p, '.', |name|);
    }
    assert RFind(p, '/') == -1 by {
      assert forall j :: 0 <= j < |p| ==> p[j] != '/' by {
        forall j | 0 <= j < |p| ensures p[j] != '/' {
          if j < |name| { assert p[j] == name[j]; }
          else if j > |name| { assert p[j] == e[j - |name| - 1]; }
        }
      }
      RFindAbsent(p, '/');
    }
    var k :| 0 <= k < |name| && name[k] != '.';
    assert p[k] == name[k];
    assert p[..|name|] == name;
    assert p[|name|..] == "." + e;
  }

  lemma {:induction false} RFindLast(s: string, c: char, i: int)
    requires 0 <= i < |s| && s[i] == c
    requires forall j :: i < j < |s| ==> s[j] != c
    ensures RFind(s, c) == i
    decreases |s|
  {
    if i < |s| - 1 {
      RFindLast(s[..|s| - 1], c, i);
    }
  }

  lemma {:induction false} RFindAbsent(s: string, c: char)
    requires forall j :: 0 <= j < |s| ==> s[j] != c
    ensures RFind(s, c) == -1
    decreases |s|
  {
    if s != [] {
      RFindAbsent(s[..|s| - 1], c);
    }
  }
}
