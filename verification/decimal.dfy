/**
 * The two text/integer conversions the index bookkeeping relies on: Python's `str(n)` for the
 * non-negative slot ids written as JSON keys, and Python's `int(k)` used to read them back.
 */
module Decimal {
  import opened Wrappers

  predicate IsDigit(c: char) {
    '0' <= c <= '9'
  }

  predicate AllDigits(s: string) {
    forall i :: 0 <= i < |s| ==> IsDigit(s[i])
  }

  function DigitValue(c: char): (d: nat)
    requires IsDigit(c)
    ensures d < 10
  {
    (c as int) - ('0' as int)
  }

  function DigitChar(d: nat): (c: char)
    requires d < 10
    ensures IsDigit(c) && DigitValue(c) == d
  {
    (('0' as int) + d) as char
  }

  /** Python's `str(n)` for `n >= 0`: the shortest decimal text, no sign. */
  function Str(n: nat): (s: string)
    ensures |s| > 0 && AllDigits(s)
    decreases n
  {
    if n < 10 then [DigitChar(n)] else Str(n / 10) + [DigitChar(n % 10)]
  }

  /** Value of a run of ASCII digits, most significant first. */
  function DigitsValue(s: string): nat
    requires AllDigits(s)
  {
    if s == [] then 0 else DigitsValue(s[..|s| - 1]) * 10 + DigitValue(s[|s| - 1])
  }

  /**
   * Python's `int(s)` on text: an optional `+` or `-` followed by at least one ASCII digit.
   * Anything else raises `ValueError`, modelled as `None`.
   */
  function ParseInt(s: string): Option<int> {
    if |s| > 0 && (s[0] == '-' || s[0] == '+') then
      if |s| > 1 && AllDigits(s[1..]) then
        var magnitude: int := DigitsValue(s[1..]);
        Some(if s[0] == '-' then -magnitude else magnitude)
      else None
    else if |s| > 0 && AllDigits(s) then Some(DigitsValue(s))
    else None
  }

  /** A key as `str(slot)` writes it: it parses to a non-negative slot whose `str` is the key itself. */
  predicate IsSlotKey(s: string) {
    ParseInt(s).Some? && ParseInt(s).value >= 0 && Str(ParseInt(s).value) == s
  }

  lemma {:induction false} DigitsValueOfStr(n: nat)
    ensures DigitsValue(Str(n)) == n
    decreases n
  {
    if n >= 10 {
      var s := Str(n);
      assert s[..|s| - 1] == Str(n / 10);
      DigitsValueOfStr(n / 10);
    }
  }

  /** `int(str(n)) == n`: reading back a written slot key yields the slot. */
  lemma ParseStr(n: nat)
    ensures ParseInt(Str(n)) == Some(n)
    ensures IsSlotKey(Str(n))
  {
    DigitsValueOfStr(n);
    assert Str(n)[0] != '-' && Str(n)[0] != '+' by { assert IsDigit(Str(n)[0]); }
  }

  /** Distinct slots are written as distinct keys. */
  lemma StrInjective(a: nat, b: nat)
    ensures Str(a) == Str(b) <==> a == b
  {
    ParseStr(a);
    ParseStr(b);
  }
}
