/**
 * Decimal digit strings: their value, `u32` parsing of a digit run, and the
 * decimal rendering of a number (`format!("{}", n)`).
 */
module Decimal {
  import opened Wrappers

  /** Largest `u32`. */
  const U32_MAX: nat := 4294967295

  predicate IsDigit(c: char) {
    '0' <= c <= '9'
  }

  predicate AllDigits(s: string) {
    forall i :: 0 <= i < |s| ==> IsDigit(s[i])
  }

  /** A rendering without leading zeros: one digit, or a first digit other than `0`. */
  predicate Canonical(s: string) {
    |s| >= 1 && (|s| == 1 || s[0] != '0')
  }

  function DigitValue(c: char): (v: nat)
    requires IsDigit(c)
    ensures v < 10
  {
    c as int - '0' as int
  }

  function DigitChar(v: nat): (c: char)
    requires v < 10
    ensures IsDigit(c) && DigitValue(c) == v
  {
    ('0' as int + v) as char
  }

  /** The number a digit string denotes (0 for the empty string). */
  function Value(s: string): nat
    requires AllDigits(s)
  {
    if |s| == 0 then 0 else Value(s[..|s| - 1]) * 10 + DigitValue(s[|s| - 1])
  }

  /** Why `str::parse::<u32>` failed (the two kinds a digit run can produce). */
  datatype IntErrorKind = Empty | PosOverflow

  /**
   * `s.parse::<u32>()` for a string of digits: empty text is refused, and so
   * is a value above `u32::MAX`; leading zeros are accepted.
   */
  function ParseU32(s: string): (r: Result<nat, IntErrorKind>)
    requires AllDigits(s)
    ensures r == Err(Empty) <==> |s| == 0
    ensures r == Err(PosOverflow) <==> |s| > 0 && Value(s) > U32_MAX
    ensures r.Ok? ==> r.value == Value(s) <= U32_MAX
  {
    if |s| == 0 then Err(Empty)
    else if Value(s) > U32_MAX then Err(PosOverflow)
    else Ok(Value(s))
  }

  /** `format!("{}", n)`: the decimal rendering of `n`, without leading zeros. */
  function ToDecimal(n: nat): (s: string)
    ensures AllDigits(s) && Canonical(s)
    ensures Value(s) == n
  {
    if n < 10 then [DigitChar(n)]
    else
      var s := ToDecimal(n / 10) + [DigitChar(n % 10)];
      assert s[..|s| - 1] == ToDecimal(n / 10);
      s
  }

  /** A digit string with a first digit other than `0` denotes a positive number. */
  lemma {:induction false} LeadingDigitPositive(s: string)
    requires AllDigits(s) && |s| >= 1 && s[0] != '0'
    ensures Value(s) >= 1
    decreases |s|
  {
    if |s| > 1 {
      LeadingDigitPositive(s[..|s| - 1]);
    }
  }

  /** Rendering the value of a canonical digit string gives the string back. */
  lemma {:induction false} ToDecimalOfValue(s: string)
    requires AllDigits(s) && Canonical(s)
    ensures ToDecimal(Value(s)) == s
    decreases |s|
  {
    if |s| > 1 {
      var init := s[..|s| - 1];
      var n := Value(s);
      LeadingDigitPositive(init);
      ToDecimalOfValue(init);
      assert n / 10 == Value(init) && n % 10 == DigitValue(s[|s| - 1]);
      assert DigitChar(n % 10) == s[|s| - 1];
      assert s == init + [s[|s| - 1]];
    }
  }

  /** Rendering then parsing gives the number back. */
  lemma ParseToDecimal(n: nat)
    requires n <= U32_MAX
    ensures ParseU32(ToDecimal(n)) == Ok(n)
  {
  }
}
