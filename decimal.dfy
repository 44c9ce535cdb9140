/**
 * Decimal text for unsigned integers: the parser behind Rust's `u8::from_str` and
 * `u64::from_str` (used for version segments and block numbers) and the `Display` printer.
 */
module Decimal {
  import opened Wrappers

  /** The kinds of `ParseIntError` an unsigned parse can report. */
  datatype IntErrorKind = Empty | InvalidDigit | PosOverflow

  const U8_MAX: nat := 0xFF
  const U64_MAX: nat := 0xFFFF_FFFF_FFFF_FFFF

  predicate IsDigit(c: char) {
    '0' <= c <= '9'
  }

  predicate AllDigits(s: string) {
    forall i :: 0 <= i < |s| ==> IsDigit(s[i])
  }

  function DigitValue(c: char): (d: nat)
    requires IsDigit(c)
    ensures d < 10
  {
    (c as int - '0' as int) as nat
  }

  function DigitChar(d: nat): (c: char)
    requires d < 10
    ensures IsDigit(c) && DigitValue(c) == d
  {
    ('0' as int + d) as char
  }

  /** The number a string of decimal digits denotes, most significant digit first. */
  function DigitsValue(s: string): nat
    requires AllDigits(s)
  {
    if |s| == 0 then 0 else DigitsValue(s[..|s| - 1]) * 10 + DigitValue(s[|s| - 1])
  }

  /**
   * Reads the digits left to right the way the standard library does: each step
   * multiplies by ten and adds the digit, and the first non-digit or the first step
   * that exceeds `max` ends the parse with that error.
   */
  function Scan(s: string, max: nat): (r: Result<nat, IntErrorKind>)
    ensures r.Ok? <==> AllDigits(s) && DigitsValue(s) <= max
    ensures r.Ok? ==> r.value == DigitsValue(s)
    ensures r.Err? ==> r.error != Empty
  {
    if |s| == 0 then Ok(0)
    else
      var last := s[|s| - 1];
      assert s[..|s| - 1] + [last] == s;
      match Scan(s[..|s| - 1], max)
      case Err(e) => Err(e)
      case Ok(v) =>
        if !IsDigit(last) then Err(InvalidDigit)
        else if v * 10 + DigitValue(last) > max then Err(PosOverflow)
        else Ok(v * 10 + DigitValue(last))
  }

  /**
   * `FromStr` for an unsigned integer type whose largest value is `max`: an empty
   * string is `Empty`; a lone sign is `InvalidDigit`; one leading `+` is skipped; a
   * leading `-` is just an invalid digit for an unsigned type.
   */
  function ParseUnsigned(s: string, max: nat): (r: Result<nat, IntErrorKind>)
    ensures r == Err(Empty) <==> s == ""
    ensures r.Ok? <==>
              |s| > 0 &&
              var digits := if s[0] == '+' then s[1..] else s;
              |digits| > 0 && AllDigits(digits) && DigitsValue(digits) <= max
    ensures r.Ok? ==> r.value <= max
    ensures r.Ok? ==> var digits := if s[0] == '+' then s[1..] else s;
                      AllDigits(digits) && r.value == DigitsValue(digits)
  {
    if |s| == 0 then Err(Empty)
    else if |s| == 1 && (s[0] == '+' || s[0] == '-') then Err(InvalidDigit)
    else if s[0] == '+' then Scan(s[1..], max)
    else Scan(s, max)
  }

  /** `Display` for an unsigned integer: decimal digits without leading zeros. */
  function ToDecimal(n: nat): (s: string)
    ensures |s| > 0 && AllDigits(s)
    ensures DigitsValue(s) == n
    ensures s[0] != '0' || n == 0
    ensures '.' !in s
  {
    if n < 10 then [DigitChar(n)]
    else
      var prefix := ToDecimal(n / 10);
      var s := prefix + [DigitChar(n % 10)];
      assert s[..|s| - 1] == prefix;
      s
  }

  /** Leading zeros and one leading `+` do not change the value read. */
  lemma ParseExamples()
    ensures ParseUnsigned("007", U8_MAX) == Ok(7)
    ensures ParseUnsigned("+5", U64_MAX) == Ok(5)
    ensures ParseUnsigned("256", U8_MAX) == Err(PosOverflow)
  {
    assert "007"[..2] == "00" && "00"[..1] == "0" && "0"[..0] == "";
    assert "+5"[1..] == "5" && "5"[..0] == "";
    assert "256"[..2] == "25" && "25"[..1] == "2" && "2"[..0] == "";
  }

  /** Printing and then parsing a number that fits the type gives the number back. */
  lemma ParseToDecimal(n: nat, max: nat)
    requires n <= max
    ensures ParseUnsigned(ToDecimal(n), max) == Ok(n)
  {
    var s := ToDecimal(n);
    assert IsDigit(s[0]);
  }
}
