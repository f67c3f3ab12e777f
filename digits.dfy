/**
 * Decimal text of unsigned integers: what Rust's `to_string` writes for an
 * unsigned integer and what `str::parse::<u16>` accepts.
 */
module Digits {
  import opened Wrappers

  const U16_LIMIT := 0x1_0000

  predicate IsDigit(c: char) {
    '0' <= c <= '9'
  }

  predicate AllDigits(s: string) {
    forall i :: 0 <= i < |s| ==> IsDigit(s[i])
  }

  function DigitChar(d: nat): (c: char)
    requires d < 10
    ensures IsDigit(c)
  {
    ('0' as int + d) as char
  }

  function DigitValue(c: char): (d: nat)
    requires IsDigit(c)
    ensures d < 10 && DigitChar(d) == c
  {
    c as int - '0' as int
  }

  /** The number a string of decimal digits denotes (leading zeros allowed). */
  function DigitsValue(s: string): nat
    requires AllDigits(s)
  {
    if s == [] then 0 else DigitsValue(s[..|s| - 1]) * 10 + DigitValue(s[|s| - 1])
  }

  /** `n.to_string()`: the shortest decimal text of `n`, without sign or padding. */
  function NatToString(n: nat): (s: string)
    ensures 1 <= |s| && AllDigits(s)
    ensures |s| > 1 ==> s[0] != '0'
    ensures |s| == 1 <==> n < 10
  {
    if n < 10 then [DigitChar(n)] else NatToString(n / 10) + [DigitChar(n % 10)]
  }

  /** Reading back the decimal text of `n` gives `n`. */
  lemma {:induction false} NatToStringValue(n: nat)
    ensures DigitsValue(NatToString(n)) == n
  {
    if n >= 10 {
      var s := NatToString(n);
      assert s[..|s| - 1] == NatToString(n / 10);
      NatToStringValue(n / 10);
    }
  }

  /**
   * `s.parse::<u16>()`: an optional leading '+' (not alone), then one or more
   * decimal digits whose value fits in 16 bits. Anything else is an error.
   */
  function ParseU16(s: string): (r: Option<nat>)
    ensures r.Some? ==> r.value < U16_LIMIT
  {
    var digits := if |s| > 1 && s[0] == '+' then s[1..] else s;
    if digits != [] && AllDigits(digits) && DigitsValue(digits) < U16_LIMIT
    then Some(DigitsValue(digits))
    else None
  }

  /** Every u16 survives printing and parsing back, with or without a '+' sign. */
  lemma ParseU16RoundTrip(n: nat)
    requires n < U16_LIMIT
    ensures ParseU16(NatToString(n)) == Some(n)
    ensures ParseU16("+" + NatToString(n)) == Some(n)
  {
    NatToStringValue(n);
    assert ("+" + NatToString(n))[1..] == NatToString(n);
  }

  /** A leading '-' is never accepted for an unsigned type, nor is empty text. */
  lemma ParseU16Rejects(s: string)
    ensures ParseU16("") == None
    ensures ParseU16("-" + s) == None
    ensures ParseU16("+") == None
  {
    assert !IsDigit(("-" + s)[0]);
  }
}
