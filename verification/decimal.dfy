/**
 * Decimal rendering of integral numbers below 10^21 in magnitude, as
 * JavaScript's Number-to-String conversion writes them inside a template
 * literal (`${hue}`), and the
 * parser that reads them back.
 */
module Decimal {
  import opened JsValues

  const DigitZero: CodeUnit := 48  // '0'
  const MinusSign: CodeUnit := 45  // '-'

  predicate IsDigit(c: CodeUnit)
  {
    DigitZero <= c <= DigitZero + 9
  }

  predicate AllDigits(s: JsString)
  {
    forall i | 0 <= i < |s| :: IsDigit(s[i])
  }

  /** Digit strings as the conversion writes them: no leading zero except "0" itself. */
  predicate Canonical(s: JsString)
  {
    |s| > 0 && AllDigits(s) && (s[0] == DigitZero ==> |s| == 1)
  }

  /** Decimal digits of a natural number, most significant first. */
  function NatToDecimal(n: nat): (r: JsString)
    ensures Canonical(r)
  {
    if n < 10 then [DigitZero + n]
    else
      var prefix := NatToDecimal(n / 10);
      assert prefix[0] != DigitZero;
      prefix + [DigitZero + n % 10]
  }

  /** The number a string of digits denotes. */
  function DigitsValue(s: JsString): nat
    requires AllDigits(s)
  {
    if |s| == 0 then 0
    else 10 * DigitsValue(s[..|s| - 1]) + (s[|s| - 1] - DigitZero)
  }

  /**
   * Plain decimal text of an integer: a minus sign for negatives, no sign
   * otherwise. For |n| < 10^21 this is what `String(n)` writes; larger
   * numbers are written in exponent form there and are not modelled.
   */
  function IntToDecimal(n: int): (r: JsString)
    ensures |r| > 0
    ensures r[0] == MinusSign <==> n < 0
    ensures forall i | 0 < i < |r| :: IsDigit(r[i])
  {
    if n < 0 then [MinusSign] + NatToDecimal(-n) else NatToDecimal(n)
  }

  /** Reads a non-empty digit string; anything else is rejected. */
  function ParseNat(s: JsString): (r: Option<nat>)
    ensures r.Some? <==> |s| > 0 && AllDigits(s)
  {
    if |s| > 0 && AllDigits(s) then Some(DigitsValue(s)) else None
  }

  /** Reads an optionally negative decimal integer. */
  function ParseInt(s: JsString): (r: Option<int>)
  {
    if |s| > 0 && s[0] == MinusSign then
      match ParseNat(s[1..])
      case Some(v) => Some(-(v as int))
      case None => None
    else
      match ParseNat(s)
      case Some(v) => Some(v as int)
      case None => None
  }

  /** Reading the digits of `n` gives `n` back. */
  lemma {:induction false} NatRoundTrip(n: nat)
    ensures DigitsValue(NatToDecimal(n)) == n
  {
    if n >= 10 {
      var prefix := NatToDecimal(n / 10);
      var r := NatToDecimal(n);
      assert r[..|r| - 1] == prefix;
      NatRoundTrip(n / 10);
    }
  }

  /** A canonical digit string other than "0" denotes a positive number. */
  lemma {:induction false} CanonicalPositive(s: JsString)
    requires Canonical(s) && s[0] != DigitZero
    ensures DigitsValue(s) > 0
  {
    if |s| > 1 {
      var prefix := s[..|s| - 1];
      assert prefix[0] == s[0];
      CanonicalPositive(prefix);
    }
  }

  /** Writing the value of a canonical digit string gives the string back. */
  lemma {:induction false} CanonicalRoundTrip(s: JsString)
    requires Canonical(s)
    ensures NatToDecimal(DigitsValue(s)) == s
  {
    if |s| > 1 {
      var prefix := s[..|s| - 1];
      assert prefix[0] == s[0];
      CanonicalPositive(prefix);
      CanonicalRoundTrip(prefix);
      var n := DigitsValue(s);
      assert n / 10 == DigitsValue(prefix);
      assert s == prefix + [s[|s| - 1]];
    }
  }

  /** Reading the decimal rendering of any integer gives it back. */
  lemma IntRoundTrip(n: int)
    ensures ParseInt(IntToDecimal(n)) == Some(n)
  {
    if n < 0 {
      NatRoundTrip(-n);
      assert IntToDecimal(n)[1..] == NatToDecimal(-n);
    } else {
      NatRoundTrip(n);
    }
  }
}
