/**
 * Decimal rendering of integers, as Python's `f"{i}"` writes an `int`:
 * an optional leading '-', then the digits of the magnitude with no leading zeros.
 * A parser is given as the rendering's inverse.
 */
module Decimal {

  predicate IsDigit(c: char) {
    '0' <= c <= '9'
  }

  function DigitChar(d: nat): (c: char)
    requires d < 10
    ensures IsDigit(c)
    ensures c as int - '0' as int == d
  {
    "0123456789"[d]
  }

  function DigitValue(c: char): (d: nat)
    requires IsDigit(c)
    ensures d < 10
  {
    c as int - '0' as int
  }

  /** The digits of a natural number, most significant first. */
  function NatToDecimal(n: nat): (s: string)
    decreases n
  {
    if n < 10 then [DigitChar(n)] else NatToDecimal(n / 10) + [DigitChar(n % 10)]
  }

  /** Python's `str(i)` for an `int`. */
  function IntToDecimal(i: int): (s: string)
  {
    if i < 0 then "-" + NatToDecimal(-i) else NatToDecimal(i)
  }

  /** Reads a string of digits, most significant first. */
  function ParseNat(s: string): (n: nat)
    requires AllDigits(s)
  {
    if s == [] then 0 else ParseNat(s[..|s| - 1]) * 10 + DigitValue(s[|s| - 1])
  }

  /** A string of digits. */
  predicate AllDigits(s: string) {
    forall k :: 0 <= k < |s| ==> IsDigit(s[k])
  }

  /** An optionally signed decimal numeral. */
  predicate IsNumeral(s: string) {
    s != [] && (s[0] == '-' || IsDigit(s[0])) && AllDigits(s[1..])
  }

  /** Reads an optionally signed decimal numeral. */
  function ParseInt(s: string): (i: int)
    requires IsNumeral(s)
  {
    if s[0] == '-' then -(ParseNat(s[1..]) as int) else ParseNat(s)
  }

  /** The rendering of a natural number is a canonical numeral: nonempty, all digits, no leading zero. */
  lemma {:induction false} NatToDecimalCanonical(n: nat)
    ensures NatToDecimal(n) != []
    ensures AllDigits(NatToDecimal(n))
    ensures NatToDecimal(n)[0] == '0' <==> n == 0
    decreases n
  {
    if n >= 10 {
      NatToDecimalCanonical(n / 10);
    }
  }

  /** Parsing undoes the rendering of a natural number. */
  lemma {:induction false} NatRoundTrip(n: nat)
    ensures AllDigits(NatToDecimal(n))
    ensures ParseNat(NatToDecimal(n)) == n
    decreases n
  {
    NatToDecimalCanonical(n);
    if n >= 10 {
      var s := NatToDecimal(n);
      assert s[..|s| - 1] == NatToDecimal(n / 10);
      NatRoundTrip(n / 10);
    }
  }

  /** Parsing undoes the rendering of any integer, negative ones included. */
  lemma IntRoundTrip(i: int)
    ensures IsNumeral(IntToDecimal(i))
    ensures ParseInt(IntToDecimal(i)) == i
  {
    var n: nat := if i < 0 then -i else i;
    var digits := NatToDecimal(n);
    NatRoundTrip(n);
    NatToDecimalCanonical(n);
    if i < 0 {
      assert IntToDecimal(i) == "-" + digits;
      assert ("-" + digits)[1..] == digits;
    }
  }

  /** Distinct integers render as distinct strings. */
  lemma IntToDecimalInjective(i: int, j: int)
    requires IntToDecimal(i) == IntToDecimal(j)
    ensures i == j
  {
    IntRoundTrip(i);
    IntRoundTrip(j);
  }
}
