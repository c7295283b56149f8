/**
 Decimal rendering of a non-negative count, as Python's `str` of an `int`
 produces it inside the summary line, and the reading it inverts.
 */
module Numerals {

  predicate IsDigit(c: char) {
    '0' <= c <= '9'
  }

  function DigitChar(d: nat): (c: char)
    requires d < 10
  {
    (d + '0' as int) as char
  }

  function DigitValue(c: char): nat
    requires IsDigit(c)
  {
    c as int - '0' as int
  }

  /** The decimal digits of `n`, most significant first, without leading zeros. */
  function ToDecimal(n: nat): (r: string)
    ensures |r| >= 1
    ensures forall i :: 0 <= i < |r| ==> IsDigit(r[i])
    ensures r[0] == '0' ==> n == 0 && r == "0"
  {
    if n < 10 then [DigitChar(n)] else ToDecimal(n / 10) + [DigitChar(n % 10)]
  }

  /** The number a string of decimal digits denotes. */
  function DecimalValue(s: string): nat
    requires forall i :: 0 <= i < |s| ==> IsDigit(s[i])
  {
    if s == [] then 0 else DecimalValue(s[..|s| - 1]) * 10 + DigitValue(s[|s| - 1])
  }

  /** Reading the rendered digits gives the count back. */
  lemma {:induction false} DecimalRoundTrip(n: nat)
    ensures DecimalValue(ToDecimal(n)) == n
  {
    var r := ToDecimal(n);
    if n >= 10 {
      DecimalRoundTrip(n / 10);
      assert r[..|r| - 1] == ToDecimal(n / 10);
    }
  }

  /** Different counts render differently. */
  lemma DecimalInjective(m: nat, n: nat)
    requires ToDecimal(m) == ToDecimal(n)
    ensures m == n
  {
    DecimalRoundTrip(m);
    DecimalRoundTrip(n);
  }
}
