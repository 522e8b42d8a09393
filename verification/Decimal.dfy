/** Decimal text for the integers and two-place prices that appear in orders, and reading it back. */
module Decimal {

  function Digit(d: nat): char
    requires d < 10
  {
    "0123456789"[d]
  }

  predicate IsDigit(c: char) {
    '0' <= c <= '9'
  }

  function DigitValue(c: char): nat
    requires IsDigit(c)
  {
    c as int - '0' as int
  }

  function NatText(n: nat): (s: string)
    ensures s != [] && AllDigits(s)
  {
    if n < 10 then [Digit(n)] else NatText(n / 10) + [Digit(n % 10)]
  }

  predicate AllDigits(s: string) {
    forall i | 0 <= i < |s| :: IsDigit(s[i])
  }

  /** The number a digit string denotes; "" denotes 0, as a failed conversion does in the extractors. */
  function NatValue(s: string): nat
    requires AllDigits(s)
  {
    if s == [] then 0 else 10 * NatValue(s[..|s| - 1]) + DigitValue(s[|s| - 1])
  }

  lemma {:induction false} NatRoundTrip(n: nat)
    ensures NatValue(NatText(n)) == n
  {
    if n >= 10 {
      NatRoundTrip(n / 10);
      assert NatText(n)[..|NatText(n)| - 1] == NatText(n / 10);
    }
  }

  /** Decimal, most significant digit first. */
  lemma NatTextExample()
    ensures NatText(120) == "120"
  {
    assert NatText(1) == "1";
    assert NatText(12) == NatText(1) + "2";
    assert NatText(120) == NatText(12) + "0";
  }

  lemma NatTextInjective(m: nat, n: nat)
    requires NatText(m) == NatText(n)
    ensures m == n
  {
    NatRoundTrip(m);
    NatRoundTrip(n);
  }

  function IntText(n: int): string {
    if n < 0 then "-" + NatText(-n) else NatText(n)
  }

  function Pow10(n: nat): nat {
    if n == 0 then 1 else 10 * Pow10(n - 1)
  }

  lemma Pow10Positive(n: nat)
    ensures Pow10(n) > 0
  {
  }

  /** The shortest decimal form of `cents / 100`: no trailing zeros, no point when there is no fraction. */
  function CentsText(cents: nat): string {
    if cents % 100 == 0 then NatText(cents / 100)
    else if cents % 10 == 0 then NatText(cents / 100) + "." + [Digit(cents / 10 % 10)]
    else NatText(cents / 100) + "." + [Digit(cents / 10 % 10), Digit(cents % 10)]
  }

  /** The number denoted by digits, or by digits, a point and more digits. */
  function DecimalValue(whole: string, fraction: string): real
    requires AllDigits(whole) && AllDigits(fraction)
  {
    Pow10Positive(|fraction|);
    NatValue(whole) as real + NatValue(fraction) as real / Pow10(|fraction|) as real
  }

  predicate Denotes(text: string, value: real) {
    || (AllDigits(text) && value == DecimalValue(text, ""))
    || exists k | 0 <= k < |text| ::
         && text[k] == '.'
         && AllDigits(text[..k]) && AllDigits(text[k + 1..])
         && value == DecimalValue(text[..k], text[k + 1..])
  }

  lemma OneDigit(d: nat)
    requires d < 10
    ensures AllDigits([Digit(d)]) && NatValue([Digit(d)]) == d
  {
    assert [Digit(d)][..0] == [];
  }

  lemma TwoDigits(d: nat, e: nat)
    requires d < 10 && e < 10
    ensures AllDigits([Digit(d), Digit(e)]) && NatValue([Digit(d), Digit(e)]) == 10 * d + e
  {
    OneDigit(d);
    assert [Digit(d), Digit(e)][..1] == [Digit(d)];
  }

  lemma WholeAndFraction(n: nat, unit: nat)
    requires unit > 0
    ensures n as real / unit as real == (n / unit) as real + (n % unit) as real / unit as real
  {
    var w, f := n / unit, n % unit;
    assert n == w * unit + f;
    assert n as real == (w * unit) as real + f as real;
    assert (w * unit) as real == w as real * unit as real;
  }

  lemma FractionDenotes(whole: string, fraction: string)
    requires AllDigits(whole) && AllDigits(fraction)
    ensures Denotes(whole + "." + fraction, DecimalValue(whole, fraction))
  {
    var text := whole + "." + fraction;
    var k := |whole|;
    assert text[..k] == whole && text[k + 1..] == fraction && text[k] == '.';
  }

  lemma HundredthsOfText(whole: string, fraction: string)
    requires AllDigits(whole) && AllDigits(fraction) && |fraction| == 2
    ensures DecimalValue(whole, fraction) == NatValue(whole) as real + NatValue(fraction) as real / 100.0
  {
    assert Pow10(2) == 10 * Pow10(1) == 100;
  }

  lemma TenthsOfText(whole: string, fraction: string)
    requires AllDigits(whole) && AllDigits(fraction) && |fraction| == 1
    ensures DecimalValue(whole, fraction) == NatValue(whole) as real + NatValue(fraction) as real / 10.0
  {
    assert Pow10(1) == 10;
  }

  lemma Remainder(q: nat, r: nat)
    requires r < 100
    ensures (100 * q + r) % 100 == r
  {
  }

  lemma LastTwoDigits(n: nat)
    ensures n % 100 == 10 * (n / 10 % 10) + n % 10
  {
    var d := n / 10;
    var q, e, r := d / 10, d % 10, n % 10;
    assert n == 10 * d + r && d == 10 * q + e;
    Remainder(q, 10 * e + r);
  }

  /** The printed price denotes exactly the price. */
  lemma CentsTextDenotes(cents: nat)
    ensures Denotes(CentsText(cents), cents as real / 100.0)
  {
    var whole := NatText(cents / 100);
    NatRoundTrip(cents / 100);
    WholeAndFraction(cents, 100);
    LastTwoDigits(cents);
    if cents % 100 == 0 {
      assert DecimalValue(whole, "") == NatValue(whole) as real;
    } else if cents % 10 == 0 {
      var tenths := cents / 10 % 10;
      OneDigit(tenths);
      TenthsOfText(whole, [Digit(tenths)]);
      FractionDenotes(whole, [Digit(tenths)]);
    } else {
      var tenths, rest := cents / 10 % 10, cents % 10;
      TwoDigits(tenths, rest);
      HundredthsOfText(whole, [Digit(tenths), Digit(rest)]);
      FractionDenotes(whole, [Digit(tenths), Digit(rest)]);
    }
  }
}
