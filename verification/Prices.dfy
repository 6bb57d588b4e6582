/**
 The texts of the price pattern and the numbers they stand for: never negative,
 as large as one likes, and as long as one likes.
 */
module Prices {

  predicate IsDigit(c: char) {
    '0' <= c <= '9'
  }

  predicate AllDigits(s: string) {
    forall i :: 0 <= i < |s| ==> IsDigit(s[i])
  }

  predicate AllZeros(s: string) {
    forall i :: 0 <= i < |s| ==> s[i] == '0'
  }

  /** The length of the part before the point. */
  function WholeLength(s: string): (k: nat)
    ensures k <= |s| && (k < |s| ==> s[k] == '.') && forall i :: 0 <= i < k ==> s[i] != '.'
  {
    if s == "" || s[0] == '.' then 0 else 1 + WholeLength(s[1..])
  }

  function Fraction(s: string): string {
    if WholeLength(s) < |s| then s[WholeLength(s) + 1..] else ""
  }

  predicate IsNegativeZero(w: string) {
    |w| == 2 && w[0] == '-' && w[1] == '0'
  }

  predicate IsWhole(w: string) {
    |w| > 0 && AllDigits(w) && (w[0] == '0' ==> |w| == 1)
  }

  /** A negative zero, or a whole number without leading zeros; then at most one point with digits after it. */
  predicate IsPrice(s: string) {
    var w, f := s[..WholeLength(s)], Fraction(s);
    && (|w| < |s| ==> f != "")
    && ((IsWhole(w) && AllDigits(f)) || (IsNegativeZero(w) && AllZeros(f)))
  }

  function DigitsValue(s: string): nat
    requires AllDigits(s)
  {
    if s == "" then 0 else 10 * DigitsValue(s[..|s| - 1]) + (s[|s| - 1] - '0') as nat
  }

  function Power(n: nat): (p: nat)
    ensures p > 0
  {
    if n == 0 then 1 else 10 * Power(n - 1)
  }

  /** The number that a price stands for. */
  function PriceValue(s: string): (x: real)
    requires IsPrice(s)
    ensures x >= 0.0
  {
    var w, f := s[..WholeLength(s)], Fraction(s);
    if IsNegativeZero(w) then 0.0
    else DigitsValue(w) as real + FractionValue(f)
  }

  /** The digits after the point as a number below one. */
  function FractionValue(f: string): (x: real)
    requires AllDigits(f)
    ensures 0.0 <= x < 1.0 && (DigitsValue(f) == 0 ==> x == 0.0)
  {
    DigitsBelow(f);
    BelowOne(DigitsValue(f), Power(|f|));
    DigitsValue(f) as real / Power(|f|) as real
  }

  lemma WholeLengthIs(s: string, k: nat)
    requires k <= |s| && (k < |s| ==> s[k] == '.') && forall i :: 0 <= i < k ==> s[i] != '.'
    ensures WholeLength(s) == k
  {
  }

  function Zeros(n: nat): (s: string)
    ensures |s| == n && AllZeros(s)
  {
    seq(n, _ => '0')
  }

  lemma PriceNotEmpty(s: string)
    requires IsPrice(s)
    ensures |s| >= 1
  {
  }

  /** There is a price of value zero of every length from one on. */
  lemma ZeroPrice(n: nat) returns (s: string)
    requires n >= 1
    ensures IsPrice(s) && |s| == n && PriceValue(s) == 0.0
  {
    if n == 1 {
      s := ['0'];
      WholeLengthIs(s, 1);
      assert s[..1] == s && Fraction(s) == "" && s[..0] == "";
    } else if n == 2 {
      s := ['-', '0'];
      WholeLengthIs(s, 2);
      assert s[..2] == s && Fraction(s) == "";
    } else {
      s := ['0', '.'] + Zeros(n - 2);
      WholeLengthIs(s, 1);
      assert s[..1] == ['0'] && Fraction(s) == Zeros(n - 2) && ['0'][..0] == "";
      ZerosValue(Zeros(n - 2));
    }
  }

  lemma {:induction false} ZerosValue(s: string)
    requires AllZeros(s)
    ensures AllDigits(s) && DigitsValue(s) == 0
  {
    if s != "" { ZerosValue(s[..|s| - 1]); }
  }

  /** The largest price of a length: nines only. */
  lemma Nines(n: nat) returns (s: string)
    requires n >= 1
    ensures IsPrice(s) && |s| == n && PriceValue(s) == (Power(n) - 1) as real
  {
    s := NineDigits(n);
    WholeLengthIs(s, n);
    assert s[..n] == s && Fraction(s) == "";
  }

  function NineDigits(n: nat): (s: string)
    ensures |s| == n && (forall i :: 0 <= i < n ==> s[i] == '9') && DigitsValue(s) == Power(n) - 1
  {
    if n == 0 then ""
    else
      var s := NineDigits(n - 1) + ['9'];
      assert s[..|s| - 1] == NineDigits(n - 1);
      s
  }

  lemma {:induction false} DigitsBelow(s: string)
    requires AllDigits(s)
    ensures DigitsValue(s) < Power(|s|)
  {
    if s != "" { DigitsBelow(s[..|s| - 1]); }
  }

  lemma {:induction false} PowerGrows(m: nat, n: nat)
    requires m <= n
    ensures Power(m) <= Power(n)
    decreases n
  {
    if m < n { PowerGrows(m, n - 1); }
  }

  lemma {:induction false} PowerAbove(n: nat)
    ensures Power(n) > n
  {
    if n > 0 { PowerAbove(n - 1); }
  }

  lemma BelowOne(f: nat, p: nat)
    requires f < p
    ensures f as real / p as real < 1.0
  {
    assert f as real < p as real;
  }

  lemma SumBelow(w: nat, x: real, p: nat, q: nat)
    requires w < p && x < 1.0 && 10 * p <= q
    ensures w as real + x <= (q - 1) as real
  {
    assert w as real <= (p - 1) as real;
  }

  /** The length of a price limits it from above. */
  lemma PriceBounded(s: string)
    requires IsPrice(s)
    ensures PriceValue(s) <= (Power(|s|) - 1) as real
  {
    var w, f := s[..WholeLength(s)], Fraction(s);
    if !IsNegativeZero(w) {
      DigitsBelow(w);
      if f == "" {
        assert w == s && DigitsValue(f) == 0;
      } else {
        PowerGrows(|w| + 1, |s|);
        SumBelow(DigitsValue(w), FractionValue(f), Power(|w|), Power(|s|));
      }
    }
  }
}
