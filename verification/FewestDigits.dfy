/** What a greatest exponent comes to: no decimal between the rounding boundaries has fewer digits. */
module FewestDigits {
  import opened Words
  import opened Powers
  import opened DiyFp
  import opened DigitGen
  import opened NumberText
  import opened Grisu

  /** A number with so many digits lies between two powers of ten. */
  lemma {:induction false} DigitsBound(v: nat)
    ensures v > 0 ==> Pow10(|DecimalDigits(v)| - 1) <= v
    ensures v < Pow10(|DecimalDigits(v)|)
  {
    if v >= 10 {
      DigitsBound(v / 10);
    } else {
      assert Pow10(0) == 1 && Pow10(1) == 10;
    }
  }

  lemma {:induction false} Exp10Grows(j: int, k: int)
    requires j <= k
    ensures Exp(10.0, j) <= Exp(10.0, k)
    decreases k - j
  {
    if j < k {
      Exp10Grows(j, k - 1);
      ExpSucc(10.0, k - 1);
    }
  }

  lemma TimesGrows(x: real, y: real, s: real)
    requires x <= y && s >= 0.0
    ensures Times(x, s) <= Times(y, s) && Times(s, x) <= Times(s, y)
  {
    assert (y - x) * s >= 0.0;
  }

  lemma PowerAsDecimal(a: nat, k: int)
    ensures Decimal(1, a + k) == Times(Pow10(a) as real, Exp(10.0, k))
  {
    ExpAdd(10.0, a, k);
    ExpIsPow10(a);
  }

  /** A power of ten as a decimal lies between a number below it and one from it on. */
  lemma DecimalsAround(m: nat, j: int, a: nat, k: int, n: nat)
    requires m < Pow10(a) <= n && j <= k
    ensures Decimal(m, j) <= Decimal(1, a + k) <= Decimal(n, k)
  {
    var p := Pow10(a) as real;
    PowerAsDecimal(a, k);
    Exp10Grows(j, k);
    TimesGrows(m as real, p, Exp(10.0, j));
    TimesGrows(Exp(10.0, j), Exp(10.0, k), p);
    TimesGrows(p, n as real, Exp(10.0, k));
  }

  lemma NoPowerBetween(bits: u64, k: int, a: nat)
    requires IsPositiveFinite(bits) && IsShortest(bits, k) && a > 0
    ensures !(Value(LowerBoundary(bits)) <= Decimal(1, a + k) <= Value(UpperBoundary(bits)))
  {
  }

  /** Every positive decimal between the boundaries has at least as many digits as an answer that reads back and has
      the greatest exponent; if the boundaries lie around a power of ten, that power is the answer. */
  lemma ShortestHasFewestDigits(bits: u64, n: nat, k: int, m: nat, j: int)
    requires IsPositiveFinite(bits) && ReadsBack(bits, n, k) && IsShortest(bits, k) && n > 0 && m > 0
    requires Value(LowerBoundary(bits)) <= Decimal(m, j) <= Value(UpperBoundary(bits))
    ensures |DecimalDigits(n)| <= |DecimalDigits(m)|
  {
    if |DecimalDigits(m)| < |DecimalDigits(n)| {
      var a := |DecimalDigits(n)| - 1;
      DigitsBound(n);
      DigitsBound(m);
      Pow10Grows(|DecimalDigits(m)|, a);
      NoPowerBetween(bits, k, a);
      DecimalsAround(m, j, a, k, n);
    }
  }
}
