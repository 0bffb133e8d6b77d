/** Floating-point numbers with a 64-bit significand: exact products, normalisation, and the rounding
    interval of an IEEE 754 double. */
module DiyFp {
  import opened Words
  import opened Powers
  import opened Products

  datatype DiyFp = DiyFp(f: u64, e: int)

  /** The difference; the source asserts the precondition. */
  function Minus(x: DiyFp, y: DiyFp): (r: DiyFp)
    requires x.e == y.e && x.f >= y.f
    ensures r.f as int + y.f as int == x.f as int && r.e == x.e
  {
    DiyFp(x.f - y.f, x.e)
  }

  /** The upper 64 bits of the 128-bit product, rounded half up.  The four partial products, the
      rounding sum and the final sum all stay within 64 bits. */
  function Multiply(x: DiyFp, y: DiyFp): (r: DiyFp)
    ensures r.f as int == (x.f as int * y.f as int + TWO_63) / TWO_64
    ensures r.e == x.e + y.e + 64
  {
    var a, b := x.f / 0x1_0000_0000, x.f % 0x1_0000_0000;
    var c, d := y.f / 0x1_0000_0000, y.f % 0x1_0000_0000;
    PartialProductBound(a as int, c as int);
    PartialProductBound(b as int, c as int);
    PartialProductBound(a as int, d as int);
    PartialProductBound(b as int, d as int);
    var ac, bc, ad, bd := a * c, b * c, a * d, b * d;
    var tmp := bd / 0x1_0000_0000 + ad % 0x1_0000_0000 + bc % 0x1_0000_0000 + 0x8000_0000;
    RoundedProduct(a as int, b as int, c as int, d as int);
    DiyFp(ac + ad / 0x1_0000_0000 + bc / 0x1_0000_0000 + tmp / 0x1_0000_0000, x.e + y.e + 64)
  }

  lemma PartialProductBound(p: int, q: int)
    requires 0 <= p < 0x1_0000_0000 && 0 <= q < 0x1_0000_0000
    ensures 0 <= p * q <= 0xFFFF_FFFE_0000_0001
  {
    MulMonoBoth(p, 0xFFFF_FFFF, q, 0xFFFF_FFFF);
  }

  /** Schoolbook multiplication on 32-bit halves. */
  lemma RoundedProduct(a: int, b: int, c: int, d: int)
    requires 0 <= a < 0x1_0000_0000 && 0 <= b < 0x1_0000_0000
    requires 0 <= c < 0x1_0000_0000 && 0 <= d < 0x1_0000_0000
    ensures var H := 0x1_0000_0000;
            var tmp := b * d / H + (a * d) % H + (b * c) % H + 0x8000_0000;
            a * c + a * d / H + b * c / H + tmp / H == ((a * H + b) * (c * H + d) + TWO_63) / TWO_64
    ensures var H := 0x1_0000_0000;
            var tmp := b * d / H + (a * d) % H + (b * c) % H + 0x8000_0000;
            a * c + a * d / H + b * c / H + tmp / H < TWO_64
  {
    var H := 0x1_0000_0000;
    var ac, ad, bc, bd := a * c, a * d, b * c, b * d;
    assert (a * H + b) * (c * H + d) == ac * H * H + (ad + bc) * H + bd;
    var tmp := bd / H + ad % H + bc % H + 0x8000_0000;
    var r := ac + ad / H + bc / H + tmp / H;
    var low := (tmp % H) * H + bd % H;
    assert ac * H * H + (ad + bc) * H + bd + TWO_63 == r * TWO_64 + low;
    assert 0 <= low < TWO_64;
    ProductBelow(a * H + b, c * H + d);
  }

  lemma ProductBelow(x: int, y: int)
    requires 0 <= x < TWO_64 && 0 <= y < TWO_64
    ensures 0 <= x * y <= (TWO_64 - 1) * (TWO_64 - 1)
  {
    MulMonoBoth(x, TWO_64 - 1, y, TWO_64 - 1);
  }

  /** A product of two 64-bit significands leaves room for the unit added to the upper boundary. */
  lemma ProductLeavesRoom(x: DiyFp, y: DiyFp)
    ensures Multiply(x, y).f as int <= TWO_64 - 2
  {
    ProductBelow(x.f as int, y.f as int);
  }

  /** What normalisation of `n` must produce: the same number, with bit 63 set. */
  ghost predicate IsNormalized(n: DiyFp, r: DiyFp) {
    && r.e <= n.e
    && r.f as int == n.f as int * Pow2(n.e - r.e)
    && r.f as int >= TWO_63
  }

  /** There is only one such number. */
  lemma NormalizedUnique(n: DiyFp, r: DiyFp, r': DiyFp)
    requires IsNormalized(n, r) && IsNormalized(n, r')
    ensures r == r'
  {
    NormalizedOrdered(n, r, r');
    NormalizedOrdered(n, r', r);
  }

  lemma NormalizedOrdered(n: DiyFp, r: DiyFp, r': DiyFp)
    requires IsNormalized(n, r) && IsNormalized(n, r')
    ensures r.e >= r'.e
  {
    if r.e < r'.e {
      var k := r'.e - r.e;
      Pow2Add(n.e - r'.e, k);
      Pow2Grows(1, k);
      MulAssoc(n.f as int, Pow2(n.e - r'.e), Pow2(k));
      MulMonoBoth(TWO_63, r'.f as int, 2, Pow2(k));
    }
  }

  method Normalize(n0: DiyFp) returns (n: DiyFp)
    requires n0.f != 0
    ensures IsNormalized(n0, n)
  {
    n := n0;
    while n.f < 0x40_0000_0000_0000  // the top ten bits are clear
      invariant n.f > 0 && n.e <= n0.e && n.f as int == n0.f as int * Pow2(n0.e - n.e)
      decreases 0x40_0000_0000_0000 - n.f as int
    {
      Pow2Add(n0.e - n.e, 10);
      assert Pow2(10) == 1024;
      ShiftLeft(n0.f as int, Pow2(n0.e - n.e), 1024);
      n := DiyFp(n.f * 1024, n.e - 10);
    }
    while n.f < 0x8000_0000_0000_0000  // bit 63 is clear
      invariant n.f > 0 && n.e <= n0.e && n.f as int == n0.f as int * Pow2(n0.e - n.e)
      decreases TWO_63 - n.f as int
    {
      ShiftLeft(n0.f as int, Pow2(n0.e - n.e), 2);
      n := DiyFp(n.f * 2, n.e - 1);
    }
  }

  lemma ShiftLeft(f: int, p: int, q: int)
    ensures f * p * q == f * (p * q)
  {
  }

  // ---------------------------------------------------------------- IEEE 754 doubles

  function BiasedExponent(bits: u64): u64 {
    (bits / 0x10_0000_0000_0000) % 2048
  }

  function Fraction(bits: u64): u64 {
    bits % 0x10_0000_0000_0000
  }

  /** Significand and exponent of a double, section 3.4 of IEEE 754-2008. */
  function Double2DiyFp(bits: u64): (r: DiyFp)
    ensures r.f < 0x20_0000_0000_0000
    ensures -1074 <= r.e <= 972
  {
    if BiasedExponent(bits) == 0 then DiyFp(Fraction(bits), 1 - 1075)
    else DiyFp(Fraction(bits) + 0x10_0000_0000_0000, BiasedExponent(bits) as int - 1075)
  }

  ghost predicate IsPositiveFinite(bits: u64) {
    0 < bits < 0x7FF0_0000_0000_0000
  }

  /** The number a significand and exponent stand for. */
  ghost function Value(x: DiyFp): real {
    Times(x.f as real, Exp(2.0, x.e))
  }

  /** The number a bit pattern stands for. */
  ghost function DoubleValue(bits: u64): real {
    Value(Double2DiyFp(bits))
  }

  /** Moving a factor of two from the significand to the exponent. */
  lemma ScaleByPow2(f: int, k: nat, e: int)
    ensures Times((f * Pow2(k)) as real, Exp(2.0, e)) == Times(f as real, Exp(2.0, e + k))
  {
    ExpAdd(2.0, k, e);
    ExpIsPow2(k);
    TimesAssoc(f as real, Pow2(k) as real, Exp(2.0, e));
    assert Times(f as real, Pow2(k) as real) == (f * Pow2(k)) as real;
  }

  /** Normalisation keeps the number. */
  lemma NormalizedValue(n: DiyFp, r: DiyFp)
    requires IsNormalized(n, r)
    ensures Value(r) == Value(n)
  {
    ScaleByPow2(n.f as int, n.e - r.e, r.e);
  }

  /** The smallest double of its binade: the one below is half as far as the one above, ... */
  predicate LowerBoundaryIsCloser(bits: u64) {
    Fraction(bits) == 0 && BiasedExponent(bits) != 0
  }

  function UpperBoundary(bits: u64): (r: DiyFp)
    ensures r.f > 0
  {
    var d := Double2DiyFp(bits);
    DiyFp(d.f * 2 + 1, d.e - 1)
  }

  function LowerBoundary(bits: u64): DiyFp
    requires IsPositiveFinite(bits)
  {
    var d := Double2DiyFp(bits);
    if LowerBoundaryIsCloser(bits) then DiyFp(d.f * 4 - 1, d.e - 2) else DiyFp(d.f * 2 - 1, d.e - 1)
  }

  /** The boundaries of `bits`, brought to one exponent with the normalised number. */
  method NormalizedBoundaries(bits: u64) returns (bMinus: DiyFp, w: DiyFp, bPlus: DiyFp)
    requires IsPositiveFinite(bits)
    ensures IsNormalized(Double2DiyFp(bits), w)
    ensures IsNormalized(UpperBoundary(bits), bPlus)
    ensures bMinus.e == w.e == bPlus.e
    ensures Value(bMinus) == Value(LowerBoundary(bits))
    ensures bMinus.f as int + 0x200 <= w.f as int && w.f as int + 0x400 <= bPlus.f as int
    ensures bMinus.f as int >= 0x4000_0000_0000_0000
    ensures -1137 <= w.e <= 960
  {
    var dfp := Double2DiyFp(bits);
    w := Normalize(dfp);
    bPlus := Normalize(DiyFp(dfp.f * 2 + 1, dfp.e - 1));
    BoundariesShareExponent(dfp, w, bPlus);
    bMinus := AlignedLowerBoundary(bits, dfp, bPlus.e, w);
  }

  /** The lower boundary, shifted to the exponent `e` of the other two. */
  method AlignedLowerBoundary(bits: u64, dfp: DiyFp, e: int, ghost w: DiyFp) returns (bMinus: DiyFp)
    requires IsPositiveFinite(bits) && dfp == Double2DiyFp(bits)
    requires IsNormalized(dfp, w) && e == w.e && dfp.e - e >= 11
    ensures bMinus.e == e && 0x4000_0000_0000_0000 <= bMinus.f as int <= w.f as int - 0x200
    ensures Value(bMinus) == Value(LowerBoundary(bits))
  {
    if Fraction(bits) == 0 && BiasedExponent(bits) != 0 {
      bMinus := DiyFp(dfp.f * 4 - 1, dfp.e - 2);
    } else {
      bMinus := DiyFp(dfp.f * 2 - 1, dfp.e - 1);
    }
    LowerBoundaryShifted(bits, dfp, w, bMinus);
    bMinus := DiyFp((bMinus.f as int * Pow2(bMinus.e - e)) as u64, e);
  }

  lemma LowerBoundaryShifted(bits: u64, d: DiyFp, w: DiyFp, b: DiyFp)
    requires IsPositiveFinite(bits) && d == Double2DiyFp(bits) && IsNormalized(d, w) && d.e - w.e >= 11
    requires b == LowerBoundary(bits)
    ensures b.e >= w.e && 0x4000_0000_0000_0000 <= b.f as int * Pow2(b.e - w.e) <= w.f as int - 0x200
    ensures Value(DiyFp((b.f as int * Pow2(b.e - w.e)) as u64, w.e)) == Value(b)
  {
    var k := d.e - w.e;
    if LowerBoundaryIsCloser(bits) {
      BoundaryBelow(d.f as int, k, 2);
      assert Pow2(2) == 4;
    } else {
      BoundaryBelow(d.f as int, k, 1);
      assert Pow2(1) == 2;
    }
    ScaleByPow2(b.f as int, b.e - w.e, w.e);
  }

  /** The significand of the lower boundary, `1 / 2^j` below the number. */
  lemma BoundaryBelow(f: int, k: nat, j: nat)
    requires f > 0 && 1 <= j <= 2 && k >= 11
    requires f * Pow2(k) >= TWO_63
    ensures 512 <= Pow2(k - j) <= f * Pow2(k) / 2
    ensures (f * Pow2(j) - 1) * Pow2(k - j) == f * Pow2(k) - Pow2(k - j)
  {
    Pow2At9();
    Pow2Grows(9, k - j);
    Pow2Grows(k - j, k - 1);
    Pow2Add(j, k - j);
    ScaledLessOne(f, Pow2(j), Pow2(k - j), Pow2(k));
  }

  lemma Pow2At9()
    ensures Pow2(9) == 512
  {
  }

  lemma ScaledLessOne(f: int, a: int, b: int, c: int)
    requires c == a * b && 0 < f && 0 < a && 0 < b
    ensures (f * a - 1) * b == f * c - b
    ensures c <= f * c
  {
    MulAssoc(f, a, b);
    MulMono(1, a, b);
    MulMono(1, f, c);
  }

  /** The upper boundary carries one bit more than the number, so both normalise to one exponent. */
  lemma BoundariesShareExponent(d: DiyFp, w: DiyFp, bPlus: DiyFp)
    requires 0 < d.f < 0x20_0000_0000_0000
    requires IsNormalized(d, w)
    requires IsNormalized(DiyFp(d.f * 2 + 1, d.e - 1), bPlus)
    ensures bPlus.e == w.e
    ensures 11 <= d.e - w.e <= 63
    ensures bPlus.f as int == w.f as int + Pow2(d.e - w.e - 1)
    ensures Pow2(d.e - w.e - 1) >= 1024
  {
    var k := d.e - w.e;
    ShiftAtLeast11(d.f as int, k);
    Pow2Grows(10, k - 1);
    SignificandFits(d.f as int, k);
    ShiftAtMost63(d.f as int, k);
    OneMoreBit(d.f as int, k);
    var candidate := DiyFp((w.f as int + Pow2(k - 1)) as u64, w.e);
    NormalizedUnique(DiyFp(d.f * 2 + 1, d.e - 1), candidate, bPlus);
  }

  lemma ShiftAtLeast11(f: int, k: nat)
    requires 0 < f < 0x20_0000_0000_0000 && f * Pow2(k) >= TWO_63
    ensures k >= 11
  {
    if k < 11 {
      Pow2Grows(k, 10);
      MulMonoBoth(f, 0x1F_FFFF_FFFF_FFFF, Pow2(k), 1024);
    }
  }

  lemma ShiftAtMost63(f: int, k: nat)
    requires 0 < f && f * Pow2(k) < TWO_64
    ensures k <= 63
  {
    if k > 63 {
      Pow2At64();
      Pow2Grows(64, k);
      MulMono(1, f, Pow2(k));
    }
  }

  lemma OneMoreBit(f: int, k: nat)
    requires k > 0
    ensures (2 * f + 1) * Pow2(k - 1) == f * Pow2(k) + Pow2(k - 1)
    ensures (f + 1) * Pow2(k) == f * Pow2(k) + 2 * Pow2(k - 1)
  {
  }

  /** A 64-bit multiple of a power of two leaves that power's room below 2^64. */
  lemma SignificandFits(f: int, k: nat)
    requires f > 0 && f * Pow2(k) < TWO_64
    ensures (f + 1) * Pow2(k) <= TWO_64
  {
    Pow2At64();
    if k > 64 {
      Pow2Grows(64, k);
      MulMono(1, f, Pow2(k));
      assert false;
    }
    Pow2Add(64 - k, k);
    MulCancelStrict(f, Pow2(64 - k), Pow2(k));
    MulMono(f + 1, Pow2(64 - k), Pow2(k));
  }

  lemma Pow2At64()
    ensures Pow2(32) == 0x1_0000_0000
    ensures Pow2(64) == TWO_64
  {
    Pow2Squared(8, 256);
    Pow2Squared(16, 0x1_0000);
    Pow2Squared(32, 0x1_0000_0000);
  }

  lemma Pow2Squared(n: nat, p: nat)
    requires Pow2(n) == p
    ensures Pow2(2 * n) == p * p
  {
    Pow2Add(n, n);
  }

  // ---------------------------------------------------------------- the rounding interval

  lemma HalfExponent(f: int, e: int)
    ensures Times((2 * f) as real, Exp(2.0, e - 1)) == Times(f as real, Exp(2.0, e))
  {
    ExpSucc(2.0, e - 1);
    TimesAssoc(f as real, 2.0, Exp(2.0, e - 1));
    assert Times(f as real, 2.0) == (2 * f) as real;
  }

  /** The next bit pattern is the next number, across binades and from subnormals to normals. */
  lemma NextDouble(bits: u64)
    requires bits < 0x7FF0_0000_0000_0000
    ensures var d := Double2DiyFp(bits);
            DoubleValue(bits + 1) == Times((d.f as int + 1) as real, Exp(2.0, d.e))
  {
    if Fraction(bits) == 0xF_FFFF_FFFF_FFFF {
      assert BiasedExponent(bits + 1) == BiasedExponent(bits) + 1 && Fraction(bits + 1) == 0;
      HalfExponent(0x10_0000_0000_0000, Double2DiyFp(bits + 1).e);
    } else {
      assert BiasedExponent(bits + 1) == BiasedExponent(bits);
      assert Fraction(bits + 1) == Fraction(bits) + 1;
    }
  }

  lemma Distribute(x: real, y: real, p: real)
    ensures Times(x + y, p) == Times(x, p) + Times(y, p)
  {
  }

  /** The upper boundary is half way to the next double. */
  lemma UpperBoundaryIsMidpoint(bits: u64)
    requires IsPositiveFinite(bits)
    ensures Times(2.0, Value(UpperBoundary(bits))) == DoubleValue(bits) + DoubleValue(bits + 1)
  {
    var d := Double2DiyFp(bits);
    var f := d.f as int;
    NextDouble(bits);
    HalfExponent(f, d.e);
    HalfExponent(f + 1, d.e);
    MidpointOf(2 * (f + 1), Exp(2.0, d.e - 1));
    assert Value(UpperBoundary(bits)) == Times((2 * f + 1) as real, Exp(2.0, d.e - 1));
    assert DoubleValue(bits) == Times(f as real, Exp(2.0, d.e));
  }

  /** The double below, in the units of the code's lower boundary. */
  lemma PreviousDouble(bits: u64)
    requires IsPositiveFinite(bits) && bits != 0x10_0000_0000_0000
    ensures var d, f := Double2DiyFp(bits), Double2DiyFp(bits).f as int;
            if LowerBoundaryIsCloser(bits)
            then DoubleValue(bits - 1) == Times((4 * f - 2) as real, Exp(2.0, d.e - 2))
            else DoubleValue(bits - 1) == Times((2 * f - 2) as real, Exp(2.0, d.e - 1))
  {
    var d := Double2DiyFp(bits);
    var f := d.f as int;
    if LowerBoundaryIsCloser(bits) {
      assert BiasedExponent(bits - 1) == BiasedExponent(bits) - 1;
      assert Fraction(bits - 1) == 0xF_FFFF_FFFF_FFFF;
      HalfExponent(2 * f - 1, d.e - 1);
    } else {
      assert BiasedExponent(bits - 1) == BiasedExponent(bits);
      assert Fraction(bits - 1) == Fraction(bits) - 1;
      HalfExponent(f - 1, d.e);
    }
  }

  /** The lower boundary is half way to the double below, except for the smallest normal number: the
      source does not test for it, and takes the boundary of a binade that has no finer one below. */
  lemma LowerBoundaryIsMidpoint(bits: u64)
    requires IsPositiveFinite(bits)
    ensures Times(2.0, Value(LowerBoundary(bits))) == DoubleValue(bits - 1) + DoubleValue(bits)
            <==> bits != 0x10_0000_0000_0000
  {
    if bits == 0x10_0000_0000_0000 {
      SmallestNormalBoundary();
    } else if LowerBoundaryIsCloser(bits) {
      CloserBoundaryIsMidpoint(bits);
    } else {
      PlainBoundaryIsMidpoint(bits);
    }
  }

  lemma CloserBoundaryIsMidpoint(bits: u64)
    requires IsPositiveFinite(bits) && bits != 0x10_0000_0000_0000 && LowerBoundaryIsCloser(bits)
    ensures Times(2.0, Value(LowerBoundary(bits))) == DoubleValue(bits - 1) + DoubleValue(bits)
  {
    var d := Double2DiyFp(bits);
    PreviousDouble(bits);
    HalfExponent(d.f as int, d.e);
    HalfExponent(2 * d.f as int, d.e - 1);
    MidpointOf(4 * d.f as int, Exp(2.0, d.e - 2));
  }

  lemma PlainBoundaryIsMidpoint(bits: u64)
    requires IsPositiveFinite(bits) && bits != 0x10_0000_0000_0000 && !LowerBoundaryIsCloser(bits)
    ensures Times(2.0, Value(LowerBoundary(bits))) == DoubleValue(bits - 1) + DoubleValue(bits)
  {
    var d := Double2DiyFp(bits);
    PreviousDouble(bits);
    HalfExponent(d.f as int, d.e);
    MidpointOf(2 * d.f as int, Exp(2.0, d.e - 1));
  }

  lemma MidpointOf(m: int, p: real)
    ensures Times(2.0, Times((m - 1) as real, p)) == Times((m - 2) as real, p) + Times(m as real, p)
  {
    Distribute((m - 2) as real, m as real, p);
    TimesAssoc(2.0, (m - 1) as real, p);
    assert Times(2.0, (m - 1) as real) == (m - 2) as real + m as real;
  }

  /** There the boundary used is strictly above the midpoint: narrower than needed, never wider. */
  lemma SmallestNormalBoundary()
    ensures var bits: u64 := 0x10_0000_0000_0000;
            Times(2.0, Value(LowerBoundary(bits))) > DoubleValue(bits - 1) + DoubleValue(bits)
  {
    var bits: u64 := 0x10_0000_0000_0000;
    assert Fraction(bits) == 0 && BiasedExponent(bits) == 1;
    assert Fraction(bits - 1) == 0xF_FFFF_FFFF_FFFF && BiasedExponent(bits - 1) == 0;
    var f, e := 0x10_0000_0000_0000, -1074;
    var p := Exp(2.0, e - 2);
    HalfExponent(f, e);
    HalfExponent(2 * f, e - 1);
    HalfExponent(f - 1, e);
    HalfExponent(2 * (f - 1), e - 1);
    Distribute((4 * f - 4) as real, (4 * f) as real, p);
    TimesAssoc(2.0, (4 * f - 1) as real, p);
    assert Times(2.0, (4 * f - 1) as real) == (8 * f - 2) as real;
    Distribute((8 * f - 4) as real, 2.0, p);
  }
}
