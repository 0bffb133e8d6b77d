/** The whole conversion of a positive double to decimal digits, against the real numbers it stands for. */
module Grisu {
  import opened Words
  import opened Powers
  import opened Products
  import opened DiyFp
  import opened DigitGen
  import opened CachedPowers
  import opened PowerAccuracy

  /** The cached power `c` is 10^mk to within half a unit of its last place. */
  ghost predicate IsCachedPower(c: DiyFp, mk: int) {
    && c.f as int >= TWO_63
    && Distance(c.f as real, Times(Exp(10.0, mk), Exp(2.0, -c.e))) <= 0.5
  }

  /** From numbers to the scaled integers of digit generation. */
  ghost function Scale(kappa: int, mk: int, e: int): (s: real)
    ensures s > 0.0
  {
    var s := Times(Times(Unit(kappa) as real, Exp(10.0, mk)), Exp(2.0, -e));
    TimesPositive(Unit(kappa) as real, Exp(10.0, mk));
    TimesPositive(Times(Unit(kappa) as real, Exp(10.0, mk)), Exp(2.0, -e));
    s
  }

  lemma TimesPositive(x: real, y: real)
    requires x > 0.0 && y > 0.0
    ensures Times(x, y) > 0.0
  {
  }

  lemma TimesMono(x: real, y: real, s: real)
    requires s > 0.0
    ensures x <= y <==> Times(x, s) <= Times(y, s)
    ensures Times(x - y, s) == Times(x, s) - Times(y, s)
  {
    assert (x - y) * s == x * s - y * s;
    if x <= y {
      assert (y - x) * s >= 0.0;
    } else {
      assert (x - y) * s > 0.0;
    }
  }

  lemma ExpSplit(b: real, m: int, n: int)
    requires b > 0.0
    ensures Times(Exp(b, m), Exp(b, n)) == Exp(b, m + n)
  {
    ExpAdd(b, m, n);
  }

  lemma RealProduct(a: int, b: int)
    ensures (a * b) as real == Times(a as real, b as real)
  {
  }

  /** The weight of the last digit, as the reals see it. */
  lemma WeightAsReal(kappa: int, e: int)
    requires e <= 0
    ensures Times(Times(Unit(kappa) as real, Exp(10.0, kappa)), Exp(2.0, -e)) == Weight(kappa, e) as real
  {
    ExpIsPow2(-e);
    if kappa < 0 {
      ExpIsPow10(-kappa);
      ExpSplit(10.0, -kappa, kappa);
      assert Times(1.0, Pow2(-e) as real) == Pow2(-e) as real;
    } else {
      ExpIsPow10(kappa);
      assert Times(1.0, Pow10(kappa) as real) == Pow10(kappa) as real;
      RealProduct(Pow10(kappa), Pow2(-e));
    }
  }

  /** A decimal of the final exponent is a multiple of the weight of the last digit. */
  lemma ScaledDecimal(n: int, kappa: int, mk: int, e: int)
    requires e <= 0
    ensures Times(Decimal(n, kappa - mk), Scale(kappa, mk, e)) == Mul(n, Weight(kappa, e)) as real
  {
    Reassociate(n as real, Exp(10.0, kappa - mk), Unit(kappa) as real, Exp(10.0, mk), Exp(2.0, -e));
    ExpSplit(10.0, kappa - mk, mk);
    WeightAsReal(kappa, e);
    RealProduct(n, Weight(kappa, e));
  }

  lemma Reassociate(n: real, p: real, u: real, q: real, r: real)
    ensures Times(Times(n, p), Times(Times(u, q), r)) == Times(n, Times(Times(u, Times(p, q)), r))
  {
  }

  /** A binary number, scaled, is the exact product with the power of ten that the cached one stands for. */
  lemma ScaledValue(x: DiyFp, ce: int, mk: int, kappa: int)
    ensures Times(Value(x), Scale(kappa, mk, x.e + ce + 64)) ==
            Times(Unit(kappa) as real,
                  Times(Times(x.f as real, Times(Exp(10.0, mk), Exp(2.0, -ce))), Exp(2.0, -64)))
  {
    var e := x.e + ce + 64;
    var u, f, q := Unit(kappa) as real, x.f as real, Exp(10.0, mk);
    Rearrange(f, Exp(2.0, x.e), u, q, Exp(2.0, -e));
    ExpSplit(2.0, x.e, -e);
    ExpSplit(2.0, -ce, -64);
    assert x.e + -e == -ce + -64;
    RearrangeInner(u, f, q, Exp(2.0, -ce), Exp(2.0, -64));
  }

  lemma Rearrange(f: real, p: real, u: real, q: real, r: real)
    ensures Times(Times(f, p), Times(Times(u, q), r)) == Times(u, Times(Times(f, q), Times(p, r)))
  {
  }

  lemma RearrangeInner(u: real, f: real, q: real, a: real, b: real)
    ensures Times(u, Times(Times(f, q), Times(a, b))) == Times(u, Times(Times(f, Times(q, a)), b))
  {
  }

  /** The product with the cached power is within one unit of the exact position. */
  lemma ScaledProduct(x: DiyFp, c: DiyFp, mk: int, kappa: int)
    requires IsCachedPower(c, mk)
    ensures var r, e := Multiply(x, c).f as int, x.e + c.e + 64;
            Mul(r - 1, Unit(kappa)) as real < Times(Value(x), Scale(kappa, mk, e)) < Mul(r + 1, Unit(kappa)) as real
  {
    var P := Times(Exp(10.0, mk), Exp(2.0, -c.e));
    var r := Multiply(x, c).f as int;
    var exact := Times(Times(x.f as real, P), Exp(2.0, -64));
    ScaledValue(x, c.e, mk, kappa);
    RoundedNearExact(x.f as int, c.f as int, P, r);
    ExpSplit(2.0, 64, -64);
    ExpIsPow2(64);
    Pow2At64();
    Unscale(Times(x.f as real, P), Exp(2.0, -64), (r - 1) as real, (r + 1) as real);
    ScaleStrict((r - 1) as real, exact, Unit(kappa) as real);
    ScaleStrict(exact, (r + 1) as real, Unit(kappa) as real);
    RealProduct(r - 1, Unit(kappa));
    RealProduct(r + 1, Unit(kappa));
  }

  lemma Unscale(x: real, t: real, lo: real, hi: real)
    requires Times(TWO_64 as real, t) == 1.0 && lo * TWO_64 as real < x < hi * TWO_64 as real
    ensures lo < Times(x, t) < hi
  {
    assert t * TWO_64 as real == 1.0;
    assert x * t * TWO_64 as real == x;
  }

  lemma ScaleStrict(x: real, y: real, u: real)
    requires x < y && u > 0.0
    ensures Times(x, u) < Times(y, u) && Times(x, u) == Times(u, x) && Times(y, u) == Times(u, y)
  {
  }

  /** Half a unit from the cached power, less than half from the factor, and half from the rounding. */
  lemma RoundedNearExact(f: int, c: int, P: real, r: int)
    requires 0 <= f < TWO_64 && 0 <= c
    requires Distance(c as real, P) <= 0.5
    requires r == (f * c + TWO_63) / TWO_64
    ensures (r - 1) as real * TWO_64 as real < Times(f as real, P) < (r + 1) as real * TWO_64 as real
  {
    var d, F := P - c as real, f as real;
    RealProduct(f, c);
    assert Times(F, P) == Times(F, c as real) + Times(F, d);
    ErrorBound(F, d);
    var p := f * c;
    assert r * TWO_64 <= p + TWO_63 < (r + 1) * TWO_64;
  }

  lemma ErrorBound(F: real, d: real)
    requires F >= 0.0 && -0.5 <= d <= 0.5
    ensures -0.5 * F <= Times(F, d) <= 0.5 * F
  {
    assert F * (0.5 - d) >= 0.0;
    assert F * (d + 0.5) >= 0.0;
  }

  /** Products of boundaries half a unit of the double apart stay apart. */
  lemma ProductsStayApart(x: DiyFp, y: DiyFp, c: DiyFp)
    requires x.f as int + 512 <= y.f as int && c.f as int >= TWO_63
    ensures Multiply(x, c).f < Multiply(y, c).f
  {
    var a, b, p := x.f as int, y.f as int, c.f as int;
    MulMono(a + 512, b, p);
    assert (a + 512) * p == a * p + 512 * p;
  }

  lemma LowProductIsPositive(x: DiyFp, c: DiyFp)
    requires x.f as int >= 0x4000_0000_0000_0000 && c.f as int >= TWO_63
    ensures Multiply(x, c).f >= 1
  {
    MulMonoBoth(0x4000_0000_0000_0000, x.f as int, TWO_63, c.f as int);
  }

  lemma ProductsAreGenerable(bMinus: DiyFp, w: DiyFp, bPlus: DiyFp, c: DiyFp)
    requires bMinus.e == w.e == bPlus.e && -60 <= w.e + c.e + 64 <= -32
    requires bMinus.f as int >= 0x4000_0000_0000_0000 && c.f as int >= TWO_63
    requires bMinus.f as int + 512 <= w.f as int && w.f as int + 512 <= bPlus.f as int
    ensures Generable(Multiply(bMinus, c), Multiply(w, c), Multiply(bPlus, c))
  {
    ProductsStayApart(bMinus, w, c);
    ProductsStayApart(w, bPlus, c);
    LowProductIsPositive(bMinus, c);
    ProductLeavesRoom(bPlus, c);
  }

  /** `n` is a correct answer for the double `bits` with decimal exponent `k`: it lies strictly between
      the boundaries, so that reading it back gives `bits`; ... */
  ghost predicate ReadsBack(bits: u64, n: int, k: int)
    requires IsPositiveFinite(bits)
  {
    Value(LowerBoundary(bits)) < Decimal(n, k) < Value(UpperBoundary(bits))
  }

  /** ... nothing between the boundaries has fewer digits; ... */
  ghost predicate IsShortest(bits: u64, k: int)
    requires IsPositiveFinite(bits)
  {
    forall m: int, j: int :: j > k ==>
      !(Value(LowerBoundary(bits)) <= Decimal(m, j) <= Value(UpperBoundary(bits)))
  }

  /** ... and nothing between them with as many digits is nearer to the number. */
  ghost predicate IsNearest(bits: u64, n: int, k: int)
    requires IsPositiveFinite(bits)
  {
    forall m: int :: Value(LowerBoundary(bits)) <= Decimal(m, k) <= Value(UpperBoundary(bits)) ==>
      Distance(Decimal(n, k), DoubleValue(bits)) <= Distance(Decimal(m, k), DoubleValue(bits))
  }

  ghost predicate IsCorrect(bits: u64, n: int, k: int, success: bool)
    requires IsPositiveFinite(bits)
  {
    IsShortest(bits, k) && (success ==> ReadsBack(bits, n, k) && IsNearest(bits, n, k))
  }

  /** The normalised double, and its boundaries with the same exponent. */
  ghost predicate AreNumbers(bits: u64, bMinus: DiyFp, w: DiyFp, bPlus: DiyFp)
    requires IsPositiveFinite(bits)
  {
    && IsNormalized(Double2DiyFp(bits), w) && IsNormalized(UpperBoundary(bits), bPlus)
    && bMinus.e == w.e == bPlus.e && Value(bMinus) == Value(LowerBoundary(bits))
  }

  /** `digits` come out of digit generation for the normalised boundaries of `bits` and the power of ten that
      their exponent selects. */
  ghost predicate IsConversion(bits: u64, bMinus: DiyFp, w: DiyFp, bPlus: DiyFp, c: DiyFp, mk: int, digits: nat,
                               dExp: int, success: bool)
    requires IsPositiveFinite(bits)
  {
    && AreNumbers(bits, bMinus, w, bPlus) && Chosen(w.e, c, mk) && Multiply(w, c).e <= 0
    && IsGenerated(Multiply(bMinus, c), Multiply(w, c), Multiply(bPlus, c), digits, dExp + mk, success)
  }

  /** The digits, their exponent and the success of converting `bits`: success is decided by weeding alone. */
  ghost predicate Converts(bits: u64, digits: nat, dExp: int, success: bool)
    requires IsPositiveFinite(bits)
  {
    exists bMinus, w, bPlus, c, mk :: IsConversion(bits, bMinus, w, bPlus, c, mk, digits, dExp, success)
  }

  /** Converts a positive finite double.  The digits are in the rounding interval whenever the conversion reports
      success, and they are then the shortest there and the nearest of that length; no shorter decimal exists even
      when it does not. */
  method Grisu3(bits: u64, buffer: array<char>) returns (success: bool, length: nat, dExp: int)
    requires IsPositiveFinite(bits) && buffer.Length >= 20
    modifies buffer
    ensures 1 <= length <= 20 && IsDigits(buffer[..length])
    ensures -400 <= dExp <= 400
    ensures Converts(bits, DigitsValue(buffer[..length]), dExp, success)
    ensures IsCorrect(bits, DigitsValue(buffer[..length]), dExp, success)
  {
    var bMinus, w, bPlus := NormalizedBoundaries(bits);
    CachedPowHitsTarget(w.e);
    var (c, mk) := CachedPow(-60 - 64 - w.e);
    var low, v, high := Multiply(bMinus, c), Multiply(w, c), Multiply(bPlus, c);
    ProductsAreGenerable(bMinus, w, bPlus, c);
    var kappa;
    success, length, kappa := Generate(low, v, high, buffer);
    dExp := kappa - mk;
    ghost var digits := DigitsValue(buffer[..length]);
    ghost var rest0: int, rest: int :| Generated(low, v, high, digits, kappa, success, rest0, rest);
    MadeIsCorrect(bits, bMinus, w, bPlus, c, mk, digits, kappa, success, rest0, rest, dExp);
  }

  /** The table's power of ten for the binary exponent `e`. */
  ghost predicate IsEntryFor(e: int, p: Power) {
    0 <= PowerIndex(-60 - 64 - e) < POW_CACHE_SIZE && p == PowCache(PowerIndex(-60 - 64 - e))
  }

  /** `c` is 10^mk as the table has it for `e`. */
  ghost predicate Chosen(e: int, c: DiyFp, mk: int) {
    && 0 <= PowerIndex(-60 - 64 - e) < POW_CACHE_SIZE
    && forall p :: IsEntryFor(e, p) ==> c == DiyFp(p.fract, p.bExp) && mk == p.dExp
  }

  lemma ChosenOnce(e: int, c: DiyFp, mk: int, c': DiyFp, mk': int)
    requires Chosen(e, c, mk) && Chosen(e, c', mk')
    ensures c == c' && mk == mk'
  {
    assert IsEntryFor(e, PowCache(PowerIndex(-60 - 64 - e)));
  }

  /** What the boundaries, the cached power and the digits of a conversion have to do with each other. */
  ghost predicate Made(bits: u64, bMinus: DiyFp, w: DiyFp, bPlus: DiyFp, c: DiyFp, mk: int, digits: nat, kappa: int,
                       ok: bool, rest0: int, rest: int)
    requires IsPositiveFinite(bits)
  {
    && AreNumbers(bits, bMinus, w, bPlus) && -60 <= w.e + c.e + 64 <= -32
    && Generated(Multiply(bMinus, c), Multiply(w, c), Multiply(bPlus, c), digits, kappa, ok, rest0, rest)
  }

  lemma ConversionShown(bits: u64, bMinus: DiyFp, w: DiyFp, bPlus: DiyFp, c: DiyFp, mk: int, digits: nat, kappa: int,
                        ok: bool, rest0: int, rest: int)
    requires IsPositiveFinite(bits) && Made(bits, bMinus, w, bPlus, c, mk, digits, kappa, ok, rest0, rest)
    requires Chosen(w.e, c, mk)
    ensures Converts(bits, digits, kappa - mk, ok)
  {
    assert IsConversion(bits, bMinus, w, bPlus, c, mk, digits, kappa - mk, ok);
  }

  lemma MadeIsConverted(bits: u64, bMinus: DiyFp, w: DiyFp, bPlus: DiyFp, c: DiyFp, mk: int, digits: nat,
                        kappa: int, ok: bool, rest0: int, rest: int)
    requires IsPositiveFinite(bits) && IsCachedPower(c, mk)
    requires Made(bits, bMinus, w, bPlus, c, mk, digits, kappa, ok, rest0, rest)
    ensures Converted(bits, bMinus, w, bPlus, c, mk, digits, kappa, ok, rest0, rest)
  {
    NormalizedValue(Double2DiyFp(bits), w);
    NormalizedValue(UpperBoundary(bits), bPlus);
  }

  lemma ConvertedIsCorrect(bits: u64, bMinus: DiyFp, w: DiyFp, bPlus: DiyFp, c: DiyFp, mk: int, digits: nat,
                           kappa: int, ok: bool, rest0: int, rest: int)
    requires IsPositiveFinite(bits)
    requires Converted(bits, bMinus, w, bPlus, c, mk, digits, kappa, ok, rest0, rest)
    ensures IsCorrect(bits, digits, kappa - mk, ok)
  {
    GeneratedIsShortest(bits, bMinus, w, bPlus, c, mk, digits, kappa, ok, rest0, rest);
    if ok {
      GeneratedReadsBack(bits, bMinus, w, bPlus, c, mk, digits, kappa, rest0, rest);
      GeneratedIsNearest(bits, bMinus, w, bPlus, c, mk, digits, kappa, rest0, rest);
    }
  }

  lemma MadeIsCorrect(bits: u64, bMinus: DiyFp, w: DiyFp, bPlus: DiyFp, c: DiyFp, mk: int, digits: nat, kappa: int,
                      ok: bool, rest0: int, rest: int, dExp: int)
    requires IsPositiveFinite(bits) && Made(bits, bMinus, w, bPlus, c, mk, digits, kappa, ok, rest0, rest)
    requires Chosen(w.e, c, mk) && kappa - mk == dExp
    ensures Converts(bits, digits, dExp, ok)
    ensures IsCorrect(bits, digits, dExp, ok)
  {
    ConversionShown(bits, bMinus, w, bPlus, c, mk, digits, kappa, ok, rest0, rest);
    CachedIsAccurate(w.e, c, mk);
    MadeIsConverted(bits, bMinus, w, bPlus, c, mk, digits, kappa, ok, rest0, rest);
    ConvertedIsCorrect(bits, bMinus, w, bPlus, c, mk, digits, kappa, ok, rest0, rest);
  }

  /** The power of ten that is chosen is right to half a unit of its last place. */
  lemma CachedIsAccurate(e: int, c: DiyFp, mk: int)
    requires Chosen(e, c, mk)
    ensures IsCachedPower(c, mk)
  {
    var p := PowCache(PowerIndex(-60 - 64 - e));
    assert IsEntryFor(e, p);
    EntryIsAccurate(PowerIndex(-60 - 64 - e));
    AccurateIsCached(p);
  }

  lemma AccurateIsCached(p: Power)
    requires IsAccurate(p)
    ensures IsCachedPower(DiyFp(p.fract, p.bExp), p.dExp)
  {
  }

  /** The normalised boundaries of `bits`, and what digit generation made of their products with `c`. */
  ghost predicate Converted(bits: u64, bMinus: DiyFp, w: DiyFp, bPlus: DiyFp, c: DiyFp, mk: int, digits: nat,
                            kappa: int, ok: bool, rest0: int, rest: int)
    requires IsPositiveFinite(bits)
  {
    && bMinus.e == w.e == bPlus.e && -60 <= w.e + c.e + 64 <= -32
    && Value(bMinus) == Value(LowerBoundary(bits))
    && Value(w) == DoubleValue(bits)
    && Value(bPlus) == Value(UpperBoundary(bits))
    && IsCachedPower(c, mk)
    && Generated(Multiply(bMinus, c), Multiply(w, c), Multiply(bPlus, c), digits, kappa, ok, rest0, rest)
  }

  lemma GeneratedIsShortest(bits: u64, bMinus: DiyFp, w: DiyFp, bPlus: DiyFp, c: DiyFp, mk: int, digits: nat,
                            kappa: int, ok: bool, rest0: int, rest: int)
    requires IsPositiveFinite(bits) && Converted(bits, bMinus, w, bPlus, c, mk, digits, kappa, ok, rest0, rest)
    ensures IsShortest(bits, kappa - mk)
  {
    forall m: int, j: int | j > kappa - mk
      ensures !(Value(LowerBoundary(bits)) <= Decimal(m, j) <= Value(UpperBoundary(bits)))
    {
      var e := w.e + c.e + 64;
      var s, u, t := Scale(kappa, mk, e), Unit(kappa), Weight(kappa, e);
      ScaledProduct(bMinus, c, mk, kappa);
      ScaledProduct(bPlus, c, mk, kappa);
      TimesMono(Value(bMinus), Decimal(m, j), s);
      TimesMono(Decimal(m, j), Value(bPlus), s);
      var m' := ShiftDecimal(m, j, kappa - mk);
      ScaledDecimal(m', kappa, mk, e);
      var n := m * Pow10(j - (kappa - mk) - 1);
      assert Mul(m', t) == Mul(n, 10 * t) by {
        TenTimes(n, t);
      }
      assert NoMultiple(10 * t, (Multiply(bMinus, c).f as int - 1) * u, (Multiply(bPlus, c).f as int + 1) * u);
      assert !((Multiply(bMinus, c).f as int - 1) * u < Mul(n, 10 * t) <= (Multiply(bPlus, c).f as int + 1) * u);
    }
  }

  lemma TenTimes(n: int, t: int)
    ensures Mul(n, 10 * t) == Mul(10 * n, t)
  {
    MulAssoc(n, 10, t);
  }

  /** A decimal with a greater exponent is a multiple of ten with the smaller one. */
  lemma ShiftDecimal(m: int, j: int, k: int) returns (m': int)
    requires j > k
    ensures m' == 10 * (m * Pow10(j - k - 1)) && Decimal(m', k) == Decimal(m, j)
  {
    m' := 10 * (m * Pow10(j - k - 1));
    ExpSplit(10.0, j - k, k);
    ExpIsPow10(j - k);
    assert m' == m * Pow10(j - k) by {
      TenTimes(m, Pow10(j - k - 1));
    }
    RealProduct(m, Pow10(j - k));
    TimesAssoc(m as real, Exp(10.0, j - k), Exp(10.0, k));
  }

  lemma GeneratedReadsBack(bits: u64, bMinus: DiyFp, w: DiyFp, bPlus: DiyFp, c: DiyFp, mk: int, digits: nat,
                           kappa: int, rest0: int, rest: int)
    requires IsPositiveFinite(bits) && Converted(bits, bMinus, w, bPlus, c, mk, digits, kappa, true, rest0, rest)
    ensures ReadsBack(bits, digits, kappa - mk)
  {
    var e := w.e + c.e + 64;
    var s, u, t := Scale(kappa, mk, e), Unit(kappa), Weight(kappa, e);
    var low, high := Multiply(bMinus, c).f as int, Multiply(bPlus, c).f as int;
    ScaledProduct(bMinus, c, mk, kappa);
    ScaledProduct(bPlus, c, mk, kappa);
    ScaledDecimal(digits, kappa, mk, e);
    NarrowInterval(low, high, u, Mul(digits, t), rest);
    TimesMono(Decimal(digits, kappa - mk), Value(bMinus), s);
    TimesMono(Value(bPlus), Decimal(digits, kappa - mk), s);
  }

  lemma NarrowInterval(low: int, high: int, u: int, x: int, rest: int)
    requires u >= 0 && x == (high + 1) * u - rest && 2 * u <= rest <= (high - low + 2) * u - 4 * u
    ensures Mul(low + 1, u) <= x <= Mul(high - 1, u)
  {
  }

  lemma GeneratedIsNearest(bits: u64, bMinus: DiyFp, w: DiyFp, bPlus: DiyFp, c: DiyFp, mk: int, digits: nat,
                           kappa: int, rest0: int, rest: int)
    requires IsPositiveFinite(bits) && Converted(bits, bMinus, w, bPlus, c, mk, digits, kappa, true, rest0, rest)
    ensures IsNearest(bits, digits, kappa - mk)
  {
    var k, v := kappa - mk, DoubleValue(bits);
    forall m: int | Value(LowerBoundary(bits)) <= Decimal(m, k) <= Value(UpperBoundary(bits))
      ensures Distance(Decimal(digits, k), v) <= Distance(Decimal(m, k), v)
    {
      NearerThan(bits, bMinus, w, bPlus, c, mk, digits, kappa, rest0, rest, m);
    }
  }

  lemma NearerThan(bits: u64, bMinus: DiyFp, w: DiyFp, bPlus: DiyFp, c: DiyFp, mk: int, digits: nat,
                   kappa: int, rest0: int, rest: int, m: int)
    requires IsPositiveFinite(bits) && Converted(bits, bMinus, w, bPlus, c, mk, digits, kappa, true, rest0, rest)
    requires Value(LowerBoundary(bits)) <= Decimal(m, kappa - mk) <= Value(UpperBoundary(bits))
    ensures Distance(Decimal(digits, kappa - mk), DoubleValue(bits)) <=
            Distance(Decimal(m, kappa - mk), DoubleValue(bits))
  {
    var e := w.e + c.e + 64;
    var s, u, t := Scale(kappa, mk, e), Unit(kappa), Weight(kappa, e);
    var low, v, high := Multiply(bMinus, c).f as int, Multiply(w, c).f as int, Multiply(bPlus, c).f as int;
    var x, y, V := Decimal(digits, kappa - mk), Decimal(m, kappa - mk), DoubleValue(bits);
    ScaledProduct(bMinus, c, mk, kappa);
    ScaledProduct(w, c, mk, kappa);
    ScaledProduct(bPlus, c, mk, kappa);
    ScaledDecimal(digits, kappa, mk, e);
    ScaledDecimal(m, kappa, mk, e);
    TimesMono(Value(bMinus), y, s);
    TimesMono(y, Value(bPlus), s);
    ScaledDistance(x, V, s);
    ScaledDistance(y, V, s);
    TimesMono(Distance(x, V), Distance(y, V), s);
    NearerScaled(low, v, high, u, t, digits, m, rest0, rest, Times(V, s));
  }

  /** The same, scaled: `pos` is where the number lies. */
  lemma NearerScaled(low: int, v: int, high: int, u: int, t: int, digits: int, m: int, rest0: int, rest: int, pos: real)
    requires u >= 1 && t >= 1 && 0 <= rest0 < t && rest >= rest0
    requires Mul(digits, t) == (high + 1) * u - rest
    requires Weeded(rest0, rest, t, (high + 1 - v) * u, u, (high - low + 2) * u)
    requires Mul(v - 1, u) as real < pos < Mul(v + 1, u) as real
    requires Mul(low - 1, u) <= Mul(m, t) <= Mul(high + 1, u)
    ensures Distance(Mul(digits, t) as real, pos) <= Distance(Mul(m, t) as real, pos)
  {
    var top := (high + 1) * u;
    var d := top as real - pos;
    var j := digits - m;
    UncertaintyWindow(v, high, u, pos, d);
    InsideWindow(low, high, u, Mul(m, t));
    assert j * t == Mul(digits, t) - Mul(m, t);
    NearestMultiple(rest0, rest, t, (high + 1 - v) * u, u, (high - low + 2) * u, d, j);
  }

  lemma InsideWindow(low: int, high: int, u: int, x: int)
    requires Mul(low - 1, u) <= x <= Mul(high + 1, u)
    ensures 0 <= (high + 1) * u - x <= (high - low + 2) * u
  {
  }

  /** Where the number itself may lie, measured from the top of the interval. */
  lemma UncertaintyWindow(v: int, high: int, u: int, x: real, d: real)
    requires Mul(v - 1, u) as real < x < Mul(v + 1, u) as real && d == ((high + 1) * u) as real - x
    ensures ((high + 1 - v) * u - u) as real <= d <= ((high + 1 - v) * u + u) as real
  {
    assert (high + 1 - v) * u - u == (high + 1) * u - (v + 1) * u;
    assert (high + 1 - v) * u + u == (high + 1) * u - (v - 1) * u;
  }

  lemma ScaledDistance(x: real, y: real, s: real)
    requires s > 0.0
    ensures Times(Distance(x, y), s) == Distance(Times(x, s), Times(y, s))
  {
    TimesMono(x, y, s);
    TimesMono(y, x, s);
  }

  /** The settled candidate against every multiple of the last digit's weight inside the interval. */
  lemma NearestMultiple(rest0: int, rest: int, ten: int, wpW: int, ulp: int, delta: int, d: real, j: int)
    requires ten > 0 && ulp >= 0 && 0 <= rest0 < ten && rest >= rest0
    requires Weeded(rest0, rest, ten, wpW, ulp, delta)
    requires (wpW - ulp) as real <= d <= (wpW + ulp) as real
    requires 0 <= rest + j * ten <= delta
    ensures Distance(rest as real, d) <= Distance((rest + j * ten) as real, d)
  {
    WeededIsNearest(rest0, rest, ten, wpW, ulp, delta, d);
    if j > 0 {
      MulMono(1, j, ten);
    } else if j < 0 {
      MulMono(j, -1, ten);
    }
  }
}
