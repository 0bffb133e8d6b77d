/** Digit generation has one outcome: what is said of the digits tells them, and whether they are safe. */
module DigitsOnce {
  import opened Words
  import opened Powers
  import opened Products
  import opened DiyFp
  import opened DigitGen
  import opened Grisu

  // ---------------------------------------------------------------- the last digit

  /** Weeding stops at the first place where it can. */
  lemma SettledOrder(rest0: int, a: int, i: nat, b: int, j: nat, ten: int, wUp: int, delta: int)
    requires ten > 0 && a == rest0 + Mul(i, ten) && b == rest0 + Mul(j, ten) && b <= delta
    requires Settled(rest0, a, ten, wUp, delta) && Settled(rest0, b, ten, wUp, delta)
    ensures b <= a
  {
    if j <= i {
      MulMono(j, i, ten);
    } else {
      StepsApart(i, j, ten);
    }
  }

  lemma StepsApart(i: nat, j: nat, ten: int)
    requires i < j && ten > 0
    ensures Mul(i, ten) + ten <= Mul(j, ten)
  {
    MulMono(i + 1, j, ten);
  }

  lemma RemaindersAgree(t: int, x: int, a: int, y: int, b: int)
    requires 0 <= a < t && 0 <= b < t && Mul(x, t) + a == Mul(y, t) + b
    ensures x == y && a == b
  {
    if x < y {
      MulMono(x + 1, y, t);
    } else if y < x {
      MulMono(y + 1, x, t);
    }
  }

  // ---------------------------------------------------------------- the exponent

  /** How the scales of two exponents are related. */
  lemma Scales(k: int, k': int, e: int) returns (q: nat)
    requires k < k' && e <= 0
    ensures q >= 1 && Unit(k) == Mul(Unit(k'), q)
    ensures Mul(Weight(k', e), q) == Mul(Pow10(k' - k - 1), 10 * Weight(k, e))
  {
    var p, d := Pow2(-e), Pow10(k' - k - 1);
    assert Pow10(k' - k) == 10 * d;
    if k >= 0 {
      q := 1;
      Pow10Add(k' - k, k);
      Reassociate(d, Pow10(k), p);
    } else if k' < 0 {
      q := Pow10(k' - k);
      Pow10Add(-k', k' - k);
      Reassociate(d, 1, p);
    } else {
      q := Pow10(-k);
      Pow10Add(k', -k);
      Reassociate(d, 1, p);
      MulAssoc(Pow10(k'), p, q);
      MulAssoc(Pow10(k'), q, p);
    }
  }

  lemma Reassociate(d: int, x: int, p: int)
    ensures (10 * d * x) * p == d * (10 * (x * p)) && p * (10 * d) == d * (10 * p)
  {
    MulAssoc(10 * d, x, p);
    MulAssoc(d, 10, x * p);
    MulAssoc(d, 10, p);
  }

  /** The first candidate. */
  ghost predicate IsFirst(low: DiyFp, w: DiyFp, high: DiyFp, kappa: int, first: nat, rest0: int)
    requires w.e <= 0
  {
    && Mul(first, Weight(kappa, w.e)) + rest0 == (high.f as int + 1) * Unit(kappa)
    && 0 <= rest0 < Weight(kappa, w.e) && rest0 < (high.f as int - low.f as int + 2) * Unit(kappa)
  }

  lemma FirstCandidate(low: DiyFp, w: DiyFp, high: DiyFp, digits: nat, kappa: int, ok: bool, rest0: int, rest: int)
    returns (steps: nat)
    requires w.e <= 0 && Generated(low, w, high, digits, kappa, ok, rest0, rest)
    ensures rest == rest0 + Mul(steps, Weight(kappa, w.e))
    ensures IsFirst(low, w, high, kappa, digits + steps, rest0)
  {
    var t := Weight(kappa, w.e);
    steps :| rest == rest0 + Mul(steps, t);
    assert (digits + steps) * t == digits * t + steps * t;
  }

  /** A multiple of a greater power of ten would have stopped digit generation before. */
  lemma NoGreaterExponent(low: DiyFp, w: DiyFp, high: DiyFp, k: int, k': int, first: nat, rest0: int)
    requires w.e <= 0 && k < k' && IsFirst(low, w, high, k', first, rest0)
    ensures !NoMultiple(10 * Weight(k, w.e), (low.f as int - 1) * Unit(k), (high.f as int + 1) * Unit(k))
  {
    var q := Scales(k, k', w.e);
    var H, L, u, t := high.f as int + 1, low.f as int - 1, Unit(k'), Weight(k', w.e);
    var n := first * Pow10(k' - k - 1);
    ScaledBounds(L, H, u, Mul(first, t), q);
    MulAssoc(first, t, q);
    MulAssoc(first, Pow10(k' - k - 1), 10 * Weight(k, w.e));
    assert Mul(n, 10 * Weight(k, w.e)) == Mul(first, t) * q;
    assert L * Unit(k) < Mul(n, 10 * Weight(k, w.e)) <= H * Unit(k);
  }

  lemma ScaledBounds(L: int, H: int, u: int, x: int, q: int)
    requires H * u - (H - L) * u < x <= H * u && q >= 1
    ensures L * (u * q) < x * q <= H * (u * q)
  {
    assert H * u - (H - L) * u == L * u;
    MulMono(L * u + 1, x, q);
    MulMono(x, H * u, q);
    MulAssoc(L, u, q);
    MulAssoc(H, u, q);
  }

  // ---------------------------------------------------------------- the outcome

  lemma GeneratedOnce(low: DiyFp, w: DiyFp, high: DiyFp, digits: nat, kappa: int, ok: bool, rest0: int, rest: int,
                      digits': nat, kappa': int, ok': bool, rest0': int, rest': int)
    requires w.e <= 0
    requires Generated(low, w, high, digits, kappa, ok, rest0, rest)
    requires Generated(low, w, high, digits', kappa', ok', rest0', rest')
    ensures digits == digits' && kappa == kappa' && ok == ok'
  {
    var steps := FirstCandidate(low, w, high, digits, kappa, ok, rest0, rest);
    var steps' := FirstCandidate(low, w, high, digits', kappa', ok', rest0', rest');
    if kappa < kappa' {
      NoGreaterExponent(low, w, high, kappa, kappa', digits' + steps', rest0');
    } else if kappa' < kappa {
      NoGreaterExponent(low, w, high, kappa', kappa, digits + steps, rest0);
    } else {
      var t, u := Weight(kappa, w.e), Unit(kappa);
      var wUp, delta := (high.f as int + 1 - w.f as int) * u - u, (high.f as int - low.f as int + 2) * u;
      RemaindersAgree(t, digits + steps, rest0, digits' + steps', rest0');
      SettledOrder(rest0, rest, steps, rest', steps', t, wUp, delta);
      SettledOrder(rest0, rest', steps', rest, steps, t, wUp, delta);
      RemaindersAgree(t, digits, 0, digits', 0);
    }
  }

  lemma OutcomeOnce(low: DiyFp, w: DiyFp, high: DiyFp, digits: nat, kappa: int, ok: bool, digits': nat, kappa': int,
                    ok': bool)
    requires w.e <= 0
    requires IsGenerated(low, w, high, digits, kappa, ok) && IsGenerated(low, w, high, digits', kappa', ok')
    ensures digits == digits' && kappa == kappa' && ok == ok'
  {
    var rest0: int, rest: int :| Generated(low, w, high, digits, kappa, ok, rest0, rest);
    var rest0': int, rest': int :| Generated(low, w, high, digits', kappa', ok', rest0', rest');
    GeneratedOnce(low, w, high, digits, kappa, ok, rest0, rest, digits', kappa', ok', rest0', rest');
  }

  /** The digits of a double, their exponent and the success are determined. */
  lemma ConvertsOnce(bits: u64, digits: nat, k: int, ok: bool, digits': nat, k': int, ok': bool)
    requires IsPositiveFinite(bits) && Converts(bits, digits, k, ok) && Converts(bits, digits', k', ok')
    ensures digits == digits' && k == k' && ok == ok'
  {
    var bMinus, w, bPlus, c, mk :| IsConversion(bits, bMinus, w, bPlus, c, mk, digits, k, ok);
    var bMinus', w', bPlus', c', mk' :| IsConversion(bits, bMinus', w', bPlus', c', mk', digits', k', ok');
    SameParts(bits, bMinus, w, bPlus, c, mk, digits, k, ok, bMinus', w', bPlus', c', mk', digits', k', ok');
    SameOutcome(bits, bMinus, w, bPlus, c, mk, digits, k, ok, digits', k', ok');
  }

  lemma SameParts(bits: u64, bMinus: DiyFp, w: DiyFp, bPlus: DiyFp, c: DiyFp, mk: int, digits: nat, k: int, ok: bool,
                  bMinus': DiyFp, w': DiyFp, bPlus': DiyFp, c': DiyFp, mk': int, digits': nat, k': int, ok': bool)
    requires IsPositiveFinite(bits)
    requires IsConversion(bits, bMinus, w, bPlus, c, mk, digits, k, ok)
    requires IsConversion(bits, bMinus', w', bPlus', c', mk', digits', k', ok')
    ensures bMinus == bMinus' && w == w' && bPlus == bPlus' && c == c' && mk == mk'
  {
    NumbersOnce(bits, bMinus, w, bPlus, bMinus', w', bPlus');
    ChosenOnce(w.e, c, mk, c', mk');
  }

  lemma SameOutcome(bits: u64, bMinus: DiyFp, w: DiyFp, bPlus: DiyFp, c: DiyFp, mk: int, digits: nat, k: int, ok: bool,
                    digits': nat, k': int, ok': bool)
    requires IsPositiveFinite(bits)
    requires IsConversion(bits, bMinus, w, bPlus, c, mk, digits, k, ok)
    requires IsConversion(bits, bMinus, w, bPlus, c, mk, digits', k', ok')
    ensures digits == digits' && k == k' && ok == ok'
  {
    OutcomeOnce(Multiply(bMinus, c), Multiply(w, c), Multiply(bPlus, c), digits, k + mk, ok, digits', k' + mk, ok');
  }

  lemma NumbersOnce(bits: u64, bMinus: DiyFp, w: DiyFp, bPlus: DiyFp, bMinus': DiyFp, w': DiyFp, bPlus': DiyFp)
    requires IsPositiveFinite(bits) && AreNumbers(bits, bMinus, w, bPlus) && AreNumbers(bits, bMinus', w', bPlus')
    ensures bMinus == bMinus' && w == w' && bPlus == bPlus'
  {
    NormalizedUnique(Double2DiyFp(bits), w, w');
    NormalizedUnique(UpperBoundary(bits), bPlus, bPlus');
    ValueUnique(bMinus, bMinus');
  }

  lemma ValueUnique(x: DiyFp, y: DiyFp)
    requires x.e == y.e && Value(x) == Value(y)
    ensures x == y
  {
    var p := Exp(2.0, x.e);
    assert (x.f as real - y.f as real) * p == 0.0;
  }
}
