/** Digit generation: the shortest decimal in the interval around a number, and its last digit moved
    towards the number itself. */
module DigitGen {
  import opened Basics
  import opened Words
  import opened Powers
  import opened Products
  import opened DiyFp

  // ---------------------------------------------------------------- digits in a buffer

  ghost predicate IsDigits(s: seq<char>) {
    forall i :: 0 <= i < |s| ==> IsDigit(s[i])
  }

  ghost function DigitsValue(s: seq<char>): nat
    requires IsDigits(s)
  {
    if |s| == 0 then 0 else 10 * DigitsValue(s[..|s| - 1]) + (s[|s| - 1] as int - '0' as int)
  }

  /** The number written with the integer `n` and decimal exponent `k`. */
  ghost function Decimal(n: int, k: int): real {
    Times(n as real, Exp(10.0, k))
  }

  function DigitChar(d: int): (c: char)
    requires 0 <= d <= 9
    ensures '0' <= c <= '9' && c as int == '0' as int + d
  {
    ('0' as int + d) as char
  }

  lemma AppendDigit(s: seq<char>, c: char)
    requires IsDigits(s) && '0' <= c <= '9'
    ensures IsDigits(s + [c])
    ensures DigitsValue(s + [c]) == 10 * DigitsValue(s) + (c as int - '0' as int)
  {
    assert (s + [c])[..|s|] == s;
  }

  lemma LowerLastDigit(before: seq<char>, after: seq<char>, steps: nat)
    requires |before| == |after| > 0 && IsDigits(before)
    requires steps <= before[|before| - 1] as int - '0' as int
    requires after[..|after| - 1] == before[..|before| - 1]
    requires after[|after| - 1] as int == before[|before| - 1] as int - steps
    ensures IsDigits(after) && DigitsValue(after) == DigitsValue(before) - steps
  {
    forall i | 0 <= i < |after|
      ensures '0' <= after[i] <= '9'
    {
      assert i < |after| - 1 ==> after[i] == after[..|after| - 1][i] == before[i];
    }
  }

  method PutDigit(buffer: array<char>, len: nat, digit: int)
    requires len < buffer.Length && IsDigits(buffer[..len]) && 0 <= digit <= 9
    modifies buffer
    ensures buffer[..len] == old(buffer[..len]) && buffer[len + 1..] == old(buffer[len + 1..])
    ensures buffer[len] as int == '0' as int + digit
    ensures IsDigits(buffer[..len + 1])
    ensures DigitsValue(buffer[..len + 1]) == 10 * old(DigitsValue(buffer[..len])) + digit
  {
    ghost var before := buffer[..len];
    buffer[len] := DigitChar(digit);
    assert buffer[..len + 1] == before + [DigitChar(digit)];
    AppendDigit(before, DigitChar(digit));
  }

  // ---------------------------------------------------------------- the first power of ten

  /** Entry i is 10^(i-1); entry 0 is never a power. */
  const POW10_CACHE: seq<u32> := [0, 1, 10, 100, 1000, 1_0000, 10_0000, 100_0000, 1000_0000, 1_0000_0000, 10_0000_0000]

  function Guess(nBits: int): int {
    (nBits + 1) * 1233 / 4096 + 1
  }

  /** The decimal length guessed from a bit length is right or one too large. */
  predicate GuessFits(nBits: int)
    requires 0 <= nBits
  {
    2 <= Guess(nBits) <= 10 && Pow2(nBits) <= Pow10(Guess(nBits)) && Pow10(Guess(nBits) - 2) < Pow2(nBits)
  }

  lemma CacheIsPow10(i: nat)
    requires 1 <= i <= 10
    ensures POW10_CACHE[i] as int == Pow10(i - 1)
  {
    assert Pow10(1) == 10 && Pow10(2) == 100 && Pow10(3) == 1000;
    assert Pow10(4) == 1_0000 && Pow10(5) == 10_0000 && Pow10(6) == 100_0000;
    assert Pow10(7) == 1000_0000 && Pow10(8) == 1_0000_0000 && Pow10(9) == 10_0000_0000;
  }

  lemma SmallPow2()
    ensures Pow2(4) == 0x10 && Pow2(5) == 0x20 && Pow2(6) == 0x40 && Pow2(7) == 0x80 && Pow2(8) == 0x100
    ensures Pow2(9) == 0x200 && Pow2(10) == 0x400 && Pow2(11) == 0x800 && Pow2(12) == 0x1000 && Pow2(13) == 0x2000
    ensures Pow2(14) == 0x4000 && Pow2(15) == 0x8000 && Pow2(16) == 0x10000 && Pow2(17) == 0x20000 &&
            Pow2(18) == 0x40000
    ensures Pow2(19) == 0x80000 && Pow2(20) == 0x100000 && Pow2(21) == 0x200000 && Pow2(22) == 0x400000 &&
            Pow2(23) == 0x800000
    ensures Pow2(24) == 0x1000000 && Pow2(25) == 0x2000000 && Pow2(26) == 0x4000000 && Pow2(27) == 0x8000000 &&
            Pow2(28) == 0x10000000
    ensures Pow2(29) == 0x20000000 && Pow2(30) == 0x40000000 && Pow2(31) == 0x80000000 && Pow2(32) == 0x100000000
  {
  }

  lemma GuessIsClose(nBits: nat)
    requires 4 <= nBits <= 32
    ensures GuessFits(nBits)
  {
    SmallPow2();
    CacheIsPow10(1);
    assert Pow10(10) == 100_0000_0000;
  }

  /** Number of decimal digits to start with, and the weight of the first. */
  function LargestPow10(n: u32, nBits: int): (r: (int, u32))
    requires 4 <= nBits <= 32 && n as int < Pow2(nBits)
    ensures 1 <= r.0 <= 10 && r.1 as int == Pow10(r.0 - 1)
    ensures n as int < Pow10(r.0)
    ensures r.1 as int < Pow2(nBits)
  {
    GuessIsClose(nBits);
    var guess := Guess(nBits);
    var guess' := if n < POW10_CACHE[guess] then guess - 1 else guess;
    CacheIsPow10(guess);
    CacheIsPow10(guess');
    (guess', POW10_CACHE[guess'])
  }

  // ---------------------------------------------------------------- weeding

  /** `rest` is how far the candidate lies below the top of the interval, `ten` the step of its last
      digit.  Moving the last digit down has gone as far as the near end `wUp` of the number's own
      uncertainty allows: the candidate before the last step was no nearer ... */
  ghost predicate NoBetterAbove(rest0: int, rest: int, ten: int, wUp: int) {
    rest == rest0 || (rest - ten < wUp && (rest < wUp || wUp - (rest - ten) >= rest - wUp))
  }

  /** ... and against the far end `wDown`, one more step down would not be nearer, or leaves the interval. */
  ghost predicate NoBetterBelow(rest: int, ten: int, wDown: int, delta: int) {
    rest >= wDown || delta - rest < ten || (rest + ten >= wDown && wDown - rest <= rest + ten - wDown)
  }

  /** Against the near end `wUp`, one more step down would be farther, or leaves the interval. */
  ghost predicate FartherBelow(rest: int, ten: int, wUp: int, delta: int) {
    rest >= wUp || delta - rest < ten || (rest + ten >= wUp && wUp - rest < rest + ten - wUp)
  }

  /** No step of the last digit, up or down, comes nearer to the near end `wUp`. */
  ghost predicate Settled(rest0: int, rest: int, ten: int, wUp: int, delta: int) {
    NoBetterAbove(rest0, rest, ten, wUp) && FartherBelow(rest, ten, wUp, delta)
  }

  /** When `RoundWeed` says yes. */
  ghost predicate Weeded(rest0: int, rest: int, ten: int, wpW: int, ulp: int, delta: int) {
    && 2 * ulp <= rest <= delta - 4 * ulp
    && NoBetterAbove(rest0, rest, ten, wpW - ulp)
    && NoBetterBelow(rest, ten, wpW + ulp, delta)
  }

  /** Lowers the last digit while that brings the candidate nearer to the number.  The digit never
      passes '0': the remainder before it was produced, `digit * tenKappa + rest0`, was at least `delta`. */
  method RoundWeed(buffer: array<char>, len: nat, wpW: u64, delta: u64, rest0: u64, tenKappa: u64, ulp: u64)
    returns (ok: bool, ghost rest: u64, ghost steps: nat)
    requires 0 < len <= buffer.Length && IsDigits(buffer[..len])
    requires tenKappa > 0 && rest0 < delta
    requires 2 * ulp as int <= wpW as int && wpW as int + ulp as int <= delta as int && 4 * ulp as int <= delta as int
    requires (buffer[len - 1] as int - '0' as int) * tenKappa as int + rest0 as int >= delta as int
    modifies buffer
    ensures steps <= old(buffer[len - 1]) as int - '0' as int
    ensures buffer[..] == old(buffer[..])[len - 1 := (old(buffer[len - 1]) as int - steps) as char]
    ensures IsDigits(buffer[..len]) && DigitsValue(buffer[..len]) == old(DigitsValue(buffer[..len])) - steps
    ensures rest as int == rest0 as int + steps * tenKappa as int && rest <= delta
    ensures Settled(rest0 as int, rest as int, tenKappa as int, wpW as int - ulp as int, delta as int)
    ensures ok <==> Weeded(rest0 as int, rest as int, tenKappa as int, wpW as int, ulp as int, delta as int)
  {
    var wUp, wDown := wpW - ulp, wpW + ulp;
    var r := rest0;
    ghost var digit0 := buffer[len - 1] as int - '0' as int;
    ghost var T := tenKappa as int;
    steps := 0;
    while r < wUp && delta - r >= tenKappa && (r + tenKappa < wUp || wUp - r >= r + tenKappa - wUp)
      invariant 0 <= steps <= digit0
      invariant buffer[len - 1] as int == '0' as int + digit0 - steps
      invariant buffer[..] == old(buffer[..])[len - 1 := buffer[len - 1]]
      invariant r as int == rest0 as int + steps * T && r <= delta
      invariant NoBetterAbove(rest0 as int, r as int, T, wUp as int)
      decreases delta - r
    {
      OneMoreStep(steps, digit0, T, rest0 as int, delta as int);
      buffer[len - 1] := (buffer[len - 1] as int - 1) as char;
      r := r + tenKappa;
      steps := steps + 1;
    }
    rest := r;
    LowerLastDigit(old(buffer[..len]), buffer[..len], steps);
    if r < wDown && delta - r >= tenKappa && (r + tenKappa < wDown || wDown - r > r + tenKappa - wDown) {
      return false, rest, steps;
    }
    ok := 2 * ulp <= r && r <= delta - 4 * ulp;
  }

  lemma OneMoreStep(steps: int, digit: int, T: int, rest0: int, delta: int)
    requires T > 0 && delta - (rest0 + steps * T) >= T && digit * T + rest0 >= delta
    ensures steps + 1 <= digit && (steps + 1) * T == steps * T + T
  {
    MulCancelStrict(steps, digit, T);
  }

  /** A candidate that passed is at least as near to the number as its neighbours inside the interval,
      wherever in its uncertainty the number lies.  `d` is the number's distance from the top. */
  lemma WeededIsNearest(rest0: int, rest: int, ten: int, wpW: int, ulp: int, delta: int, d: real)
    requires ten > 0 && ulp >= 0 && Weeded(rest0, rest, ten, wpW, ulp, delta)
    requires (wpW - ulp) as real <= d <= (wpW + ulp) as real
    ensures Distance(rest as real, d) <= Distance((rest + ten) as real, d) || rest + ten > delta
    ensures Distance(rest as real, d) <= Distance((rest - ten) as real, d) || rest == rest0
  {
  }

  function Distance(x: real, y: real): real {
    if x < y then y - x else x - y
  }

  // ---------------------------------------------------------------- generation

  /** All distances are scaled by `Unit`, so that the weight of the last digit is an integer. */
  ghost function Unit(kappa: int): (u: nat)
    ensures u >= 1
  {
    if kappa < 0 then Pow10(-kappa) else 1
  }

  ghost function Weight(kappa: int, e: int): (t: nat)
    requires e <= 0
    ensures t >= 1
  {
    if kappa < 0 then Pow2(-e) else Pow10(kappa) * Pow2(-e)
  }

  /** No multiple of `t` lies above `lo` and up to `hi`. */
  ghost predicate NoMultiple(t: int, lo: int, hi: int) {
    forall n: int :: !(lo < Mul(n, t) <= hi)
  }

  ghost function Mul(n: int, t: int): int {
    n * t
  }

  /** If the greatest multiple up to `hi` does not exceed `lo`, there is none in between. */
  lemma RemainderShutsOut(t: int, q: int, rest: int, lo: int, hi: int)
    requires hi == q * t + rest && 0 <= rest < t && rest >= hi - lo
    ensures NoMultiple(t, lo, hi)
  {
    forall n: int
      ensures !(lo < Mul(n, t) <= hi)
    {
      if n <= q {
        MulMono(n, q, t);
      } else {
        MulMono(q + 1, n, t);
      }
    }
  }

  /** The arguments: a number strictly between its boundaries, in one exponent that fits the shifts. */
  ghost predicate Generable(low: DiyFp, w: DiyFp, high: DiyFp) {
    && low.e == w.e == high.e && -60 <= w.e <= -32
    && 1 <= low.f < w.f < high.f && high.f as int <= TWO_64 - 2
  }

  /** What the digits generated mean.  With `X` their value, scaled: `X` lies in the widened interval, `rest`
      below its top and some steps of the last digit below the first candidate, which was `rest0` below the top;
      nothing with a digit less lies there; and on success `X` lies in the narrowed interval, with the last digit
      settled. */
  ghost predicate Generated(low: DiyFp, w: DiyFp, high: DiyFp, digits: nat, kappa: int, ok: bool,
                            rest0: int, rest: int)
    requires w.e <= 0
  {
    var u, t := Unit(kappa), Weight(kappa, w.e);
    && digits * t == (high.f as int + 1) * u - rest
    && rest0 <= rest <= (high.f as int - low.f as int + 2) * u
    && 0 <= rest0 < t && rest0 < (high.f as int - low.f as int + 2) * u
    && (exists steps: nat :: rest == rest0 + Mul(steps, t))
    && NoMultiple(10 * t, (low.f as int - 1) * u, (high.f as int + 1) * u)
    && Settled(rest0, rest, t, (high.f as int + 1 - w.f as int) * u - u, (high.f as int - low.f as int + 2) * u)
    && (ok <==> Weeded(rest0, rest, t, (high.f as int + 1 - w.f as int) * u, u,
                       (high.f as int - low.f as int + 2) * u))
  }

  ghost predicate IsGenerated(low: DiyFp, w: DiyFp, high: DiyFp, digits: nat, kappa: int, ok: bool)
    requires w.e <= 0
  {
    exists rest0: int, rest: int :: Generated(low, w, high, digits, kappa, ok, rest0, rest)
  }

  lemma Pow2Split(n: nat, s: nat)
    requires n + s == 64
    ensures Pow2(n) * Pow2(s) == TWO_64
  {
    Pow2Add(n, s);
    Pow2At64();
  }

  lemma Pow2Between(s: nat)
    requires 32 <= s <= 60
    ensures 0x1_0000_0000 <= Pow2(s) <= 0x1000_0000_0000_0000
  {
    SmallPow2();
    Pow2Grows(32, s);
    Pow2Grows(s, 60);
    Pow2Add(30, 30);
  }

  lemma OneFits(s: nat, H: int)
    requires 32 <= s <= 60 && 0 <= H < TWO_64
    ensures 0x1_0000_0000 <= Pow2(s) <= 0x1000_0000_0000_0000
    ensures 0 <= H / Pow2(s) < Pow2(64 - s) <= 0x1_0000_0000
  {
    Pow2Between(s);
    SmallPow2();
    Pow2Grows(64 - s, 32);
    Pow2Split(64 - s, s);
    QuotientBelow(H, Pow2(s), Pow2(64 - s));
  }

  lemma QuotientBelow(x: int, y: int, q: int)
    requires 0 <= x < q * y && 0 < y
    ensures 0 <= x / y < q
  {
    assert (x / y) * y <= x;
    MulCancelStrict(x / y, q, y);
  }

  /** One digit of the integer part: divide by the weight of the leading digit. */
  lemma IntegerDigit(H: int, D: nat, kappa: int, p1: int, div: int, one: int, p2: int)
    requires kappa > 0 && div == Pow10(kappa - 1) && 0 <= p1 < Pow10(kappa)
    requires H == (D * Pow10(kappa) + p1) * one + p2
    ensures 0 <= p1 / div <= 9 && 0 <= p1 % div < div
    ensures H == ((10 * D + p1 / div) * Pow10(kappa - 1) + p1 % div) * one + p2
    ensures p1 * one == (p1 / div) * (div * one) + (p1 % div) * one
  {
    var q, r := p1 / div, p1 % div;
    assert p1 == q * div + r;
    MulCancelStrict(q, 10, div);
    MulAssoc(D, 10, div);
    MulAssoc(10, D, div);
    assert (10 * D + q) * div == 10 * (D * div) + q * div;
    assert D * (10 * div) == 10 * (D * div);
    SplitSum(q, div, r, one);
  }

  lemma SplitSum(D: int, t: int, p: int, one: int)
    ensures (D * t + p) * one == D * (t * one) + p * one
    ensures (p + 1) * one == p * one + one
  {
    MulAssoc(D, t, one);
  }

  lemma IntegerNoMultiple(H: int, delta: int, D: nat, kappa: nat, p1: int, one: int, p2: int)
    requires H == (D * Pow10(kappa) + p1) * one + p2
    requires 0 <= p1 < Pow10(kappa) && 0 <= p2 < one && p1 * one + p2 >= delta
    ensures NoMultiple(Pow10(kappa) * one, H - delta, H)
  {
    SplitSum(D, Pow10(kappa), p1, one);
    MulMono(p1 + 1, Pow10(kappa), one);
    RemainderShutsOut(Pow10(kappa) * one, D, p1 * one + p2, H - delta, H);
  }

  lemma RemainderFits(p1: int, one: int, p2: int, H: int, above: int)
    requires H == (above + p1) * one + p2 && 0 <= above && 0 <= p1 && 0 <= p2 < one
    ensures 0 <= p1 * one + p2 <= H
    ensures H == above * one + (p1 * one + p2)
  {
    MulMono(0, above, one);
    MulMono(0, p1, one);
  }

  lemma WeightFits(div: int, nBits: nat, s: nat)
    requires 0 < div < Pow2(nBits) && nBits + s == 64
    ensures 0 < div * Pow2(s) < TWO_64
  {
    Pow2Split(nBits, s);
    SplitSum(0, 0, div, Pow2(s));
    MulMono(div + 1, Pow2(nBits), Pow2(s));
    MulMono(1, div, Pow2(s));
  }

  /** One digit of the fraction: multiply by ten and take the integer part. */
  lemma FractionFits(one: int, p2: int, delta: int, U: int)
    requires 0 <= p2 < one <= 0x1000_0000_0000_0000 && 4 <= delta && 1 <= U && Mul(delta, U) <= p2
    ensures 10 * p2 < TWO_64 && 4 * U <= Mul(delta, U)
    ensures 10 * Mul(delta, U) == Mul(delta, 10 * U) && 10 * Mul(delta, U) < TWO_64
  {
    MulMono(4, delta, U);
    TimesTen(delta, U);
  }

  lemma FractionDigit(H: int, U: int, D: nat, one: int, p2: int)
    requires H * U == D * one + p2 && 0 <= p2 < one
    ensures 0 <= 10 * p2 / one <= 9 && 0 <= 10 * p2 % one < one
    ensures H * (10 * U) == (10 * D + 10 * p2 / one) * one + 10 * p2 % one
    ensures 10 * p2 == (10 * p2 / one) * one + 10 * p2 % one
  {
    var q, r := 10 * p2 / one, 10 * p2 % one;
    assert 10 * p2 == q * one + r;
    MulCancelStrict(q, 10, one);
    assert (10 * D + q) * one == 10 * (D * one) + q * one;
    assert H * (10 * U) == 10 * (H * U);
  }

  lemma FractionNoMultiple(H: int, U: int, delta: int, D: nat, one: int, p2: int)
    requires H * U == D * one + p2 && delta * U <= p2 < one && 0 <= p2
    ensures NoMultiple(10 * one, (H - delta) * (10 * U), H * (10 * U))
  {
    assert H * (10 * U) == 10 * (H * U) == D * (10 * one) + 10 * p2;
    assert (H - delta) * (10 * U) == 10 * (H * U) - 10 * (delta * U);
    RemainderShutsOut(10 * one, D, 10 * p2, (H - delta) * (10 * U), H * (10 * U));
  }

  /** At most 19 digits before another fraction digit is needed. */
  lemma LengthBound(k: int, kappa: int, nBits: nat, s: nat, U: int, delta: int, p2: int)
    requires 1 <= k && kappa <= 0 && Pow10(k - 1) < Pow2(nBits) && nBits + s == 64
    requires U == Pow10(-kappa) && 4 <= delta && Mul(delta, U) <= p2 < Pow2(s)
    ensures k - kappa <= 19
  {
    Pow10Add(k - 1, -kappa);
    Pow2Split(nBits, s);
    MulMono(4, delta, U);
    MulMonoBoth(Pow10(k - 1), Pow2(nBits), 4 * U, Pow2(s));
    FourTimes(Pow10(k - 1), U);
    if k - kappa > 19 {
      Pow10Grows(19, k - 1 - kappa);
      Pow10At19();
    }
  }

  lemma FourTimes(a: int, b: int)
    ensures a * (4 * b) == 4 * (a * b)
  {
  }

  lemma Pow10At19()
    ensures Pow10(19) == 1000_0000_0000_0000_0000
  {
    assert Pow10(5) == 10_0000 && Pow10(4) == 1_0000;
    Pow10Add(5, 5);
    Pow10Add(5, 4);
    Pow10Add(10, 9);
  }

  /** The scaled distances handed to `RoundWeed` meet its requirements. */
  lemma FractionWeedable(low: int, w: int, high: int, U: int)
    requires low < w < high && U >= 1
    ensures 2 * U <= (high + 1 - w) * U && (high + 1 - w) * U + U <= (high - low + 2) * U
    ensures 4 * U <= (high - low + 2) * U
  {
    MulMono(2, high + 1 - w, U);
    MulMono(high + 2 - w, high - low + 2, U);
    MulMono(4, high - low + 2, U);
  }

  lemma WeedKeepsSum(D: int, steps: int, T: int, r: int, S: int)
    requires S == D * T + r
    ensures (D - steps) * T == S - (r + steps * T)
  {
  }

  /** The integer part while digits come out of it: `digits` taken, `p1` of weight `one` to go. */
  ghost predicate IntegerPart(H: int, delta: int, one: int, p2: int, digits: nat, kappa: nat, p1: int) {
    && 0 <= p1 < Pow10(kappa)
    && 0 <= p2 < one
    && H == (digits * Pow10(kappa) + p1) * one + p2
    && p1 * one + p2 >= delta
  }

  lemma IntegerPartStart(H: int, delta: int, one: int, kappa: nat, p1: int, p2: int)
    requires 0 < one && 0 <= delta <= H && p1 == H / one && p2 == H % one && 0 <= p1 < Pow10(kappa)
    ensures IntegerPart(H, delta, one, p2, 0, kappa, p1)
  {
    assert H == p1 * one + p2;
    SplitSum(0, Pow10(kappa), p1, one);
  }

  lemma IntegerStep(H: int, delta: int, one: int, p2: int, digits: nat, kappa: nat, p1: int, div: int,
                    digit: int, p1': int, digits': int)
    requires kappa > 0 && div == Pow10(kappa - 1)
    requires IntegerPart(H, delta, one, p2, digits, kappa, p1)
    requires digit == p1 / div && p1' == p1 % div && digits' == 10 * digits + digit
    ensures 0 <= digit <= 9 && 0 <= p1' < div
    ensures 0 <= p1' * one <= p1' * one + p2 <= H
    ensures H == (digits' * div + p1') * one + p2
  {
    IntegerDigit(H, digits, kappa, p1, div, one, p2);
    MulMono(0, digits', div);
    MulMono(0, p1', one);
    RemainderFits(p1', one, p2, H, digits' * div);
  }

  /** The same for the fraction, with everything scaled by `U`. */
  ghost predicate FractionPart(H: int, delta: int, one: int, U: int, digits: nat, p2: int) {
    && 1 <= U
    && 0 <= p2 < one
    && Mul(H, U) == Mul(digits, one) + p2
    && p2 >= Mul(delta, U)
  }

  lemma TimesTen(a: int, b: int)
    ensures a * (10 * b) == 10 * (a * b)
  {
  }

  /** One more digit has brought the remainder `r` below the interval's width: all the weeding needs,
      with everything scaled by `u`. */
  ghost predicate ReadyToWeed(low: DiyFp, w: DiyFp, high: DiyFp, digits: nat, digit: int, kappa: int, r: int, t: int,
                              u: int, wpW: int, delta: int)
  {
    && Generable(low, w, high)
    && t == Weight(kappa, w.e) && u == Unit(kappa)
    && 0 <= r < t && 0 <= digit <= digits
    && Mul(high.f as int + 1, u) == Mul(digits, t) + r
    && wpW == Mul(high.f as int + 1 - w.f as int, u)
    && delta == Mul(high.f as int - low.f as int + 2, u)
    && 2 * u <= wpW && wpW + u <= delta && 4 * u <= delta
    && Mul(digit, t) + r >= delta
    && NoMultiple(10 * t, Mul(low.f as int - 1, u), Mul(high.f as int + 1, u))
  }

  lemma IntegerReady(low: DiyFp, w: DiyFp, high: DiyFp, one: int, p2: int, digits: nat, kappa: nat, p1: int, div: int,
                     digit: int, p1': int, digits': nat, r: int, ten: int, wpW: int, delta: int)
    requires Generable(low, w, high) && one == Pow2(-w.e)
    requires wpW == high.f as int + 1 - w.f as int && delta == high.f as int - low.f as int + 2
    requires kappa > 0 && div == Pow10(kappa - 1)
    requires IntegerPart(high.f as int + 1, delta, one, p2, digits, kappa, p1)
    requires digit == p1 / div && p1' == p1 % div && digits' == 10 * digits + digit
    requires r == p1' * one + p2 && ten == div * one
    ensures ReadyToWeed(low, w, high, digits', digit, kappa - 1, r, ten, 1, wpW, delta)
  {
    var H := high.f as int + 1;
    IntegerDigit(H, digits, kappa, p1, div, one, p2);
    IntegerNoMultiple(H, delta, digits, kappa, p1, one, p2);
    MulAssoc(10, div, one);
    SplitSum(digits', div, p1', one);
    MulMono(0, p1', one);
    MulMono(p1' + 1, div, one);
    SplitSum(0, 0, p1', one);
    MulMono(1, div, one);
  }

  /** One more fraction digit. */
  ghost predicate FractionStep(one: int, U: int, digits: nat, p2: int, digit: int, p2': int, digits': int, U': int)
    requires one != 0
  {
    && digit == 10 * p2 / one && p2' == 10 * p2 % one
    && digits' == 10 * digits + digit
    && U' == 10 * U
  }

  lemma FractionNext(H: int, delta: int, one: int, U: int, digits: nat, p2: int,
                     digit: int, p2': int, digits': int, U': int)
    requires FractionPart(H, delta, one, U, digits, p2)
    requires 0 < one && FractionStep(one, U, digits, p2, digit, p2', digits', U')
    ensures 0 <= digit <= 9 && 0 <= p2' < one
    ensures Mul(H, U') == Mul(digits', one) + p2'
    ensures 10 * Mul(delta, U) == Mul(delta, U')
    ensures Mul(digit, one) + p2' >= Mul(delta, U')
    ensures NoMultiple(10 * one, Mul(H - delta, U'), Mul(H, U'))
  {
    FractionDigit(H, U, digits, one, p2);
    FractionNoMultiple(H, U, delta, digits, one, p2);
    TimesTen(delta, U);
  }

  lemma FractionReady(low: DiyFp, w: DiyFp, high: DiyFp, one: int, U: int, digits: nat, kappa: int, p2: int,
                      digit: int, p2': int, digits': nat, U': int, wpW: int, delta: int)
    requires Generable(low, w, high) && one == Pow2(-w.e) && kappa <= 0 && U == Unit(kappa)
    requires FractionPart(high.f as int + 1, high.f as int - low.f as int + 2, one, U, digits, p2)
    requires 0 < one && FractionStep(one, U, digits, p2, digit, p2', digits', U')
    requires wpW == Mul(high.f as int + 1 - w.f as int, U') && delta == Mul(high.f as int - low.f as int + 2, U')
    ensures ReadyToWeed(low, w, high, digits', digit, kappa - 1, p2', one, U', wpW, delta)
  {
    var H, D := high.f as int + 1, high.f as int - low.f as int + 2;
    FractionNext(H, D, one, U, digits, p2, digit, p2', digits', U');
    FractionWeedable(low.f as int, w.f as int, high.f as int, U');
    assert H - D == low.f as int - 1;
  }

  /** Weeds the digits generated so far. */
  method WeedDigits(low: DiyFp, w: DiyFp, high: DiyFp, buffer: array<char>, length: nat, kappa: int, wpW: u64,
                    delta: u64, r: u64, ten: u64, unit: u64, ghost digits: nat, ghost digit: int)
    returns (ok: bool)
    requires 0 < length <= buffer.Length && IsDigits(buffer[..length]) && digits == DigitsValue(buffer[..length])
    requires buffer[length - 1] as int == '0' as int + digit
    requires ReadyToWeed(low, w, high, digits, digit, kappa, r as int, ten as int, unit as int, wpW as int,
                         delta as int)
    requires r < delta
    modifies buffer
    ensures IsDigits(buffer[..length])
    ensures IsGenerated(low, w, high, DigitsValue(buffer[..length]), kappa, ok)
  {
    ghost var steps: nat, rest: u64;
    ok, rest, steps := RoundWeed(buffer, length, wpW, delta, r, ten, unit);
    WeedKeepsSum(digits, steps, ten as int, r as int, (high.f as int + 1) * unit as int);
    MulMono(0, steps, ten as int);
    assert rest as int == r as int + Mul(steps, ten as int);
    assert Generated(low, w, high, DigitsValue(buffer[..length]), kappa, ok, r as int, rest as int);
  }

  /** Divides off the leading digit of the integer part and stores it. */
  method TakeIntegerDigit(buffer: array<char>, length: nat, one: u64, p2: u64, p1: u32, div: u32,
                          ghost low: DiyFp, ghost w: DiyFp, ghost high: DiyFp, ghost H: int, ghost delta: int,
                          ghost wpW: int, ghost digits: nat, kappa: nat)
    returns (digit: u32, p1': u32, r: u64, tenKappa: u64, kappa': nat, ghost digits': nat)
    requires Generable(low, w, high) && one as int == Pow2(-w.e)
    requires H == high.f as int + 1 && wpW == H - w.f as int && delta == high.f as int - low.f as int + 2
    requires kappa > 0 && div as int == Pow10(kappa - 1) < Pow2(64 + w.e)
    requires length < buffer.Length && IsDigits(buffer[..length]) && DigitsValue(buffer[..length]) == digits
    requires IntegerPart(H, delta, one as int, p2 as int, digits, kappa, p1 as int)
    modifies buffer
    ensures kappa' == kappa - 1 && digits' == 10 * digits + digit as int
    ensures ReadyToWeed(low, w, high, digits', digit as int, kappa', r as int, tenKappa as int, 1, wpW, delta)
    ensures r as int >= delta ==> IntegerPart(H, delta, one as int, p2 as int, digits', kappa', p1' as int)
    ensures buffer[length] as int == '0' as int + digit as int
    ensures IsDigits(buffer[..length + 1]) && DigitsValue(buffer[..length + 1]) == digits'
  {
    DivBounds(p1 as int, div as int);
    digit := p1 / div;
    p1' := p1 % div;
    kappa', digits' := kappa - 1, 10 * digits + digit as int;
    IntegerStep(H, delta, one as int, p2 as int, digits, kappa, p1 as int, div as int, digit as int, p1' as int,
                digits');
    PutDigit(buffer, length, digit as int);
    WeightFits(div as int, 64 + w.e, -w.e);
    r, tenKappa := p1' as u64 * one + p2, div as u64 * one;
    IntegerReady(low, w, high, one as int, p2 as int, digits, kappa, p1 as int, div as int, digit as int, p1' as int,
                 digits', r as int, tenKappa as int, wpW, delta);
  }

  /** Moves the next digit of the fraction before the point and stores it; everything else is scaled along. */
  method TakeFractionDigit(buffer: array<char>, length: nat, one: u64, p2: u64, wpW: u64, unit: u64,
                           unsafeInterval: u64,
                           ghost low: DiyFp, ghost w: DiyFp, ghost high: DiyFp, ghost H: int, ghost delta: int,
                           ghost digits: nat, ghost kappa: int)
    returns (digit: u64, p2': u64, scaled: u64, unit': u64, unsafe': u64)
    requires Generable(low, w, high) && one as int == Pow2(-w.e)
    requires H == high.f as int + 1 && wpW as int == H - w.f as int && delta == high.f as int - low.f as int + 2
    requires kappa <= 0 && unit as int == Unit(kappa) && unsafeInterval as int == Mul(delta, unit as int)
    requires length < buffer.Length && IsDigits(buffer[..length]) && DigitsValue(buffer[..length]) == digits
    requires FractionPart(H, delta, one as int, unit as int, digits, p2 as int)
    modifies buffer
    ensures digit <= 9 && p2' < one && unit' as int == Unit(kappa - 1) && unsafe' as int == Mul(delta, unit' as int)
    ensures unsafeInterval < unsafe'
    ensures ReadyToWeed(low, w, high, 10 * digits + digit as int, digit as int, kappa - 1, p2' as int, one as int,
                        unit' as int, scaled as int, unsafe' as int)
    ensures p2' >= unsafe' ==> FractionPart(H, delta, one as int, unit' as int, 10 * digits + digit as int, p2' as int)
    ensures buffer[length] as int == '0' as int + digit as int
    ensures IsDigits(buffer[..length + 1]) && DigitsValue(buffer[..length + 1]) == 10 * digits + digit as int
  {
    OneFits(-w.e, 0);
    FractionFits(one as int, p2 as int, delta, unit as int);
    p2' := p2 * 10;
    unit' := unit * 10;
    unsafe' := unsafeInterval * 10;
    DivBounds(p2' as int, one as int);
    digit := p2' / one;
    p2' := p2' % one;
    FractionWeedable(low.f as int, w.f as int, high.f as int, unit' as int);
    scaled := wpW * unit';
    FractionNext(H, delta, one as int, unit as int, digits, p2 as int, digit as int, p2' as int,
                 10 * digits + digit as int, unit' as int);
    FractionReady(low, w, high, one as int, unit as int, digits, kappa, p2 as int, digit as int, p2' as int,
                  10 * digits + digit as int, unit' as int, scaled as int, unsafe' as int);
    PutDigit(buffer, length, digit as int);
  }

  /** The interval widened by the error of its ends, and its top split at the point. */
  method Prepare(low: DiyFp, w: DiyFp, high: DiyFp, unit: u64)
    returns (unsafeInterval: u64, wpW: u64, one: u64, p1: u32, p2: u64, kappa: nat, div: u32)
    requires Generable(low, w, high) && unit == 1
    ensures unsafeInterval as int == high.f as int - low.f as int + 2 && wpW as int == high.f as int + 1 - w.f as int
    ensures one as int == Pow2(-w.e)
    ensures 1 <= kappa <= 10 && div as int == Pow10(kappa - 1) < Pow2(64 + w.e)
    ensures IntegerPart(high.f as int + 1, unsafeInterval as int, one as int, p2 as int, 0, kappa, p1 as int)
  {
    var tooLow, tooHigh := DiyFp(low.f - unit, low.e), DiyFp(high.f + unit, high.e);
    unsafeInterval := Minus(tooHigh, tooLow).f;
    wpW := Minus(tooHigh, w).f;
    OneFits(-w.e, tooHigh.f as int);
    one := Pow2(-w.e) as u64;
    p1 := (tooHigh.f / one) as u32;
    p2 := tooHigh.f % one;
    var (k, d) := LargestPow10(p1, 64 + w.e);
    kappa, div := k, d;
    IntegerPartStart(tooHigh.f as int, unsafeInterval as int, one as int, k, p1 as int, p2 as int);
  }

  method Generate(low: DiyFp, w: DiyFp, high: DiyFp, buffer: array<char>)
    returns (ok: bool, length: nat, kappa: int)
    requires Generable(low, w, high)
    requires buffer.Length >= 20
    modifies buffer
    ensures 1 <= length <= 20 && IsDigits(buffer[..length]) && -20 <= kappa <= 10
    ensures IsGenerated(low, w, high, DigitsValue(buffer[..length]), kappa, ok)
  {
    var unsafeInterval, wpW, one, p1, p2, k, div := Prepare(low, w, high, 1);
    var stopped;
    stopped, ok, length, kappa := GenerateInteger(low, w, high, buffer, wpW, unsafeInterval, one, p1, p2, k, div);
    if !stopped {
      ok, length, kappa := GenerateFraction(low, w, high, buffer, length, wpW, unsafeInterval, one, p2);
    }
  }

  /** The first loop of digit generation; it may end with the digits before the point. */
  method GenerateInteger(low: DiyFp, w: DiyFp, high: DiyFp, buffer: array<char>, wpW: u64, unsafeInterval: u64,
                         one: u64, p10: u32, p2: u64, k: nat, div0: u32)
    returns (stopped: bool, ok: bool, length: nat, kappa: int)
    requires Generable(low, w, high) && one as int == Pow2(-w.e) && buffer.Length >= 20
    requires wpW as int == high.f as int + 1 - w.f as int && unsafeInterval as int == high.f as int - low.f as int + 2
    requires 1 <= k <= 10 && div0 as int == Pow10(k - 1) < Pow2(64 + w.e)
    requires IntegerPart(high.f as int + 1, unsafeInterval as int, one as int, p2 as int, 0, k, p10 as int)
    modifies buffer
    ensures 1 <= length <= k && IsDigits(buffer[..length]) && 0 <= kappa <= 10
    ensures stopped ==> IsGenerated(low, w, high, DigitsValue(buffer[..length]), kappa, ok)
    ensures !stopped ==> Pow10(length - 1) < Pow2(64 + w.e) &&
                         FractionPart(high.f as int + 1, unsafeInterval as int, one as int, 1,
                                      DigitsValue(buffer[..length]), p2 as int)
  {
    var p1, div := p10, div0;
    kappa := k;
    length := 0;
    ghost var delta, H, digits := unsafeInterval as int, high.f as int + 1, 0;
    while kappa > 0
      invariant 0 <= kappa <= k && length == k - kappa
      invariant kappa > 0 ==> div as int == Pow10(kappa - 1) < Pow2(64 + w.e)
      invariant IsDigits(buffer[..length]) && DigitsValue(buffer[..length]) == digits
      invariant IntegerPart(H, delta, one as int, p2 as int, digits, kappa, p1 as int)
    {
      var digit, r, tenKappa;
      digit, p1, r, tenKappa, kappa, digits :=
        TakeIntegerDigit(buffer, length, one, p2, p1, div, low, w, high, H, delta, wpW as int, digits, kappa);
      length := length + 1;
      if r < unsafeInterval {
        ok := WeedDigits(low, w, high, buffer, length, kappa, wpW, unsafeInterval, r, tenKappa, 1, digits,
                         digit as int);
        return true, ok, length, kappa;
      }
      NextDivisor(kappa, div as int);
      div := div / 10;
    }
    IntegerPartDone(H, delta, one as int, p2 as int, digits, p1 as int);
    return false, false, length, kappa;
  }

  /** The second loop of digit generation, for the digits after the point. */
  method GenerateFraction(low: DiyFp, w: DiyFp, high: DiyFp, buffer: array<char>, length0: nat, wpW: u64, delta: u64,
                          one: u64, p20: u64)
    returns (ok: bool, length: nat, kappa: int)
    requires Generable(low, w, high) && one as int == Pow2(-w.e)
    requires wpW as int == high.f as int + 1 - w.f as int && delta as int == high.f as int - low.f as int + 2
    requires buffer.Length >= 20 && 1 <= length0 <= 10 && Pow10(length0 - 1) < Pow2(64 + w.e)
    requires IsDigits(buffer[..length0])
    requires FractionPart(high.f as int + 1, delta as int, one as int, 1, DigitsValue(buffer[..length0]), p20 as int)
    modifies buffer
    ensures 1 <= length <= 20 && IsDigits(buffer[..length]) && -20 <= kappa <= 10
    ensures IsGenerated(low, w, high, DigitsValue(buffer[..length]), kappa, ok)
  {
    length, kappa := length0, 0;
    var unit, unsafeInterval, p2 := 1 as u64, delta, p20;
    ghost var H, delta0, digits := high.f as int + 1, delta as int, DigitsValue(buffer[..length0]);
    OneFits(-w.e, 0);
    while true
      invariant kappa <= 0 && unit as int == Unit(kappa) && length == length0 - kappa <= 19
      invariant unsafeInterval as int == Mul(delta0, unit as int)
      invariant IsDigits(buffer[..length]) && DigitsValue(buffer[..length]) == digits
      invariant FractionPart(H, delta0, one as int, unit as int, digits, p2 as int)
      decreases one - unsafeInterval
    {
      var digit, scaled;
      digit, p2, scaled, unit, unsafeInterval :=
        TakeFractionDigit(buffer, length, one, p2, wpW, unit, unsafeInterval, low, w, high, H, delta0, digits, kappa);
      digits := 10 * digits + digit as int;
      length := length + 1;
      kappa := kappa - 1;
      if p2 < unsafeInterval {
        ok := WeedDigits(low, w, high, buffer, length, kappa, scaled, unsafeInterval, p2, one, unit, digits,
                         digit as int);
        return;
      }
      FractionLengthBound(length0, kappa, w.e, one as int, unit as int, H, delta0, digits, p2 as int);
    }
  }

  lemma FractionLengthBound(length0: nat, kappa: int, e: int, one: int, unit: int, H: int, delta: int, digits: nat,
                            p2: int)
    requires length0 >= 1 && kappa <= 0 && -60 <= e <= -32 && Pow10(length0 - 1) < Pow2(64 + e) && one == Pow2(-e)
    requires unit == Unit(kappa) && delta >= 4 && FractionPart(H, delta, one, unit, digits, p2)
    ensures length0 - kappa <= 19
  {
    LengthBound(length0, kappa, 64 + e, -e, unit, delta, p2);
  }

  lemma NextDivisor(kappa: nat, div: int)
    requires div == Pow10(kappa)
    ensures 0 <= div / 10 <= div && (kappa > 0 ==> div / 10 == Pow10(kappa - 1))
  {
  }

  lemma DivBounds(x: int, y: int)
    requires 0 <= x && 0 < y
    ensures 0 <= x / y <= x && 0 <= x % y < y
  {
    if x / y > x {
      MulMono(x + 1, x / y, y);
      MulMono(1, y, x + 1);
    }
  }

  lemma IntegerPartDone(H: int, delta: int, one: int, p2: int, digits: nat, p1: int)
    requires IntegerPart(H, delta, one, p2, digits, 0, p1)
    ensures FractionPart(H, delta, one, 1, digits, p2)
  {
    assert Pow10(0) == 1;
    assert p1 == 0;
  }
}
