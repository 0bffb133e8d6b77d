/** Why the table of cached powers is right: each entry is compared with 96 bits of its power, and these follow
    from the 96 bits of the neighbouring entries, starting from 10^4. */
module PowerAccuracy {
  import opened Words
  import opened Powers
  import opened DiyFp
  import opened CachedPowers

  /** The power of ten that an entry is for, in units of its last place divided by 2^32. */
  ghost function Exact(p: Power): real {
    Times(Exp(10.0, p.dExp), Exp(2.0, 32 - p.bExp))
  }

  /** The same for each entry, to the nearest integer. */
  function Wide(i: nat): int
    requires i < POW_CACHE_SIZE
  {
    match i
    case 0 => 0xfa8fd5a0081c02881732c86a
    case 1 => 0xbaaee17fa23ebf765d79bcf0
    case 2 => 0x8b16fb203055ac764c3bcb50
    case 3 => 0xcf42894a5dce35ea52064cad
    case 4 => 0x9a6bb0aa55653b2d47b233c9
    case 5 => 0xe61acf033d1a45df6fb92487
    case 6 => 0xab70fe17c79ac6ca6dbd630a
    case 7 => 0xff77b1fcbebcdc4f25e8e89c
    case 8 => 0xbe5691ef416bd60c23cc986c
    case 9 => 0x8dd01fad907ffc3bae3da7d9
    case 10 => 0xd3515c2831559a830d5a5b45
    case 11 => 0x9d71ac8fada6c9b56f773fc3
    case 12 => 0xea9c227723ee8bcb465e15a9
    case 13 => 0xaecc49914078536d58fae9f7
    case 14 => 0x823c12795db6ce5776c53d09
    case 15 => 0xc21094364dfb5636985915fc
    case 16 => 0x9096ea6f3848984f3ff0d2c8
    case 17 => 0xd77485cb25823ac77d633293
    case 18 => 0xa086cfcd97bf97f380e8a40f
    case 19 => 0xef340a98172aace486fb8971
    case 20 => 0xb23867fb2a35b28de99e619a
    case 21 => 0x84c8d4dfd2c63f3b29ecd9f4
    case 22 => 0xc5dd44271ad3cdba40eff1e2
    case 23 => 0x936b9fcebb25c995cab10dd9
    case 24 => 0xdbac6c247d62a583df45f747
    case 25 => 0xa3ab66580d5fdaf5c13e60d1
    case 26 => 0xf3e2f893dec3f1265a89dba4
    case 27 => 0xb5b5ada8aaff80b80d819992
    case 28 => 0x87625f056c7c4a8b11471cd7
    case 29 => 0xc9bcff6034c13052fc89b394
    case 30 => 0x964e858c91ba26553a6a07f9
    case 31 => 0xdff9772470297ebd59787e2c
    case 32 => 0xa6dfbd9fb8e5b88ecb4ccd50
    case 33 => 0xf8a95fcf88747d9475a44c64
    case 34 => 0xb94470938fa89bcef808e40f
    case 35 => 0x8a08f0f8bf0f156b1b8e9ecb
    case 36 => 0xcdb02555653131b63792f413
    case 37 => 0x993fe2c6d07b7fabe546a804
    case 38 => 0xe45c10c42a2b3b058cb89a7e
    case 39 => 0xaa242499697392d2dde50bd2
    case 40 => 0xfd87b5f28300ca0d8bca9d6e
    case 41 => 0xbce5086492111aea88f4bb1d
    case 42 => 0x8cbccc096f5088cbf93f87b7
    case 43 => 0xd1b71758e219652bd3c36113
    case 44 => 0x9c4000000000000000000000
    case 45 => 0xe8d4a5100000000000000000
    case 46 => 0xad78ebc5ac62000000000000
    case 47 => 0x813f3978f894098440000000
    case 48 => 0xc097ce7bc90715b34b9f1000
    case 49 => 0x8f7e32ce7bea5c6fe4820024
    case 50 => 0xd5d238a4abe9806872a49046
    case 51 => 0x9f4f2726179a224501d76242
    case 52 => 0xed63a231d4c4fb274ca7aaa8
    case 53 => 0xb0de65388cc8ada83b25a55f
    case 54 => 0x83c7088e1aab65db792667c7
    case 55 => 0xc45d1df942711d9a3ba5d0bd
    case 56 => 0x924d692ca61be758593c2626
    case 57 => 0xda01ee641a708de9e80e6f48
    case 58 => 0xa26da3999aef7749e3be5e33
    case 59 => 0xf209787bb47d6b84c0678c5e
    case 60 => 0xb454e4a179dd187729babe46
    case 61 => 0x865b86925b9bc5c20b8a2393
    case 62 => 0xc83553c5c8965d3d6f928295
    case 63 => 0x952ab45cfa97a0b2dd945a74
    case 64 => 0xde469fbd99a05fe36fca5f8f
    case 65 => 0xa59bc234db398c2543fab983
    case 66 => 0xf6c69a72a3989f5b8aad549e
    case 67 => 0xb7dcbf5354e9bece0c11ed6d
    case 68 => 0x88fcf317f22241e2441fece4
    case 69 => 0xcc20ce9bd35c78a531ec038e
    case 70 => 0x98165af37b2153dec3727a33
    case 71 => 0xe2a0b5dc971f303a2e44ae65
    case 72 => 0xa8d9d1535ce3b3967f1839a7
    case 73 => 0xfb9b7cd9a4a7443c169840ef
    case 74 => 0xbb764c4ca7a4440f9d6d1ad4
    case 75 => 0x8bab8eefb6409c1a1ad089b7
    case 76 => 0xd01fef10a657842c2d2b756a
    case 77 => 0x9b10a4e5e9913128ca7cf2b4
    case 78 => 0xe7109bfba19c0c9d0cc51267
    case 79 => 0xac2820d9623bf429546345fb
    case 80 => 0x80444b5e7aa7cf857980d164
    case 81 => 0xbf21e44003acdd2ce0470a64
    case 82 => 0x8e679c2f5e44ff8f570f09eb
    case 83 => 0xd433179d9c8cb8415fa60693
    case 84 => 0x9e19db92b4e31ba96c07a2c2
    case 85 => 0xeb96bf6ebadf77d8e41c5bd2
    case _ => 0xaf87023b9bf0ee6aeb8fad7c
  }

  // ---------------------------------------------------------------- the numbers

  /** 96 bits, of which the entry has the first 64, rounded. */
  predicate IsNear(p: Power, w: int) {
    && 0x8000_0000_0000_0000_0000_0000 <= w < 0x1_0000_0000_0000_0000_0000_0000
    && -0x7FFF_0000 <= w - p.fract as int * 0x1_0000_0000 <= 0x7FFF_0000
  }

  lemma EntriesAreNear(i: nat)
    requires i < POW_CACHE_SIZE
    ensures IsNear(PowCache(i), Wide(i))
  {
  }

  /** Two to the difference of two binary exponents. */
  function Growth(p: Power, q: Power): int {
    if q.bExp == p.bExp + 26 then 0x400_0000 else 0x800_0000
  }

  predicate IsNext(p: Power, q: Power) {
    q.dExp == p.dExp + 8 && p.bExp + 26 <= q.bExp <= p.bExp + 27
  }

  /** From an entry to the next the power grows by 10^8, up to what rounding has done to either. */
  predicate Grows(p: Power, w: int, q: Power, w': int) {
    && IsNext(p, q)
    && var next := if q.bExp == p.bExp + 26 then w' else 2 * w';
       -0x780_0000 <= w * 100_000_000 - next * 0x400_0000 <= 0x780_0000
  }

  lemma NextsFit(i: nat)
    requires i + 1 < POW_CACHE_SIZE
    ensures Grows(PowCache(i), Wide(i), PowCache(i + 1), Wide(i + 1))
  {
    if i < 18 {
      FirstFit(i);
    } else if i < 33 {
      SecondFit(i);
    } else if i < 46 {
      ThirdFit(i);
    } else if i < 57 {
      FourthFit(i);
    } else if i < 66 {
      FifthFit(i);
    } else if i < 74 {
      SixthFit(i);
    } else if i < 81 {
      SeventhFit(i);
    } else {
      LastFit(i);
    }
  }

  lemma FirstFit(i: nat)
    requires i < 18
    ensures Grows(PowCache(i), Wide(i), PowCache(i + 1), Wide(i + 1))
  {
  }

  lemma SecondFit(i: nat)
    requires 18 <= i < 33
    ensures Grows(PowCache(i), Wide(i), PowCache(i + 1), Wide(i + 1))
  {
  }

  lemma ThirdFit(i: nat)
    requires 33 <= i < 46
    ensures Grows(PowCache(i), Wide(i), PowCache(i + 1), Wide(i + 1))
  {
  }

  lemma FourthFit(i: nat)
    requires 46 <= i < 57
    ensures Grows(PowCache(i), Wide(i), PowCache(i + 1), Wide(i + 1))
  {
  }

  lemma FifthFit(i: nat)
    requires 57 <= i < 66
    ensures Grows(PowCache(i), Wide(i), PowCache(i + 1), Wide(i + 1))
  {
  }

  lemma SixthFit(i: nat)
    requires 66 <= i < 74
    ensures Grows(PowCache(i), Wide(i), PowCache(i + 1), Wide(i + 1))
  {
  }

  lemma SeventhFit(i: nat)
    requires 74 <= i < 81
    ensures Grows(PowCache(i), Wide(i), PowCache(i + 1), Wide(i + 1))
  {
  }

  lemma LastFit(i: nat)
    requires 81 <= i < 86
    ensures Grows(PowCache(i), Wide(i), PowCache(i + 1), Wide(i + 1))
  {
  }

  // ---------------------------------------------------------------- one step

  lemma PowersOfStep(s: int)
    requires 26 <= s <= 27
    ensures Exp(10.0, 8) == 100_000_000.0
    ensures Exp(2.0, s) == (if s == 26 then 0x400_0000 else 0x800_0000) as real
  {
    ExpIsPow10(8);
    assert Pow10(8) == 100_000_000;
    ExpIsPow2(s);
    TwoToThe26();
  }

  lemma TwoToThe26()
    ensures Pow2(26) == 0x400_0000 && Pow2(27) == 0x800_0000
  {
    assert Pow2(13) == 8192;
    Pow2Add(13, 13);
  }

  lemma Rearrange(p: real, t: real, s: real)
    ensures Times(Times(p, 100_000_000.0), t) * s == Times(p, Times(t, s)) * 100_000_000.0
  {
    assert p * 100_000_000.0 * t * s == p * (t * s) * 100_000_000.0;
  }

  lemma NextExact(p: Power, q: Power)
    requires IsNext(p, q)
    ensures Exact(q) * Growth(p, q) as real == Exact(p) * 100_000_000.0
  {
    ScaledStep(p.dExp, 32 - p.bExp, q.bExp - p.bExp);
  }

  lemma ScaledStep(k: int, e: int, s: int)
    requires 26 <= s <= 27
    ensures Times(Exp(10.0, k + 8), Exp(2.0, e - s)) * (if s == 26 then 0x400_0000 else 0x800_0000) as real ==
            Times(Exp(10.0, k), Exp(2.0, e)) * 100_000_000.0
  {
    PowersOfStep(s);
    ExpAdd(10.0, k, 8);
    ExpAdd(2.0, e - s, s);
    Rearrange(Exp(10.0, k), Exp(2.0, e - s), Exp(2.0, s));
  }

  /** Times 2^94. */
  function Enlarged(x: real): real {
    x * 19807040628566084398385987584.0
  }

  /** How far the 96 bits may be from the power, `steps` away from where they are exact. */
  ghost predicate IsClose(exact: real, wide: int, steps: nat) {
    -(steps as real * exact) <= Enlarged(exact - wide as real) <= steps as real * exact
  }

  /** Whichever way a step is taken, the relative error grows by less than one part in 2^94. */
  lemma StepIsClose(x: real, w: int, a: real, x': real, w': int, a': real, n: nat)
    requires x * a == x' * a' && -125829120.0 <= w as real * a - w' as real * a' <= 125829120.0
    requires a >= 67108864.0 && a' > 0.0 && n <= 44 && x >= 0.0
    requires w >= 0x8000_0000_0000_0000_0000_0000 && IsClose(x, w, n)
    ensures IsClose(x', w', n + 1)
  {
    var xa, wa, wa', m, d, d' := x * a, w as real * a, w' as real * a', n as real, x - w as real, x' - w' as real;
    Distribute(m, x, d, w as real, a);
    Scaled(Enlarged(d), m * x, a);
    Scaled(-(m * x), Enlarged(d), a);
    Scaled(39614081257132168796771975168.0, w as real, a);
    Scaled(0.0, x, a);
    Grown(xa, wa, wa', m);
    Distribute(m + 1.0, x', d', w' as real, a');
    Unscaled(Enlarged(d'), (m + 1.0) * x', a');
    Unscaled(-((m + 1.0) * x'), Enlarged(d'), a');
  }

  /** One more part of 2^94 is enough for the rounding of two neighbours. */
  lemma Grown(xa: real, wa: real, wa': real, m: real)
    requires 39614081257132168796771975168.0 * 67108864.0 <= wa && -125829120.0 <= wa - wa' <= 125829120.0
    requires 0.0 <= xa && 0.0 <= m <= 44.0 && -(m * xa) <= Enlarged(xa - wa) <= m * xa
    ensures -((m + 1.0) * xa) <= Enlarged(xa - wa') <= (m + 1.0) * xa
  {
    Scaled(m, 44.0, xa);
    assert Enlarged(125829120.0) <= xa;
    assert (m + 1.0) * xa == m * xa + xa;
  }

  lemma Distribute(m: real, x: real, d: real, w: real, a: real)
    requires d == x - w
    ensures Enlarged(d) * a == Enlarged(x * a - w * a)
    ensures (m * x) * a == m * (x * a) && (-(m * x)) * a == -(m * (x * a))
  {
    assert d * a == x * a - w * a;
    assert Enlarged(d) * a == Enlarged(d * a);
  }

  lemma Scaled(x: real, y: real, a: real)
    requires x <= y && 0.0 <= a
    ensures x * a <= y * a
  {
    assert (y - x) * a >= 0.0;
  }

  lemma ScaledStrictly(x: real, y: real, a: real)
    requires x < y && 0.0 < a
    ensures x * a < y * a
  {
    assert (y - x) * a > 0.0;
  }

  lemma Unscaled(x: real, y: real, a: real)
    requires x * a <= y * a && 0.0 < a
    ensures x <= y
  {
    if y < x {
      ScaledStrictly(y, x, a);
    }
  }

  lemma ExactPositive(p: Power)
    ensures Exact(p) >= 0.0
  {
  }

  lemma FollowsUp(p: Power, w: int, q: Power, w': int, n: nat)
    requires Grows(p, w, q, w') && IsNear(p, w) && n < 44 && IsClose(Exact(p), w, n)
    ensures IsClose(Exact(q), w', n + 1)
  {
    NextExact(p, q);
    ExactPositive(p);
    StepIsClose(Exact(p), w, 100_000_000.0, Exact(q), w', Growth(p, q) as real, n);
  }

  lemma FollowsDown(p: Power, w: int, q: Power, w': int, n: nat)
    requires Grows(p, w, q, w') && IsNear(q, w') && n < 44 && IsClose(Exact(q), w', n)
    ensures IsClose(Exact(p), w, n + 1)
  {
    NextExact(p, q);
    ExactPositive(q);
    StepIsClose(Exact(q), w', Growth(p, q) as real, Exact(p), w, 100_000_000.0, n);
  }

  // ---------------------------------------------------------------- a whole table

  /** The entry that is exact. */
  const FIRST: nat := 44

  function StepsFrom(i: nat): nat {
    if i < FIRST then FIRST - i else i - FIRST
  }

  /** Entries with their 96 bits, that grow as they should, and are right at one place. */
  ghost predicate IsTable(ps: seq<Power>, ws: seq<int>) {
    && |ps| == |ws| == 87
    && (forall i :: 0 <= i < 86 ==> Grows(ps[i], ws[i], ps[i + 1], ws[i + 1]))
    && (forall i :: 0 <= i < 87 ==> IsNear(ps[i], ws[i]))
    && ps[FIRST].dExp == 4 && ps[FIRST].bExp == -50 && ws[FIRST] == 10_000 * 0x4_0000_0000_0000_0000_0000
  }

  lemma WholeIsExact(p: Power, wide: int)
    requires p.dExp == 4 && p.bExp == -50 && wide == 10_000 * 0x4_0000_0000_0000_0000_0000
    ensures IsClose(Exact(p), wide, 0)
  {
    assert Exp(10.0, 4) == 10_000.0 by {
      ExpIsPow10(4);
      assert Pow10(4) == 10_000;
    }
    assert Exp(2.0, 82) == 4835703278458516698824704.0 by {
      ExpIsPow2(82);
      TwoToThe82();
    }
  }

  lemma TwoToThe82()
    ensures Pow2(82) == 0x4_0000_0000_0000_0000_0000 && Pow2(32) == 0x1_0000_0000
  {
    assert Pow2(16) == 0x1_0000;
    Pow2Add(16, 16);
    Pow2Add(32, 32);
    Pow2Add(64, 16);
    Pow2Add(80, 2);
    assert Pow2(2) == 4;
  }

  lemma {:induction false} TableIsClose(ps: seq<Power>, ws: seq<int>, i: nat)
    requires IsTable(ps, ws) && i < 87
    ensures IsClose(Exact(ps[i]), ws[i], StepsFrom(i))
    decreases StepsFrom(i)
  {
    if i == FIRST {
      WholeIsExact(ps[i], ws[i]);
    } else if i > FIRST {
      TableIsClose(ps, ws, i - 1);
      FollowsUp(ps[i - 1], ws[i - 1], ps[i], ws[i], StepsFrom(i - 1));
    } else {
      TableIsClose(ps, ws, i + 1);
      FollowsDown(ps[i], ws[i], ps[i + 1], ws[i + 1], StepsFrom(i + 1));
    }
  }

  /** The entry is its power of ten, correctly rounded. */
  ghost predicate IsAccurate(p: Power) {
    && p.fract as int >= TWO_63
    && -0.5 <= p.fract as real - Times(Exp(10.0, p.dExp), Exp(2.0, -p.bExp)) <= 0.5
  }

  lemma CloseIsAccurate(p: Power, w: int, steps: nat)
    requires IsNear(p, w) && IsClose(Exact(p), w, steps) && steps <= 44
    ensures IsAccurate(p)
  {
    ExactIsScaled(p);
    ExactPositive(p);
    CloseIsNear(Times(Exp(10.0, p.dExp), Exp(2.0, -p.bExp)), Exact(p), w, p.fract as int, steps);
  }

  lemma CloseIsNear(x: real, exact: real, w: int, f: int, steps: nat)
    requires exact == 4294967296.0 * x && exact >= 0.0 && steps <= 44 && IsClose(exact, w, steps)
    requires w < 0x1_0000_0000_0000_0000_0000_0000 && -0x7FFF_0000 <= w - f * 0x1_0000_0000 <= 0x7FFF_0000
    ensures -0.5 <= f as real - x <= 0.5
  {
    CloseWithin(exact, w, steps as real);
    AreNear(x, exact, w, f);
  }

  lemma ExactIsScaled(p: Power)
    ensures Exact(p) == 4294967296.0 * Times(Exp(10.0, p.dExp), Exp(2.0, -p.bExp))
  {
    ExpIsPow2(32);
    TwoToThe82();
    ExpAdd(2.0, 32, -p.bExp);
    var a, b := Exp(10.0, p.dExp), Exp(2.0, -p.bExp);
    assert a * (4294967296.0 * b) == 4294967296.0 * (a * b);
  }

  lemma CloseWithin(exact: real, w: int, n: real)
    requires exact >= 0.0 && n <= 44.0 && -(n * exact) <= Enlarged(exact - w as real) <= n * exact
    ensures -(44.0 * exact) <= Enlarged(exact - w as real) <= 44.0 * exact
  {
    Scaled(n, 44.0, exact);
  }

  lemma AreNear(x: real, exact: real, w: int, f: int)
    requires exact == 4294967296.0 * x && exact >= 0.0 && -(44.0 * exact) <= Enlarged(exact - w as real) <= 44.0 * exact
    requires w < 0x1_0000_0000_0000_0000_0000_0000 && -0x7FFF_0000 <= w - f * 0x1_0000_0000 <= 0x7FFF_0000
    ensures -0.5 <= f as real - x <= 0.5
  {
    var off := w - f * 0x1_0000_0000;
    assert -1000.0 <= exact - w as real <= 1000.0;
    assert w as real == f as real * 4294967296.0 + off as real;
    assert -2147418112.0 <= off as real <= 2147418112.0;
  }

  /** Every entry of the table is. */
  lemma EntryIsAccurate(i: nat)
    requires i < POW_CACHE_SIZE
    ensures IsAccurate(PowCache(i))
  {
    var ps := seq(POW_CACHE_SIZE, j requires 0 <= j < POW_CACHE_SIZE => PowCache(j));
    var ws := seq(POW_CACHE_SIZE, j requires 0 <= j < POW_CACHE_SIZE => Wide(j));
    CacheIsTable(ps, ws);
    TableIsClose(ps, ws, i);
    CloseIsAccurate(ps[i], ws[i], StepsFrom(i));
  }

  lemma CacheIsTable(ps: seq<Power>, ws: seq<int>)
    requires |ps| == |ws| == POW_CACHE_SIZE
    requires forall i :: 0 <= i < POW_CACHE_SIZE ==> ps[i] == PowCache(i) && ws[i] == Wide(i)
    ensures IsTable(ps, ws)
  {
    forall i | 0 <= i < 86
      ensures Grows(ps[i], ws[i], ps[i + 1], ws[i + 1])
    {
      NextsFit(i);
    }
    forall i | 0 <= i < 87
      ensures IsNear(ps[i], ws[i])
    {
      EntriesAreNear(i);
    }
  }
}
