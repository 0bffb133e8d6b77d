/** The table of cached powers of ten, and the choice of an entry for a binary exponent. */
module CachedPowers {
  import opened Words
  import opened DiyFp

  /** A significand with its binary exponent, and the decimal exponent it approximates. */
  datatype Power = Power(fract: u64, bExp: int, dExp: int)

  const POW_CACHE_SIZE := 87

  /** `pow_cache[i]`. */
  function PowCache(i: nat): Power
    requires i < POW_CACHE_SIZE
  {
    match i
    case 0 => Power(0xfa8fd5a0081c0288, -1220, -348)
    case 1 => Power(0xbaaee17fa23ebf76, -1193, -340)
    case 2 => Power(0x8b16fb203055ac76, -1166, -332)
    case 3 => Power(0xcf42894a5dce35ea, -1140, -324)
    case 4 => Power(0x9a6bb0aa55653b2d, -1113, -316)
    case 5 => Power(0xe61acf033d1a45df, -1087, -308)
    case 6 => Power(0xab70fe17c79ac6ca, -1060, -300)
    case 7 => Power(0xff77b1fcbebcdc4f, -1034, -292)
    case 8 => Power(0xbe5691ef416bd60c, -1007, -284)
    case 9 => Power(0x8dd01fad907ffc3c, -980, -276)
    case 10 => Power(0xd3515c2831559a83, -954, -268)
    case 11 => Power(0x9d71ac8fada6c9b5, -927, -260)
    case 12 => Power(0xea9c227723ee8bcb, -901, -252)
    case 13 => Power(0xaecc49914078536d, -874, -244)
    case 14 => Power(0x823c12795db6ce57, -847, -236)
    case 15 => Power(0xc21094364dfb5637, -821, -228)
    case 16 => Power(0x9096ea6f3848984f, -794, -220)
    case 17 => Power(0xd77485cb25823ac7, -768, -212)
    case 18 => Power(0xa086cfcd97bf97f4, -741, -204)
    case 19 => Power(0xef340a98172aace5, -715, -196)
    case 20 => Power(0xb23867fb2a35b28e, -688, -188)
    case 21 => Power(0x84c8d4dfd2c63f3b, -661, -180)
    case 22 => Power(0xc5dd44271ad3cdba, -635, -172)
    case 23 => Power(0x936b9fcebb25c996, -608, -164)
    case 24 => Power(0xdbac6c247d62a584, -582, -156)
    case 25 => Power(0xa3ab66580d5fdaf6, -555, -148)
    case 26 => Power(0xf3e2f893dec3f126, -529, -140)
    case 27 => Power(0xb5b5ada8aaff80b8, -502, -132)
    case 28 => Power(0x87625f056c7c4a8b, -475, -124)
    case 29 => Power(0xc9bcff6034c13053, -449, -116)
    case 30 => Power(0x964e858c91ba2655, -422, -108)
    case 31 => Power(0xdff9772470297ebd, -396, -100)
    case 32 => Power(0xa6dfbd9fb8e5b88f, -369, -92)
    case 33 => Power(0xf8a95fcf88747d94, -343, -84)
    case 34 => Power(0xb94470938fa89bcf, -316, -76)
    case 35 => Power(0x8a08f0f8bf0f156b, -289, -68)
    case 36 => Power(0xcdb02555653131b6, -263, -60)
    case 37 => Power(0x993fe2c6d07b7fac, -236, -52)
    case 38 => Power(0xe45c10c42a2b3b06, -210, -44)
    case 39 => Power(0xaa242499697392d3, -183, -36)
    case 40 => Power(0xfd87b5f28300ca0e, -157, -28)
    case 41 => Power(0xbce5086492111aeb, -130, -20)
    case 42 => Power(0x8cbccc096f5088cc, -103, -12)
    case 43 => Power(0xd1b71758e219652c, -77, -4)
    case 44 => Power(0x9c40000000000000, -50, 4)
    case 45 => Power(0xe8d4a51000000000, -24, 12)
    case 46 => Power(0xad78ebc5ac620000, 3, 20)
    case 47 => Power(0x813f3978f8940984, 30, 28)
    case 48 => Power(0xc097ce7bc90715b3, 56, 36)
    case 49 => Power(0x8f7e32ce7bea5c70, 83, 44)
    case 50 => Power(0xd5d238a4abe98068, 109, 52)
    case 51 => Power(0x9f4f2726179a2245, 136, 60)
    case 52 => Power(0xed63a231d4c4fb27, 162, 68)
    case 53 => Power(0xb0de65388cc8ada8, 189, 76)
    case 54 => Power(0x83c7088e1aab65db, 216, 84)
    case 55 => Power(0xc45d1df942711d9a, 242, 92)
    case 56 => Power(0x924d692ca61be758, 269, 100)
    case 57 => Power(0xda01ee641a708dea, 295, 108)
    case 58 => Power(0xa26da3999aef774a, 322, 116)
    case 59 => Power(0xf209787bb47d6b85, 348, 124)
    case 60 => Power(0xb454e4a179dd1877, 375, 132)
    case 61 => Power(0x865b86925b9bc5c2, 402, 140)
    case 62 => Power(0xc83553c5c8965d3d, 428, 148)
    case 63 => Power(0x952ab45cfa97a0b3, 455, 156)
    case 64 => Power(0xde469fbd99a05fe3, 481, 164)
    case 65 => Power(0xa59bc234db398c25, 508, 172)
    case 66 => Power(0xf6c69a72a3989f5c, 534, 180)
    case 67 => Power(0xb7dcbf5354e9bece, 561, 188)
    case 68 => Power(0x88fcf317f22241e2, 588, 196)
    case 69 => Power(0xcc20ce9bd35c78a5, 614, 204)
    case 70 => Power(0x98165af37b2153df, 641, 212)
    case 71 => Power(0xe2a0b5dc971f303a, 667, 220)
    case 72 => Power(0xa8d9d1535ce3b396, 694, 228)
    case 73 => Power(0xfb9b7cd9a4a7443c, 720, 236)
    case 74 => Power(0xbb764c4ca7a44410, 747, 244)
    case 75 => Power(0x8bab8eefb6409c1a, 774, 252)
    case 76 => Power(0xd01fef10a657842c, 800, 260)
    case 77 => Power(0x9b10a4e5e9913129, 827, 268)
    case 78 => Power(0xe7109bfba19c0c9d, 853, 276)
    case 79 => Power(0xac2820d9623bf429, 880, 284)
    case 80 => Power(0x80444b5e7aa7cf85, 907, 292)
    case 81 => Power(0xbf21e44003acdd2d, 933, 300)
    case 82 => Power(0x8e679c2f5e44ff8f, 960, 308)
    case 83 => Power(0xd433179d9c8cb841, 986, 316)
    case 84 => Power(0x9e19db92b4e31ba9, 1013, 324)
    case 85 => Power(0xeb96bf6ebadf77d9, 1039, 332)
    case _ => Power(0xaf87023b9bf0ee6b, 1066, 340)
  }

  const MIN_CACHED_EXP := -348

  /** The source multiplies by the double nearest to this, and rounds the product. */
  const D_1_LOG2_10: real := 0.30102999566398114

  /** `(int)ceil(x)`. */
  function Ceiling(x: real): (k: int)
    ensures (k - 1) as real < x <= k as real
  {
    -((-x).Floor)
  }

  /** Index of the entry for a required binary exponent; the division is on a non-negative number. */
  function PowerIndex(exp: int): int {
    (Ceiling((exp + 63) as real * D_1_LOG2_10) - MIN_CACHED_EXP - 1) / 8 + 1
  }

  /** Neither rounding matters: no product comes as near to an integer as a ten-thousandth, but for zero, which is
      exact. */
  lemma RoundingIsHarmless(exp: int, product: real)
    requires -1200 <= exp + 63 <= 1200
    requires -0.00005 <= product - (exp + 63) as real * D_1_LOG2_10 <= 0.00005 && (exp == -63 ==> product == 0.0)
    ensures Ceiling(product) == Ceiling((exp + 63) as real * D_1_LOG2_10)
  {
    if exp != -63 {
      var k := Ceiling(product);
      FarFromIntegers(exp + 63, k);
      FarFromIntegers(exp + 63, k - 1);
    }
  }

  /** 59/196 and 146/485 are neighbouring convergents of lg 2. */
  lemma FarFromIntegers(x: int, n: int)
    requires -1200 <= x <= 1200 && x != 0
    ensures var d := x * 30102999566398114 - n * 100_000_000_000_000_000;
            d < -10_000_000_000_000 || 10_000_000_000_000 < d
  {
    var a, b := 146 * x - 485 * n, 196 * n - 59 * x;
    assert x == 196 * a + 485 * b && n == 59 * a + 146 * b;
  }

  function CachedPow(exp: int): (r: (DiyFp, int))
    requires 0 <= PowerIndex(exp) < POW_CACHE_SIZE
  {
    var p := PowCache(PowerIndex(exp));
    (DiyFp(p.fract, p.bExp), p.dExp)
  }

  /** Each entry is normalised, and its binary exponent brackets its decimal one. */
  predicate EntryFits(i: nat)
    requires i < POW_CACHE_SIZE
  {
    var p := PowCache(i);
    && p.fract >= 0x8000_0000_0000_0000
    && p.dExp == MIN_CACHED_EXP + 8 * i
    && (p.bExp + 64) * 30102999566398114 > p.dExp * 100_000_000_000_000_000
    && (p.bExp + 34) * 30102999566398114 <= (p.dExp - 8) * 100_000_000_000_000_000
  }

  lemma EntriesFit(i: nat)
    requires i < POW_CACHE_SIZE
    ensures EntryFits(i)
  {
    if i < 50 {
      LowerEntriesFit(i);
    } else {
      UpperEntriesFit(i);
    }
  }

  lemma LowerEntriesFit(i: nat)
    requires i < 50
    ensures EntryFits(i)
  {
  }

  lemma UpperEntriesFit(i: nat)
    requires 50 <= i < POW_CACHE_SIZE
    ensures EntryFits(i)
  {
  }

  /** For the exponent of every normalised double the chosen power brings the product's exponent into
      the range that digit generation needs. */
  lemma CachedPowHitsTarget(e: int)
    requires -1137 <= e <= 960
    ensures 0 <= PowerIndex(-60 - 64 - e) < POW_CACHE_SIZE
    ensures var c := CachedPow(-60 - 64 - e).0;
            c.f as int >= TWO_63 && -60 <= e + c.e + 64 <= -32
    ensures -348 <= CachedPow(-60 - 64 - e).1 <= 340
  {
    var x := -61 - e;
    var k := Ceiling(x as real * D_1_LOG2_10);
    var i := PowerIndex(-60 - 64 - e);
    assert -308 <= k <= 325;
    assert 8 * i - 355 <= k <= 8 * i - 348;
    EntriesFit(i);
    var p := PowCache(i);
    assert (p.dExp - 8) * 100_000_000_000_000_000 < x * 30102999566398114 <= p.dExp * 100_000_000_000_000_000;
  }
}
