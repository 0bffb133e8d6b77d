/** Machine words and powers, shared by the number-printing modules. */
module Words {
  const TWO_63: int := 0x8000_0000_0000_0000
  const TWO_64: int := 0x1_0000_0000_0000_0000

  /** `uint64_t` and `uint32_t`.  Every operation on them carries an obligation not to wrap. */
  newtype u64 = x: int | 0 <= x < 0x1_0000_0000_0000_0000
  newtype u32 = x: int | 0 <= x < 0x1_0000_0000
}

/** Facts about products that the solver does not find by itself. */
module Products {
  lemma MulMono(a: int, b: int, c: int)
    requires a <= b && 0 <= c
    ensures a * c <= b * c
  {
  }

  /** Products grow in both factors. */
  lemma MulMonoBoth(a: int, b: int, c: int, d: int)
    requires 0 <= a <= b && 0 <= c <= d
    ensures 0 <= a * c <= b * d
  {
    MulMono(a, b, c);
    MulMono(c, d, b);
  }

  lemma MulAssoc(a: int, b: int, c: int)
    ensures (a * b) * c == a * (b * c)
  {
  }

  lemma MulCancelStrict(a: int, b: int, c: int)
    requires a * c < b * c && 0 <= c
    ensures a < b
  {
    if b <= a {
      MulMono(b, a, c);
    }
  }
}

module Powers {
  function Pow2(n: nat): (r: nat)
    ensures r >= 1
  {
    if n == 0 then 1 else 2 * Pow2(n - 1)
  }

  function Pow10(n: nat): (r: nat)
    ensures r >= 1
  {
    if n == 0 then 1 else 10 * Pow10(n - 1)
  }

  lemma {:induction false} Pow2Add(m: nat, n: nat)
    ensures Pow2(m + n) == Pow2(m) * Pow2(n)
  {
    if m > 0 {
      Pow2Add(m - 1, n);
    }
  }

  lemma {:induction false} Pow10Add(m: nat, n: nat)
    ensures Pow10(m + n) == Pow10(m) * Pow10(n)
  {
    if m > 0 {
      Pow10Add(m - 1, n);
    }
  }

  lemma {:induction false} Pow2Grows(m: nat, n: nat)
    requires m <= n
    ensures Pow2(m) <= Pow2(n)
  {
    if m < n {
      Pow2Grows(m, n - 1);
    }
  }

  lemma {:induction false} Pow10Grows(m: nat, n: nat)
    requires m <= n
    ensures Pow10(m) <= Pow10(n)
  {
    if m < n {
      Pow10Grows(m, n - 1);
    }
  }

  /** Multiplication under a name, so that equal factors are seen to give equal products. */
  function Times(x: real, y: real): real {
    x * y
  }

  lemma TimesAssoc(x: real, y: real, z: real)
    ensures Times(Times(x, y), z) == Times(x, Times(y, z))
  {
    assert (x * y) * z == x * (y * z);
  }

  lemma TimesCancel(x: real, y: real, z: real)
    requires x > 0.0 && Times(x, y) == Times(x, z)
    ensures y == z
  {
    assert x * (y - z) == 0.0;
  }

  /** Powers with integer exponents, over the reals. */
  function Exp(b: real, n: int): (r: real)
    requires b > 0.0
    ensures r > 0.0
    decreases if n < 0 then -n else n
  {
    if n == 0 then 1.0 else if n > 0 then Times(b, Exp(b, n - 1)) else Exp(b, n + 1) / b
  }

  lemma {:induction false} ExpSucc(b: real, n: int)
    requires b > 0.0
    ensures Exp(b, n + 1) == Times(b, Exp(b, n))
  {
    if n < 0 {
      var p := Exp(b, n + 1);
      assert Exp(b, n) == p / b;
      assert b * (p / b) == p;
    }
  }

  lemma {:induction false} ExpAdd(b: real, m: int, n: int)
    requires b > 0.0
    ensures Exp(b, m + n) == Times(Exp(b, m), Exp(b, n))
    decreases if m < 0 then -m else m
  {
    var q := Exp(b, n);
    if m > 0 {
      var p, s := Exp(b, m - 1), Exp(b, m - 1 + n);
      assert s == Times(p, q) by { ExpAdd(b, m - 1, n); }
      assert Exp(b, m + n) == Times(b, s) by { ExpSucc(b, m - 1 + n); }
      TimesAssoc(b, p, q);
    } else if m < 0 {
      var p, s := Exp(b, m), Exp(b, m + n);
      var p', s' := Exp(b, m + 1), Exp(b, m + 1 + n);
      assert s' == Times(p', q) by { ExpAdd(b, m + 1, n); }
      assert p' == Times(b, p) by { ExpSucc(b, m); }
      assert s' == Times(b, s) by { ExpSucc(b, m + n); }
      TimesAssoc(b, p, q);
      TimesCancel(b, s, Times(p, q));
    }
  }

  lemma {:induction false} ExpIsPow2(n: nat)
    ensures Exp(2.0, n) == Pow2(n) as real
  {
    if n > 0 {
      ExpIsPow2(n - 1);
    }
  }

  lemma {:induction false} ExpIsPow10(n: nat)
    ensures Exp(10.0, n) == Pow10(n) as real
  {
    if n > 0 {
      ExpIsPow10(n - 1);
    }
  }
}
