/**
 Powers of two, as the coders' shifts use them.
 */
module Powers {
  function Pow2(n: nat): (p: nat)
    ensures p > 0
  {
    if n == 0 then 1 else 2 * Pow2(n - 1)
  }

  lemma {:induction false} Pow2Add(m: nat, n: nat)
    ensures Pow2(m + n) == Pow2(m) * Pow2(n)
  {
    if m == 0 {
      assert Pow2(0) == 1;
    } else {
      Pow2Add(m - 1, n);
      Pow2Double(m + n);
      Pow2Double(m);
      hide Pow2;
      assert (m - 1) + n == m + n - 1;
      Doubled(Pow2(m - 1), Pow2(n));
    }
  }

  lemma Pow2Double(n: nat)
    requires n > 0
    ensures Pow2(n) == 2 * Pow2(n - 1)
  {
  }

  lemma Doubled(x: int, y: int)
    ensures 2 * (x * y) == (2 * x) * y
  {
  }

  lemma {:induction false} Pow2Monotone(m: nat, n: nat)
    requires m <= n
    ensures Pow2(m) <= Pow2(n)
    decreases n
  {
    if m < n {
      Pow2Monotone(m, n - 1);
    }
  }

  /** The powers the registers of the arithmetic coder meet. */
  lemma Pow2Small()
    ensures Pow2(1) == 2 && Pow2(2) == 4 && Pow2(3) == 8 && Pow2(4) == 16 && Pow2(5) == 32
    ensures Pow2(6) == 64 && Pow2(7) == 128 && Pow2(8) == 256 && Pow2(9) == 512 && Pow2(10) == 1024 && Pow2(12) == 0x1000
    ensures Pow2(15) == 0x8000 && Pow2(16) == 0x1_0000 && Pow2(19) == 0x8_0000 && Pow2(20) == 0x10_0000
    ensures Pow2(23) == 0x80_0000 && Pow2(24) == 0x100_0000 && Pow2(27) == 0x800_0000
    ensures Pow2(32) == 0x1_0000_0000
  {
    assert Pow2(8) == 256;
    assert Pow2(16) == 0x1_0000 by { Pow2Add(8, 8); }
    assert Pow2(12) == 0x1000;
    assert Pow2(15) == 0x8000 by { Pow2Add(8, 7); }
    assert Pow2(19) == 0x8_0000;
    assert Pow2(20) == 0x10_0000;
    assert Pow2(24) == 0x100_0000 by { Pow2Add(16, 8); }
    assert Pow2(23) == 0x80_0000;
    assert Pow2(27) == 0x800_0000;
    assert Pow2(32) == 0x1_0000_0000 by { Pow2Add(16, 16); }
  }

  /** Multiplying both sides by a positive number keeps and reflects an order. */
  lemma MulLess(x: int, y: int, k: nat)
    requires k > 0
    ensures x * k < y * k <==> x < y
    ensures x * k <= y * k <==> x <= y
  {
    assert y * k - x * k == (y - x) * k;
    if x < y {
      MulPositive(y - x, k);
    } else if y < x {
      assert x * k - y * k == (x - y) * k;
      MulPositive(x - y, k);
    }
  }

  lemma MulPositive(x: nat, k: nat)
    requires x > 0 && k > 0
    ensures x * k > 0
  {
  }

  /** Division and remainder are the only way to write `x` as a multiple of `u` and something below it. */
  lemma DivModUnique(x: int, q: int, r: int, u: nat)
    requires 0 <= r < u && x == q * u + r
    ensures x / u == q && x % u == r
  {
    assert x == x / u * u + x % u;
    assert (x / u - q) * u == r - x % u;
    if x / u > q {
      MulLess(1, x / u - q, u);
    } else if x / u < q {
      MulLess(x / u - q, -1, u);
    }
  }

  lemma MulRegroup(x: int, y: int, z: int)
    ensures (x * y) * z == (x * z) * y == x * (y * z) == x * (z * y)
  {
  }

  lemma MulDistribute(x: int, y: int, z: int)
    ensures (x + y) * z == x * z + y * z
  {
  }

  /** Scaling one factor on either side keeps and reflects an order of products. */
  lemma CrossScale(x: int, b: int, y: int, s: int, p: nat)
    requires p > 0
    ensures (x * p) * b < y * (s * p) <==> x * b < y * s
    ensures y * (s * p) < (x * p) * b <==> y * s < x * b
  {
    MulRegroup(x, p, b);
    MulRegroup(y, s, p);
    MulLess(x * b, y * s, p);
    MulLess(y * s, x * b, p);
  }

  /** `x` shifted left by `k` bits. */
  function ShiftLeft(x: nat, k: nat): (r: nat)
    ensures r == x * Pow2(k)
    ensures x > 0 ==> r > 0
  {
    if x > 0 then
      MulPositive(x, Pow2(k));
      x * Pow2(k)
    else 0
  }

  /** `x` without its low `k` bits. */
  function ShiftRight(x: nat, k: nat): (r: nat)
    ensures r == x / Pow2(k)
  {
    QuotientNonNegative(x, Pow2(k));
    x / Pow2(k)
  }

  lemma QuotientNonNegative(x: nat, p: nat)
    requires p > 0
    ensures x / p >= 0
  {
    assert x == x / p * p + x % p;
    if x / p < 0 {
      MulLess(x / p, -1, p);
    }
  }
}
