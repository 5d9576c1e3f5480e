/** Integer helpers shared by the sieve and the bit statistics: the unsigned
    64-bit range, powers of two, the integer square root that stands for the
    float `math.Sqrt` of the trial-division limit, and division facts. */
module Arith {

  /** Go's `uint64`. */
  newtype u64 = x: int | 0 <= x < 0x1_0000_0000_0000_0000

  /** 2^k, the value of `1 << k`. */
  function Pow2(k: nat): (r: nat)
    ensures r >= 1
  {
    if k == 0 then 1 else 2 * Pow2(k - 1)
  }

  lemma {:induction false} Pow2Add(a: nat, b: nat)
    ensures Pow2(a + b) == Pow2(a) * Pow2(b)
    decreases a
  {
    if a > 0 {
      Pow2Add(a - 1, b);
      assert Pow2(a + b) == 2 * Pow2(a - 1 + b);
    }
  }

  lemma Pow2Of24()
    ensures Pow2(24) == 0x100_0000
  {
    Pow2Add(12, 12);
    assert Pow2(12) == 4096;
  }

  lemma Pow2Of64()
    ensures Pow2(64) == 0x1_0000_0000_0000_0000
  {
    Pow2Add(32, 32);
    Pow2Add(16, 16);
    Pow2Add(8, 8);
    assert Pow2(8) == 256;
  }

  /** Division is determined by any quotient/remainder decomposition. */
  lemma DivUnique(n: nat, d: nat, q: nat, r: nat)
    requires d > 0 && r < d && n == d * q + r
    ensures n / d == q && n % d == r
  {
    var q', r' := n / d, n % d;
    assert d * q' + r' == d * q + r;
    assert d * (q + 1) == d * q + d;
    assert d * (q' + 1) == d * q' + d;
  }

  /** Shifting right by k + 1 is shifting right by 1, then by k. */
  lemma DivDiv(n: nat, p: nat)
    requires p > 0
    ensures n / (2 * p) == (n / 2) / p
  {
    var h, a := n / 2, (n / 2) / p;
    var b := h % p;
    assert h == p * a + b;
    assert n == 2 * h + n % 2;
    assert n == (2 * p) * a + (2 * b + n % 2);
    DivUnique(n, 2 * p, a, 2 * b + n % 2);
  }

  /** Squaring is monotone on naturals. */
  lemma SquareMono(a: nat, b: nat)
    requires a <= b
    ensures a * a <= b * b
  {
  }

  /** floor(sqrt(n)): the largest r with r * r <= n. */
  function ISqrt(n: nat): (r: nat)
    ensures r * r <= n < (r + 1) * (r + 1)
  {
    if n < 4 then
      (if n == 0 then 0 else 1)
    else
      var s := ISqrt(n / 4);
      ISqrtStep(n, s);
      var h := 2 * s;
      if (h + 1) * (h + 1) <= n then h + 1 else h
  }

  /** The square-root bracket of n / 4, doubled, brackets n. */
  lemma ISqrtStep(n: nat, s: nat)
    requires s * s <= n / 4 < (s + 1) * (s + 1)
    ensures (2 * s) * (2 * s) <= n < (2 * s + 2) * (2 * s + 2)
  {
    var q := n / 4;
    assert n == 4 * q + n % 4;
    assert (2 * s) * (2 * s) == 4 * (s * s);
    assert (2 * s + 2) * (2 * s + 2) == 4 * ((s + 1) * (s + 1));
    assert (s + 1) * (s + 1) >= q + 1;
  }

  /** Any r whose square is at most n is at most floor(sqrt(n)). */
  lemma BelowISqrt(r: nat, n: nat)
    requires r * r <= n
    ensures r <= ISqrt(n)
  {
    var s := ISqrt(n);
    if r > s {
      SquareMono(s + 1, r);
    }
  }
}
