/** Bit-level integer operations of the source: the population-count loop
    of `CountBits` and the per-bit set counts that `corr` accumulates
    before turning them into means. */
module BitOps {
  import opened Arith

  /** `(n >> k) & 1`. */
  function Bit(n: nat, k: nat): (b: nat)
    ensures b == 0 || b == 1
  {
    (n / Pow2(k)) % 2
  }

  /** Bit k + 1 of n is bit k of `n >> 1`. */
  lemma BitShift(n: nat, k: nat)
    ensures Bit(n, k + 1) == Bit(n / 2, k)
  {
    DivDiv(n, Pow2(k));
    assert Pow2(k + 1) == 2 * Pow2(k);
  }

  /** The number of 1-bits of n, lowest bit first. */
  function BitCount(n: nat): nat
  {
    if n == 0 then 0 else n % 2 + BitCount(n / 2)
  }

  /** An independent reading of the same number: how many of the positions
      0 .. w - 1 have their indicator `(n >> k) & 1` equal to 1. */
  function SetBitsBelow(n: nat, w: nat): (c: nat)
    ensures c <= w
  {
    if w == 0 then 0 else SetBitsBelow(n, w - 1) + Bit(n, w - 1)
  }

  /** Counting bits from the top or from the bottom gives the same sum. */
  lemma {:induction false} SetBitsBelowShift(n: nat, w: nat)
    requires w >= 1
    ensures SetBitsBelow(n, w) == n % 2 + SetBitsBelow(n / 2, w - 1)
    decreases w
  {
    if w > 1 {
      SetBitsBelowShift(n, w - 1);
      BitShift(n, w - 2);
    }
  }

  /** For n below 2^w the population count is the number of set positions
      below w, and so at most w. */
  lemma {:induction false} BitCountIsSetBits(n: nat, w: nat)
    requires n < Pow2(w)
    ensures BitCount(n) == SetBitsBelow(n, w)
    ensures BitCount(n) <= w
    decreases w
  {
    if w == 0 {
      assert n == 0;
    } else {
      SetBitsBelowShift(n, w);
      BitCountIsSetBits(n / 2, w - 1);
    }
  }

  /** The loop at main.go lines 202-208 (and its copy at 235-241): shift a
      uint64 right until it is zero, counting the 1-bits seen. */
  method PopCount(x: u64) returns (count: nat)
    ensures count == BitCount(x as nat)
    ensures count == SetBitsBelow(x as nat, 64)
    ensures count <= 64
    ensures (count == 0) == (x == 0)
  {
    var p := x;
    count := 0;
    while p != 0
      invariant count + BitCount(p as nat) == BitCount(x as nat)
      decreases p
    {
      if p % 2 == 1 {
        count := count + 1;
      }
      p := p / 2;
    }
    Pow2Of64();
    BitCountIsSetBits(x as nat, 64);
    BitCountZero(x as nat);
  }

  /** Only zero has no set bit. */
  lemma {:induction false} BitCountZero(n: nat)
    ensures (BitCount(n) == 0) == (n == 0)
  {
    if n > 0 && n % 2 == 0 {
      BitCountZero(n / 2);
    }
  }

  /** How many members of ns have bit k set. */
  function CountWithBit(ns: seq<nat>, k: nat): (c: nat)
    ensures c <= |ns|
  {
    if ns == [] then 0 else CountWithBit(ns[..|ns| - 1], k) + Bit(ns[|ns| - 1], k)
  }

  /** The count is zero exactly when no member has bit k set, and equals
      |ns| exactly when every member has it set: the two cases in which bit
      k carries no variance. */
  lemma {:induction false} CountWithBitExtremes(ns: seq<nat>, k: nat)
    ensures CountWithBit(ns, k) == 0 <==> forall j :: 0 <= j < |ns| ==> Bit(ns[j], k) == 0
    ensures CountWithBit(ns, k) == |ns| <==> forall j :: 0 <= j < |ns| ==> Bit(ns[j], k) == 1
  {
    if ns != [] {
      var init := ns[..|ns| - 1];
      CountWithBitExtremes(init, k);
      assert forall j :: 0 <= j < |init| ==> init[j] == ns[j];
    }
  }

  /** Counting over a concatenation adds the counts of the parts. */
  lemma {:induction false} CountWithBitAppend(a: seq<nat>, b: seq<nat>, k: nat)
    ensures CountWithBit(a + b, k) == CountWithBit(a, k) + CountWithBit(b, k)
    decreases |b|
  {
    if b == [] {
      assert a + b == a;
    } else {
      assert (a + b)[..|a + b| - 1] == a + b[..|b| - 1];
      assert (a + b)[|a + b| - 1] == b[|b| - 1];
      CountWithBitAppend(a, b[..|b| - 1], k);
    }
  }

  /** One more member adds its bit to the count. */
  lemma CountWithBitPrefix(ns: seq<nat>, n: nat, k: nat)
    requires n < |ns|
    ensures CountWithBit(ns[..n + 1], k) == CountWithBit(ns[..n], k) + Bit(ns[n], k)
  {
    assert ns[..n + 1][..n] == ns[..n];
  }

  /** The accumulation into `avg` at main.go lines 84-89: for every number
      and every bit position below `width`, add `(number >> i) & 1` to
      slot i. The slots are whole numbers until line 91 divides them. */
  method BitSetCounts(numbers: seq<nat>, width: nat) returns (counts: seq<nat>)
    ensures |counts| == width
    ensures forall i :: 0 <= i < width ==> counts[i] == CountWithBit(numbers, i)
    ensures forall i :: 0 <= i < width ==> counts[i] <= |numbers|
  {
    var avg := new nat[width];
    forall i | 0 <= i < width {
      avg[i] := 0;
    }
    for n := 0 to |numbers|
      invariant forall i :: 0 <= i < width ==> avg[i] == CountWithBit(numbers[..n], i)
    {
      var number := numbers[n];
      for i := 0 to width
        invariant forall m :: 0 <= m < i ==> avg[m] == CountWithBit(numbers[..n + 1], m)
        invariant forall m :: i <= m < width ==> avg[m] == CountWithBit(numbers[..n], m)
      {
        CountWithBitPrefix(numbers, n, i);
        avg[i] := avg[i] + Bit(number, i);
      }
    }
    assert numbers[..|numbers|] == numbers;
    counts := avg[..];
  }
}
