/** The two modes of the program, reduced to their integer content: `Corr`'s
    `process` (sieve, per-bit set counts of both lists, gain-cell
    bookkeeping) and `CountBits` (sieve up to 1 << 24, then the popcount of
    every prime and every composite, the points handed to the plotter). */
module Modes {
  import opened Arith
  import opened Primes
  import opened BitOps
  import opened Gain

  /** Everything `process(Bits, Max)` computes that is an integer. */
  datatype ProcessTrace = ProcessTrace(
    primes: seq<nat>,
    composites: seq<nat>,
    primeBitCounts: seq<nat>,
    compositeBitCounts: seq<nat>,
    count: nat,
    summed: seq<Cell>)

  /** `process(bits, max)`: sieve below `max`, count the set bits of each
      list per position below `bits`, then walk the bits x bits grid.
      `outlier` stands for the float test on each cell's scale. */
  method Process(bits: nat, max: u64, outlier: Cell -> bool) returns (t: ProcessTrace)
    ensures t.primes == SievePrimes(max as nat)
    ensures t.composites == SieveComposites(max as nat)
    ensures |t.primeBitCounts| == bits && |t.compositeBitCounts| == bits
    ensures forall i :: 0 <= i < bits ==> t.primeBitCounts[i] == CountWithBit(t.primes, i)
    ensures forall i :: 0 <= i < bits ==> t.compositeBitCounts[i] == CountWithBit(t.composites, i)
    ensures t.count == if bits < 2 then 0 else (bits - 2) * (bits - 2)
    ensures t.summed == Kept(GridCells(bits, bits), outlier)
  {
    var primes, composites := Sieve(max);
    var primeCounts := BitSetCounts(primes, bits);
    var compositeCounts := BitSetCounts(composites, bits);
    var count, summed := GainCells(bits, outlier);
    t := ProcessTrace(primes, composites, primeCounts, compositeCounts, count, summed);
  }

  /** Bit 0 is nearly constant over the primes: every one of them but the
      seed 2 is odd, so the bit-0 count of `primes` is its length minus one. */
  lemma PrimesBitZero(bound: nat)
    ensures forall j :: 1 <= j < |SievePrimes(bound)| ==> Bit(SievePrimes(bound)[j], 0) == 1
    ensures CountWithBit(SievePrimes(bound), 0) == |SievePrimes(bound)| - 1
  {
    var rest := [3] + Classified(4, bound, true);
    assert SievePrimes(bound) == [2] + rest;
    SieveSound(bound);
    forall j | 0 <= j < |rest|
      ensures Bit(rest[j], 0) == 1
    {
      assert rest[j] == SievePrimes(bound)[j + 1];
      assert rest[j] in SievePrimes(bound);
      SieveAscending(bound);
      assert SievePrimes(bound)[0] == 2;
      assert rest[j] > 2;
      assert rest[j] % 2 != 0;
    }
    CountWithBitExtremes(rest, 0);
    CountWithBitAppend([2], rest, 0);
    assert [2][..0] == [];
  }

  /** The points of one scatter plot of `CountBits` (lines 201-210 for the
      primes, 234-243 for the composites): each number with its popcount. */
  method PopCountPoints(ns: seq<nat>) returns (points: seq<(nat, nat)>)
    requires forall k :: 0 <= k < |ns| ==> ns[k] < 0x1_0000_0000_0000_0000
    ensures |points| == |ns|
    ensures forall k :: 0 <= k < |ns| ==> points[k] == (ns[k], BitCount(ns[k]))
    ensures forall k :: 0 <= k < |ns| ==> points[k].1 <= 64
  {
    points := [];
    for k := 0 to |ns|
      invariant |points| == k
      invariant forall j :: 0 <= j < k ==> points[j] == (ns[j], BitCount(ns[j])) && points[j].1 <= 64
    {
      var count := PopCount(ns[k] as u64);
      points := points + [(ns[k], count)];
    }
  }

  /** `CountBits`: the same sieve as `process`, with bound 1 << 24, then
      a popcount point for every prime and every composite. */
  method CountBits() returns (primePoints: seq<(nat, nat)>, compositePoints: seq<(nat, nat)>)
    ensures |primePoints| == |SievePrimes(0x100_0000)|
    ensures forall k :: 0 <= k < |primePoints| ==>
              primePoints[k] == (SievePrimes(0x100_0000)[k], BitCount(SievePrimes(0x100_0000)[k]))
    ensures |compositePoints| == |SieveComposites(0x100_0000)|
    ensures forall k :: 0 <= k < |compositePoints| ==>
              compositePoints[k] == (SieveComposites(0x100_0000)[k], BitCount(SieveComposites(0x100_0000)[k]))
  {
    Pow2Of24();
    var primes, composites := Sieve(Pow2(24) as u64);
    SievePartition(0x100_0000);
    assert forall k :: 0 <= k < |primes| ==> primes[k] in primes;
    assert forall k :: 0 <= k < |composites| ==> composites[k] in composites;
    primePoints := PopCountPoints(primes);
    compositePoints := PopCountPoints(composites);
  }
}
