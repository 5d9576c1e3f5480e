/** The incremental trial-division sieve that `Corr`'s `process` and
    `CountBits` both run: seeded with [2, 3], it classifies every candidate
    in [4, bound) as prime or composite by testing the primes found so far. */
module Primes {
  import opened Arith

  /** n has no divisor strictly between 1 and itself. */
  ghost predicate IsPrime(n: nat)
  {
    n >= 2 && forall d :: 2 <= d < n ==> n % d != 0
  }

  /** The primes (wantPrime) or the non-primes (!wantPrime) of [lo, hi), in
      ascending order. */
  ghost function Classified(lo: nat, hi: nat, wantPrime: bool): seq<nat>
    decreases hi
  {
    if hi <= lo then []
    else Classified(lo, hi - 1, wantPrime) + (if IsPrime(hi - 1) == wantPrime then [hi - 1] else [])
  }

  /** What the sieve's `primes` holds once every candidate below `bound` has
      been examined: the seeds, then the primes it found. */
  ghost function SievePrimes(bound: nat): seq<nat>
  {
    [2, 3] + Classified(4, bound, true)
  }

  /** What the sieve's `composite` holds at the same point. */
  ghost function SieveComposites(bound: nat): seq<nat>
  {
    Classified(4, bound, false)
  }

  /** d is a nonzero divisor of n: the test `n%d == 0` for a prime d. */
  predicate Divides(d: nat, n: nat)
  {
    d != 0 && n % d == 0
  }

  predicate StrictlyAscending(s: seq<nat>)
  {
    forall j, k :: 0 <= j < k < |s| ==> s[j] < s[k]
  }

  /** What `Classified` holds: exactly the numbers of [lo, hi) of the wanted
      kind, in strictly ascending order. */
  lemma {:induction false} ClassifiedContents(lo: nat, hi: nat, wantPrime: bool)
    ensures StrictlyAscending(Classified(lo, hi, wantPrime))
    ensures forall n: nat :: n in Classified(lo, hi, wantPrime) <==> lo <= n < hi && IsPrime(n) == wantPrime
    decreases hi
  {
    if hi > lo {
      var prev := Classified(lo, hi - 1, wantPrime);
      ClassifiedContents(lo, hi - 1, wantPrime);
      assert forall k :: 0 <= k < |prev| ==> prev[k] < hi - 1 by {
        forall k | 0 <= k < |prev| ensures prev[k] < hi - 1 {
          assert prev[k] in prev;
        }
      }
    }
  }

  /** The smallest divisor of n that is at least d. */
  function MinDivisorFrom(n: nat, d: nat): (r: nat)
    requires 2 <= d <= n
    ensures d <= r <= n && n % r == 0
    ensures forall e :: d <= e < r ==> n % e != 0
    decreases n - d
  {
    if n % d == 0 then d else MinDivisorFrom(n, d + 1)
  }

  lemma DividesTrans(e: nat, r: nat, n: nat)
    requires e > 0 && r > 0 && r % e == 0 && n % r == 0
    ensures n % e == 0
  {
    var t, q := r / e, n / r;
    assert r == e * t;
    assert n == r * q == e * (t * q);
    DivUnique(n, e, t * q, 0);
  }

  /** The smallest divisor above 1 of any n >= 2 is prime. */
  lemma MinDivisorIsPrime(n: nat)
    requires n >= 2
    ensures IsPrime(MinDivisorFrom(n, 2))
  {
    var r := MinDivisorFrom(n, 2);
    forall e | 2 <= e < r
      ensures r % e != 0
    {
      if r % e == 0 {
        DividesTrans(e, r, n);
      }
    }
  }

  /** A composite n has its smallest divisor at or below floor(sqrt(n)). */
  lemma MinDivisorOfComposite(n: nat)
    requires n >= 2 && !IsPrime(n)
    ensures MinDivisorFrom(n, 2) < n
    ensures MinDivisorFrom(n, 2) <= ISqrt(n)
  {
    var r := MinDivisorFrom(n, 2);
    var d :| 2 <= d < n && n % d == 0;
    assert r <= d;
    var q := n / r;
    CofactorBounds(n, r, q);
    DivUnique(n, q, r, 0);
    assert q >= r;
    MulMono(r, r, q);
    BelowISqrt(r, n);
  }

  lemma CofactorBounds(n: nat, r: nat, q: nat)
    requires 2 <= r < n && n % r == 0 && q == n / r
    ensures n == q * r && 2 <= q < n
  {
    assert n == r * q;
    assert r * q >= 2 * q;
  }

  lemma MulMono(a: nat, b: nat, c: nat)
    requires b <= c
    ensures a * b <= a * c
  {
  }

  /** Every composite has a prime divisor smaller than itself. */
  lemma {:induction false} CompositeHasPrimeDivisor(n: nat)
    requires n >= 2 && !IsPrime(n)
    ensures exists p :: 2 <= p < n && IsPrime(p) && n % p == 0
  {
    MinDivisorIsPrime(n);
    MinDivisorOfComposite(n);
    var p := MinDivisorFrom(n, 2);
    assert 2 <= p < n && IsPrime(p) && n % p == 0;
  }

  /** The seeds [2, 3] are the primes below 4, so `primes` is the list of all
      primes below the current candidate. */
  lemma {:induction false} SievePrimesArePrimesBelow(i: nat)
    requires i >= 4
    ensures SievePrimes(i) == Classified(2, i, true)
    decreases i
  {
    if i == 4 {
      assert IsPrime(2) && IsPrime(3);
      assert Classified(2, 2, true) == [];
      assert Classified(2, 3, true) == [2];
      assert Classified(4, 4, true) == [];
    } else {
      SievePrimesArePrimesBelow(i - 1);
    }
  }

  /** The loop invariant at candidate i, spelled out: `primes` is strictly
      ascending and holds exactly the primes below i. */
  lemma SievePrimesAt(i: nat)
    requires i >= 4
    ensures StrictlyAscending(SievePrimes(i))
    ensures forall n: nat :: n in SievePrimes(i) <==> n < i && IsPrime(n)
    ensures forall k :: 0 <= k < |SievePrimes(i)| ==> 2 <= SievePrimes(i)[k] < i
  {
    SievePrimesArePrimesBelow(i);
    ClassifiedContents(2, i, true);
    forall k | 0 <= k < |SievePrimes(i)|
      ensures 2 <= SievePrimes(i)[k] < i
    {
      assert SievePrimes(i)[k] in SievePrimes(i);
    }
  }

  /** Examining a prime candidate i appends it to `primes`. */
  lemma SieveStepPrime(i: nat)
    requires i >= 4 && IsPrime(i)
    ensures SievePrimes(i + 1) == SievePrimes(i) + [i]
    ensures SieveComposites(i + 1) == SieveComposites(i)
  {
  }

  /** Examining a composite candidate i appends it to `composite`. */
  lemma SieveStepComposite(i: nat)
    requires i >= 4 && !IsPrime(i)
    ensures SievePrimes(i + 1) == SievePrimes(i)
    ensures SieveComposites(i + 1) == SieveComposites(i) + [i]
  {
  }

  /** When the scan of `primes` stops, either because it ran out of primes
      or because the next prime exceeds floor(sqrt(i)) + 1, having found no
      divisor, then i is prime: the early stop never misses a divisor. */
  lemma {:induction false} ScanProvesPrime(i: nat, j: nat)
    requires i >= 4
    requires j <= |SievePrimes(i)|
    requires forall k :: 0 <= k < j ==> !Divides(SievePrimes(i)[k], i)
    requires j == |SievePrimes(i)| || SievePrimes(i)[j] > ISqrt(i) + 1
    ensures IsPrime(i)
  {
    SievePrimesAt(i);
    if !IsPrime(i) {
      MinDivisorIsPrime(i);
      MinDivisorOfComposite(i);
    }
  }

  /** The sieve. Both copies in the source (inside `process` and in
      `CountBits`) are this loop; `limit` is `uint64(math.Sqrt(float64(i)) + 1)`. */
  method Sieve(bound: u64) returns (primes: seq<nat>, composites: seq<nat>)
    ensures primes == SievePrimes(bound as nat)
    ensures composites == SieveComposites(bound as nat)
    ensures bound <= 4 ==> primes == [2, 3] && composites == []
  {
    primes := [2, 3];
    composites := [];
    var hi := if bound < 4 then 4 else bound as int;
    label Search:
    for i := 4 to hi
      invariant primes == SievePrimes(i)
      invariant composites == SieveComposites(i)
    {
      SievePrimesAt(i);
      var limit := ISqrt(i) + 1;
      var j := 0;
      while j < |primes|
        invariant j <= |primes|
        invariant forall k :: 0 <= k < j ==> !Divides(primes[k], i)
      {
        var prime := primes[j];
        if prime > limit {
          break;
        }
        if i % prime == 0 {
          assert !IsPrime(i);
          SieveStepComposite(i);
          composites := composites + [i];
          continue Search;
        }
        j := j + 1;
      }
      ScanProvesPrime(i, j);
      SieveStepPrime(i);
      primes := primes + [i];
    }
  }

  /** Soundness: everything in `primes` is prime, and everything in
      `composite` has a prime divisor smaller than itself. */
  lemma SieveSound(bound: nat)
    ensures forall n :: n in SievePrimes(bound) ==> IsPrime(n)
    ensures forall n :: n in SieveComposites(bound) ==>
              exists p :: 2 <= p < n && IsPrime(p) && n % p == 0
  {
    assert IsPrime(2) && IsPrime(3);
    ClassifiedContents(4, bound, true);
    ClassifiedContents(4, bound, false);
    forall n | n in SieveComposites(bound)
      ensures exists p :: 2 <= p < n && IsPrime(p) && n % p == 0
    {
      CompositeHasPrimeDivisor(n);
    }
  }

  /** Every candidate of [4, bound) lands in exactly one of the two lists;
      with the seeds they cover [2, bound), and nothing else is in them. */
  lemma SievePartition(bound: nat)
    ensures forall n: nat :: 4 <= n < bound ==> (n in SievePrimes(bound) <==> n !in SieveComposites(bound))
    ensures forall n: nat :: 2 <= n < bound ==> n in SievePrimes(bound) || n in SieveComposites(bound)
    ensures forall n: nat :: !(n in SievePrimes(bound) && n in SieveComposites(bound))
    ensures forall n: nat :: n in SievePrimes(bound) ==> n == 2 || n == 3 || 4 <= n < bound
    ensures forall n: nat :: n in SieveComposites(bound) ==> 4 <= n < bound
  {
    ClassifiedContents(4, bound, true);
    ClassifiedContents(4, bound, false);
    assert IsPrime(2) && IsPrime(3);
  }

  /** Both lists are strictly ascending, hence free of duplicates. */
  lemma SieveAscending(bound: nat)
    ensures StrictlyAscending(SievePrimes(bound))
    ensures StrictlyAscending(SieveComposites(bound))
  {
    var found := Classified(4, bound, true);
    ClassifiedContents(4, bound, true);
    ClassifiedContents(4, bound, false);
    forall k | 0 <= k < |found|
      ensures 4 <= found[k]
    {
      assert found[k] in found;
    }
    var ps := SievePrimes(bound);
    forall j, k | 0 <= j < k < |ps|
      ensures ps[j] < ps[k]
    {
      if k >= 2 {
        assert ps[k] == found[k - 2];
        if j >= 2 {
          assert ps[j] == found[j - 2];
        }
      }
    }
  }

  lemma SmallComposites()
    ensures !IsPrime(4) && !IsPrime(6) && !IsPrime(8) && !IsPrime(9)
    ensures !IsPrime(10) && !IsPrime(12) && !IsPrime(14) && !IsPrime(15)
  {
    assert 4 % 2 == 0 && 6 % 2 == 0 && 8 % 2 == 0 && 9 % 3 == 0;
    assert 10 % 2 == 0 && 12 % 2 == 0 && 14 % 2 == 0 && 15 % 3 == 0;
  }

  lemma SmallPrimes()
    ensures IsPrime(5) && IsPrime(7) && IsPrime(11) && IsPrime(13)
  {
  }

  /** The run with bound 16: primes [2, 3, 5, 7, 11, 13], composites
      [4, 6, 8, 9, 10, 12, 14, 15]. */
  lemma SieveSixteen()
    ensures SievePrimes(16) == [2, 3, 5, 7, 11, 13]
    ensures SieveComposites(16) == [4, 6, 8, 9, 10, 12, 14, 15]
  {
    SmallComposites();
    SmallPrimes();
    assert SievePrimes(4) == [2, 3] && SieveComposites(4) == [];
    SieveStepComposite(4);
    SieveStepPrime(5);
    SieveStepComposite(6);
    SieveStepPrime(7);
    SieveStepComposite(8);
    SieveStepComposite(9);
    SieveStepComposite(10);
    SieveStepPrime(11);
    SieveStepComposite(12);
    SieveStepPrime(13);
    SieveStepComposite(14);
    SieveStepComposite(15);
  }
}
