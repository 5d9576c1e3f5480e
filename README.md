# Prime/composite bit statistics: integer core

This project models, in Dafny, the integer part of `main.go` of a small Go
program. The program sorts the integers below a bound into primes and
composites, then compares the bit statistics of the two lists. What is
modelled and proved:

- **The incremental trial-division sieve.** It starts from the seeds `[2, 3]`. Every candidate `i` in `[4, bound)` is tested against the primes found so far, in ascending order. The test stops at the first prime above `floor(sqrt(i)) + 1`. A divisor makes `i` composite; otherwise `i` joins `primes` and becomes a divisor for later candidates. The source has two copies of this loop, one in `Corr`'s `process` and one in `CountBits`; both are the single method `Primes.Sieve`.
- **The population-count loop** of `CountBits`. It shifts a `uint64` right until it is zero and counts the 1-bits.
- **The per-bit set counts** that `corr` accumulates into `avg` before dividing them into means.
- **The gain loop's bookkeeping.** This is which cells of the `Bits x Bits` grid are counted, and which of them add their scale to the sum.

Modules: `Arith` (the `u64` range, powers of two, integer square root,
division facts), `Primes` (the sieve), `BitOps` (popcount and per-bit
counts), `Gain` (the cell loop), `Modes` (`process` and `CountBits`).

Modelling choices:
- The float limit `uint64(math.Sqrt(float64(i)) + 1)` is `ISqrt(i) + 1`. For every `i` below 2^52 the rounded float square root truncates to the exact integer square root, and the program's bounds stay at or below 2^24.
- `p & 1` and `p >>= 1` on a `uint64` become `p % 2` and `p / 2` on the newtype `u64`. For unsigned values they are the same operations.
- `(number >> i) & 1` is `Bit(number, i) = (number / 2^i) % 2`.
- The float test on each gain cell (`IsInf`, `IsNaN`, `> 20`) becomes a parameter `outlier: Cell -> bool`. The float `sum` becomes the sequence `summed` of the cells whose scale would be added.

Two facts about the code that the model makes explicit:
- The gain loop increments `count` for every retained cell before the outlier test (main.go:133-137), so excluded cells still count.
- Every prime except the seed 2 is odd, so 5 of the 6 primes below 16 have bit 0 set (`Modes.PrimesBitZero`).

## Model

| member | source | states |
|---|---|---|
| `Arith.ISqrt` | main.go:70 | the square-root limit: the result `r` satisfies `r*r <= n < (r+1)*(r+1)`, so it is floor(sqrt(n)) |
| `Primes.Sieve` | main.go:66-81 | the sieve (also the copy at 182-197) returns exactly `[2,3]` followed by the primes of `[4, bound)`, and exactly the non-primes of `[4, bound)`; with `bound <= 4` the loop never runs and the result is `[2,3]`, `[]` |
| `Primes.ClassifiedContents` | main.go:69-80 | the reference lists: exactly the numbers of `[lo, hi)` of the wanted kind, in strictly ascending order |
| `Primes.SievePrimesArePrimesBelow` | main.go:66-69 | from candidate 4 on, seeds plus found primes are the list of all primes below the candidate |
| `Primes.SievePrimesAt` | main.go:69-80 | the loop invariant: at candidate `i`, `primes` is strictly ascending and holds exactly the primes below `i`, each in `[2, i)` |
| `Primes.SieveStepPrime` | main.go:80 | a prime candidate is appended to `primes` and `composite` is unchanged |
| `Primes.SieveStepComposite` | main.go:75-77 | a composite candidate is appended to `composite` and `primes` is unchanged |
| `Primes.ScanProvesPrime` | main.go:70-74 | a scan that ends with no divisor found proves the candidate prime, both when it runs out of primes and when it breaks at a prime above `floor(sqrt(i)) + 1`: the early break never misses a divisor |
| `Primes.MinDivisorOfComposite` | main.go:70-74 | a composite's smallest divisor is below it and at most floor(sqrt(n)), which is why the limit suffices |
| `Primes.CompositeHasPrimeDivisor` | main.go:75-77 | every composite has a prime divisor smaller than itself |
| `Primes.SieveSound` | main.go:69-80 | every element of `primes` is prime; every element of `composite` has a prime divisor smaller than itself |
| `Primes.SievePartition` | main.go:69-80 | each candidate of `[4, bound)` is in exactly one list; the lists cover `[2, bound)`, are disjoint, and hold nothing outside the seeds and `[4, bound)` |
| `Primes.SieveAscending` | main.go:69-80 | both lists are strictly ascending, so neither has duplicates |
| `Primes.SieveSixteen` | main.go:66-81 | bound 16 gives primes `[2,3,5,7,11,13]` and composites `[4,6,8,9,10,12,14,15]`; 1 is in neither list and the first composite is 4 |
| `BitOps.Bit` | main.go:87 | `(n >> k) & 1` is 0 or 1 |
| `BitOps.PopCount` | main.go:202-208 | the loop terminates and returns the number of 1-bits of the input: the same as the count of positions below 64 whose bit is set, at most 64, and 0 exactly for input 0 |
| `BitOps.BitCountIsSetBits` | main.go:202-208 | for `n < 2^w`, counting bits by shifting equals counting the positions below `w` whose bit `(n >> k) & 1` is set, so the count is at most `w` |
| `BitOps.BitCountZero` | main.go:203 | the popcount is 0 exactly when the input is 0 |
| `BitOps.CountWithBit` | main.go:84-89 | the number of members with bit `k` set is at most the number of members |
| `BitOps.BitSetCounts` | main.go:84-89 | the set-count accumulator has one slot per bit position below `width`; slot `i` equals the number of `numbers` with bit `i` set, between 0 and `len(numbers)` |
| `BitOps.CountWithBitExtremes` | main.go:84-89 | a bit's count is 0 exactly when no member has it set, and `len(numbers)` exactly when all do (the zero-variance cases) |
| `BitOps.CountWithBitAppend` | main.go:85-89 | counts over a concatenation add up |
| `Gain.RowCellsContents` | main.go:129-132 | one row retains the cells with column in `[2, width)`, and none when the row is 0 or 1 |
| `Gain.GridCellsContents` | main.go:128-133 | the retained cells are exactly those with both indices in `[2, width)`: `(width-2)^2` of them for `width >= 2` |
| `Gain.KeptContents` | main.go:134-139 | the cells whose scale reaches `sum` are exactly the counted cells that are not outliers, never more than `count` |
| `Gain.KeptWithoutOutliers` | main.go:135-139 | with no outlier, every counted cell reaches `sum` |
| `Gain.GainCells` | main.go:127-139 | `count` ends at `(Bits-2)^2`, or 0 below 2, whatever the outlier test says; the cells summed are the retained non-outlier cells, in row-major order |
| `Modes.Process` | main.go:65-139 | `process(bits, max)`: the sieve lists below `max`, the per-bit set counts of both lists for every position below `bits`, the gain `count` and the summed cells |
| `Modes.PrimesBitZero` | main.go:84-89 | bit 0 is nearly constant over the primes: every prime except the seed 2 has bit 0 set, so its count is the number of primes minus one |
| `Modes.PopCountPoints` | main.go:201-210 | one point per number (also the copy at 234-243), pairing the number with its popcount, which is at most 64 |
| `Modes.CountBits` | main.go:181-243 | the primes and composites below `1 << 24` produced by the same `Primes.Sieve` as `process`, each paired with its popcount |

## Left out

- Floating-point statistics (main.go:90-122) are not modelled because they are IEEE-754 arithmetic. This covers the division of counts into means, the standard deviations, and the covariance normalised by `stddev[i]*stddev[ii]`, which can be Inf or NaN.
- The scale `|a/b|`, its `IsInf`/`IsNaN`/`> 20` test, the float `sum`, and `sum / count` (main.go:134-145) are not modelled for the same reason. The test is the `outlier` parameter, and the sum is represented by the cells that feed it.
- `linearRegression` (main.go:27-54) is float least-squares arithmetic, with an infinite-slope sentinel.
- The sweep over `bits` in `[8, Bits)` (main.go:148-152) is not modelled. Its only payload is float gains handed to the plotter; each iteration is one call of `Modes.Process`.
- Plotting and image export (main.go:153-170, 212-229, 245-262) are calls into the gonum plotting library and file I/O.
- Flag parsing, `main`'s dispatch (main.go:56-61, 266-278), and every console print are I/O.
- `Arith.ISqrt` models `uint64(math.Sqrt(float64(i)) + 1)` minus one as the exact integer square root. This agrees with the float value for the candidates the program uses (below 2^24). The model does not capture float rounding for candidates near 2^64.
- With `Max <= 4`, `process` computes statistics over an empty `composite` list, and the float divisions give NaN. The integer counts of that case are all zero in `BitOps.BitSetCounts`; the NaN is not modelled.
