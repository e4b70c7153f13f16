# Partition numbers: Euler's pentagonal recurrence and Ramanujan's residue classes

This project models the integer part of the `sfh_partitions` module in Dafny:

- `partition_exact(n)` computes the partition number p(n) with Euler's
  generalized pentagonal-number recurrence. It is a loop over steps k = 1, 2, …
  that adds `sign * p(n - k(3k-1)/2)`, and also `sign * p(n - k(3k+1)/2)`
  when that argument is not negative. The loop stops at the first step whose
  smaller pentagonal number exceeds n. The recursive calls go through an
  unbounded `lru_cache`.
- `is_forbidden_configuration(n)` tests whether n lies in one of the residue
  classes 4 mod 5, 5 mod 7 or 6 mod 11. These are the classes of Ramanujan's
  congruences.
- `partition_info(n)` bundles these results into one record.

The model has four modules:

- `Pentagonal` (`pentagonal.dfy`): the generalized pentagonal numbers
  `Pent1(k) = k(3k-1)/2` and `Pent2(k) = k(3k+1)/2`, and the step sign. It
  proves the facts behind termination: the divisions are exact,
  Pent1(k) < Pent2(k) < Pent1(k+1), Pent1 is strictly increasing, and
  Pent1(k) >= k.
- `PartitionExact` (`partition_exact.dfy`):
  - `P` is the recursive specification of `partition_exact`. `PentSum` is the
    signed sum from step k on, `Step` is one pass of the loop, and `Partial`
    is the sum over the steps already done.
  - `SumFromTable` is the `while True` / `break` loop. Its recursive calls are
    answered from a table.
  - `PartitionTable` is the bottom-up table `t[0..n]`.
  - `PartitionCache` is the function together with its process-wide cache:
    a class whose `memo: map<int, int>` field the cached method `Exact`
    extends. `Exact` mirrors the source: it checks the cache first, then the
    base cases, then runs the loop with recursive cached calls, and then
    stores the result.
  - The known values of the partition sequence are proved here as well.
- `Congruences` (`congruences.dfy`): `IsForbidden` is proved equivalent to
  membership in the progressions 5k+4, 7k+5 and 11k+6. The lemmas also show
  that it depends only on the three residues and repeats with period 385.
- `PartitionInfo` (`partition_info.dfy`): the `Summary` record without its
  floating-point field, the pure `Info` function, and `CachedInfo`, which
  obtains the exact count through the shared cache as `partition_info` does.

Integers are unbounded, as Python's are. Python's `//` and `%` with a positive
divisor floor, and so do Dafny's Euclidean `/` and `%` for a positive divisor.
The model therefore uses them unchanged, also for negative `n` in the residue
tests. With this choice, a negative argument such as -1 (which is 4 mod 5)
counts as forbidden, exactly as in the source.

The module docstring says the exact counts come "via dynamic programming".
The code is a memoised recursion instead. The model follows the code, and it
adds the bottom-up table as a separate method proved to give the same values.

## Model

| member | source | states |
|---|---|---|
| `PartitionExact.PartitionCache.Exact` | sfh_partitions.py:19-42 | The cached call returns p(n) for every integer n, negative and zero included. Afterwards the cache holds only correct values and keeps every old entry unchanged. It then contains every argument in 0..n, and any key the call adds is n itself or lies in [0, n). |
| `PartitionExact.PartitionCache.constructor` | sfh_partitions.py:19 | The cache starts empty, and an empty cache satisfies the cache invariant. |
| `PartitionExact.SumFromTable` | sfh_partitions.py:30-42 | The `while True` loop, with each recursive call answered from a table of p(0..n-1), returns p(n). Its invariant is that `total` equals the signed sum over the steps 1..k-1. |
| `PartitionExact.PartitionTable` | sfh_partitions.py:19-42 | The bottom-up table is a freshly allocated array. Each entry is filled by the same loop from the entries below it, and the table satisfies t[i] == p(i) for every 0 <= i <= n. Memoisation therefore does not change any result. |
| `PartitionExact.CallsAgree` | sfh_partitions.py:19-42 | For any valid cache state, a first call, a repeated call and the bottom-up table all give the same value, p(n). Afterwards the cache keeps every old entry unchanged, contains every argument in 0..n, and has gained keys only in 0..n. |
| `PartitionExact.BaseCases` | sfh_partitions.py:25-28 | p(n) == 0 for every n < 0, and p(0) == 1. |
| `PartitionExact.Accumulate` | sfh_partitions.py:30-41 | The signed sum over the steps already done (1..k-1), plus the signed sum over the steps still to do (k on), equals the whole recurrence sum. |
| `PartitionExact.LoopExit` | sfh_partitions.py:35-36 | At the first step whose Pent1 exceeds n, the steps done so far add up to exactly p(n). |
| `PartitionExact.RecursiveArgumentsBelow` | sfh_partitions.py:38-40 | Every recursive argument n - pent1, and n - pent2 when pent2 <= n, lies in [0, n), with n - pent2 < n - pent1. |
| `PartitionExact.StepValue` | sfh_partitions.py:37-40 | A step adds its sign times both terms. It adds the pent2 term exactly when pent2 <= n, and when pent2 > n that term's p value is 0 anyway. |
| `PartitionExact.SmallRecurrence` | sfh_partitions.py:32-41 | For 1 <= n <= 20 only three steps are in range, so p(n) = p(n-1) + p(n-2) - p(n-5) - p(n-7) + p(n-12) + p(n-15). |
| `PartitionExact.KnownValues` | tests/test_partitions.py:7-9 | p(0) == 1, p(1) == 1 and p(4) == 5. |
| `PartitionExact.MatchesCanonicalSequence` | sfh_partitions.py:19-42 | For 0 <= i <= 20, p(i) matches the canonical partition sequence 1, 1, 2, 3, 5, 7, 11, 15, 22, 30, 42, 56, 77, 101, 135, 176, 231, 297, 385, 490, 627. |
| `Pentagonal.Sign` | sfh_partitions.py:37 | The sign is +1 or -1, and it is +1 exactly when k is odd. |
| `Pentagonal.Pent1Exact` | sfh_partitions.py:33 | k(3k-1) is even, so the floor division computing pent1 loses nothing. |
| `Pentagonal.PentSteps` | sfh_partitions.py:33-34 | pent2 = pent1 + k, and the next step's pent1 = pent2 + 2k + 1. |
| `Pentagonal.PentInterleave` | sfh_partitions.py:33-35 | For k >= 1, Pent1(k) < Pent2(k) < Pent1(k+1). The loop therefore never meets a pent2 it has skipped. |
| `Pentagonal.Pent1AtLeast` | sfh_partitions.py:33-36 | Pent1(k) >= k and Pent2(k) >= 2k. The loop therefore exits after at most n steps. |
| `Pentagonal.Pent1StrictlyIncreasing` | sfh_partitions.py:33-36 | Pent1 is strictly increasing in k, so the loop exits at the first k with Pent1(k) > n, and every earlier step was in range. |
| `Congruences.ForbiddenIffRamanujanForm` | sfh_partitions.py:61-76 | `is_forbidden_configuration(n)` holds iff n = 5k+4, n = 7k+5 or n = 11k+6 for some integer k. Both directions are proved, for negative n too. |
| `Congruences.ForbiddenByResidues` | sfh_partitions.py:70-76 | The predicate depends on n % 5, n % 7 and n % 11 and on nothing else. |
| `Congruences.ForbiddenPeriodic` | sfh_partitions.py:70-76 | Two integers congruent modulo 385 = 5 * 7 * 11 get the same classification. |
| `Congruences.KnownClassifications` | tests/test_partitions.py:18-21 | 4, 5 and 6 are forbidden, and 8 is not. |
| `PartitionInfo.Info` | sfh_partitions.py:89-94 | The record has `.n == n` and `.exact == p(n)`, and `.forbidden` holds iff n % 5 == 4, n % 7 == 5 or n % 11 == 6. |
| `PartitionInfo.CachedInfo` | sfh_partitions.py:82-94 | Built through the shared cache, the record equals `Info(n)`. Afterwards the cache stays valid and keeps every old entry unchanged. It then contains every argument in 0..n, and any key the call adds is n itself or lies in [0, n). |

## Left out

- `partition_asymptotic` (the Hardy–Ramanujan estimate) and the record's
  `asymptotic` field are floating point (`math.sqrt`, `math.exp`, `math.pi`).
  They are not modelled, and neither is the 5% relative-error test at n = 50.
- The model does not prove that partition counts are nonnegative or
  increasing, nor that Ramanujan's congruences hold. The code does not
  check these facts either, and proving them from the recurrence would need
  the pentagonal number theorem. The model is tied to actual partition
  counting only through the known values p(0..20).
- `lru_cache` as a library is not modelled. The model leaves out its
  bookkeeping, its thread safety and its (here unbounded) size policy; only
  its effect, an ever-growing map from argument to result, is modelled.
- Recursion depth and memory exhaustion for very large n are not modelled.
- The `__main__` demo loop, the example script that prints summaries, and
  the `unittest` harness are not modelled, since they only print or assert.
  The tests' expected values appear as lemmas instead.
