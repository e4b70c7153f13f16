/** The partition function p(n) computed by Euler's pentagonal-number
    recurrence, as `partition_exact` does it: a recursive specification,
    the accumulating loop, a bottom-up table, and the shared memo cache. */
module PartitionExact {
  import opened Pentagonal

  /** p(n): 0 below zero, 1 at zero, otherwise the signed pentagonal sum. */
  function P(n: int): int
    decreases if n < 0 then 0 else n, if n < 0 then 0 else n + 1, 0
  {
    if n < 0 then 0
    else if n == 0 then 1
    else PentSum(n, 1)
  }

  /** The signed sum over steps k, k+1, … up to the first step whose
      smaller pentagonal number exceeds n. */
  function PentSum(n: nat, k: int): int
    requires 1 <= k
    decreases n, n + 1 - k, 1
  {
    if Pent1(k) > n then 0
    else
      Pent1AtLeast(k);
      Step(n, k) + PentSum(n, k + 1)
  }

  /** What one pass of the loop adds: the Pent1 term, and the Pent2 term
      only when Pent2(k) <= n. */
  function Step(n: nat, k: int): int
    requires 1 <= k && Pent1(k) <= n
    decreases n, n + 1 - k, 0
  {
    Pent1AtLeast(k);
    Sign(k) * P(n - Pent1(k))
      + (if Pent2(k) <= n then Sign(k) * P(n - Pent2(k)) else 0)
  }

  /** The signed sum over the steps 1 .. k-1 the loop has already done. */
  function Partial(n: nat, k: int): int
    requires 1 <= k
    requires k == 1 || Pent1(k - 1) <= n
    decreases k
  {
    if k == 1 then 0
    else
      EarlierStepsInRange(n, k - 1);
      Partial(n, k - 1) + Step(n, k - 1)
  }

  /** If step k is in range, so is the step before it. */
  lemma EarlierStepsInRange(n: nat, k: int)
    requires 1 <= k && Pent1(k) <= n
    ensures k == 1 || Pent1(k - 1) <= n
  {
    if k > 1 { Pent1StrictlyIncreasing(k - 1, k); }
  }

  /** Every argument the recurrence recurses on lies in [0, n). */
  lemma RecursiveArgumentsBelow(n: nat, k: int)
    requires 1 <= k && Pent1(k) <= n
    ensures 0 <= n - Pent1(k) < n
    ensures Pent2(k) <= n ==> 0 <= n - Pent2(k) < n - Pent1(k)
  {
    Pent1AtLeast(k);
    PentInterleave(k);
  }

  /** The steps done so far plus the steps still to do give the whole sum. */
  lemma {:induction false} Accumulate(n: nat, k: int)
    requires 1 <= k
    requires k == 1 || Pent1(k - 1) <= n
    ensures Partial(n, k) + PentSum(n, k) == PentSum(n, 1)
  {
    if k > 1 {
      EarlierStepsInRange(n, k - 1);
      Accumulate(n, k - 1);
    }
  }

  /** Once the loop has reached a step whose Pent1 exceeds n, the steps it
      has done are exactly p(n). */
  lemma LoopExit(n: nat, k: int)
    requires 0 < n && 1 <= k
    requires k == 1 || Pent1(k - 1) <= n
    requires Pent1(k) > n
    ensures Partial(n, k) == P(n)
  {
    Accumulate(n, k);
  }

  /** The body of `partition_exact` for n > 0 with every recursive call
      answered from a table of p(0) .. p(n-1). */
  method SumFromTable(n: nat, t: array<int>) returns (total: int)
    requires 0 < n <= t.Length
    requires forall j :: 0 <= j < n ==> t[j] == P(j)
    ensures total == P(n)
  {
    total := 0;
    var k := 1;
    while true
      invariant 1 <= k <= n + 1
      invariant k == 1 || Pent1(k - 1) <= n
      invariant total == Partial(n, k)
      decreases n + 1 - k
    {
      var pent1 := k * (3 * k - 1) / 2;
      var pent2 := k * (3 * k + 1) / 2;
      if pent1 > n {
        break;
      }
      RecursiveArgumentsBelow(n, k);
      Pent1AtLeast(k);
      var sign := if k % 2 == 0 then -1 else 1;
      total := total + sign * t[n - pent1];
      if pent2 <= n {
        total := total + sign * t[n - pent2];
      }
      k := k + 1;
    }
    LoopExit(n, k);
  }

  /** The bottom-up table t[0..n] that stands in for the memo cache: every
      entry is filled by the same recurrence from the entries below it, and
      every entry is p of its index. */
  method PartitionTable(n: nat) returns (t: array<int>)
    ensures fresh(t)
    ensures t.Length == n + 1
    ensures forall i :: 0 <= i <= n ==> t[i] == P(i)
  {
    t := new int[n + 1];
    t[0] := 1;
    var i := 1;
    while i <= n
      invariant 1 <= i <= n + 1
      invariant forall j :: 0 <= j < i ==> t[j] == P(j)
    {
      var v := SumFromTable(i, t);
      t[i] := v;
      i := i + 1;
    }
  }

  /** `partition_exact` together with its process-wide, never-evicted
      cache: `memo` maps every argument seen so far to its result. */
  class PartitionCache {
    var memo: map<int, int>

    /** A cached value is never wrong, and a cached argument n >= 0 comes
        with every argument in 0 .. n, since computing p(n) needs p(n-1). */
    ghost predicate Valid()
      reads this
    {
      && (forall m :: m in memo ==> memo[m] == P(m))
      && (forall m, j :: m in memo && 0 <= j <= m ==> j in memo)
    }

    constructor ()
      ensures Valid() && memo == map[]
    {
      memo := map[];
    }

    /** One call of the cached function: a hit answers from the cache; a
        miss runs the base cases or the loop, whose recursive calls go
        through the same cache, and then stores the result. */
    method Exact(n: int) returns (r: int)
      requires Valid()
      modifies this
      ensures Valid()
      ensures r == P(n)
      ensures n in memo
      ensures forall m :: 0 <= m <= n ==> m in memo
      ensures forall m :: m in old(memo) ==> m in memo && memo[m] == old(memo)[m]
      ensures forall m :: m in memo && m !in old(memo) ==> m == n || 0 <= m < n
      decreases if n < 0 then 0 else n
    {
      if n in memo {
        return memo[n];
      }
      if n < 0 {
        r := 0;
      } else if n == 0 {
        r := 1;
      } else {
        var total := 0;
        var k := 1;
        while true
          invariant Valid()
          invariant 1 <= k <= n + 1
          invariant k == 1 || Pent1(k - 1) <= n
          invariant total == Partial(n, k)
          invariant forall m :: m in old(memo) ==> m in memo && memo[m] == old(memo)[m]
          invariant forall m :: m in memo && m !in old(memo) ==> 0 <= m < n
          invariant k > 1 ==> forall m :: 0 <= m < n ==> m in memo
          decreases n + 1 - k
        {
          var pent1 := k * (3 * k - 1) / 2;
          var pent2 := k * (3 * k + 1) / 2;
          if pent1 > n {
            break;
          }
          RecursiveArgumentsBelow(n, k);
          Pent1AtLeast(k);
          var sign := if k % 2 == 0 then -1 else 1;
          var a := Exact(n - pent1);
          total := total + sign * a;
          if pent2 <= n {
            var b := Exact(n - pent2);
            total := total + sign * b;
          }
          k := k + 1;
        }
        LoopExit(n, k);
        r := total;
      }
      memo := memo[n := r];
    }
  }

  /** Memoisation is transparent: whatever the cache holds, a first call, a
      repeated call and the bottom-up table give the same value. */
  method CallsAgree(c: PartitionCache, n: nat) returns (first: int, again: int, tabulated: int)
    requires c.Valid()
    modifies c
    ensures c.Valid()
    ensures first == again == tabulated == P(n)
    ensures forall m :: 0 <= m <= n ==> m in c.memo
    ensures forall m :: m in old(c.memo) ==> m in c.memo && c.memo[m] == old(c.memo)[m]
    ensures forall m :: m in c.memo && m !in old(c.memo) ==> 0 <= m <= n
  {
    first := c.Exact(n);
    again := c.Exact(n);
    var t := PartitionTable(n);
    tabulated := t[n];
  }

  /** The conventions for the base cases: zero below zero, one at zero. */
  lemma BaseCases(n: int)
    ensures n < 0 ==> P(n) == 0
    ensures P(0) == 1
  {
  }

  /** The values checked by the repository's tests. */
  lemma KnownValues()
    ensures P(0) == 1 && P(1) == 1 && P(4) == 5
  {
  }

  /** The `pent2 <= n` guard only skips a term that is zero anyway, since p
      is zero below zero: each step adds its sign times both terms. */
  lemma StepValue(n: nat, k: int)
    requires 1 <= k && Pent1(k) <= n
    ensures Step(n, k) == Sign(k) * (P(n - Pent1(k)) + P(n - Pent2(k)))
  {
  }

  /** One unfolding of the signed sum at a step that is in range. */
  lemma PentSumUnfold(n: nat, k: int)
    requires 1 <= k && Pent1(k) <= n
    ensures PentSum(n, k) == Sign(k) * (P(n - Pent1(k)) + P(n - Pent2(k))) + PentSum(n, k + 1)
  {
    StepValue(n, k);
  }

  /** The pentagonal numbers and signs of the first four steps. */
  lemma FirstSteps()
    ensures Pent1(1) == 1 && Pent2(1) == 2
    ensures Pent1(2) == 5 && Pent2(2) == 7
    ensures Pent1(3) == 12 && Pent2(3) == 15
    ensures Pent1(4) == 22
    ensures Sign(1) == 1 && Sign(2) == -1 && Sign(3) == 1
  {
  }

  /** Below 22 only the first three steps are in range, so the recurrence
      is the six-term sum p(n-1) + p(n-2) - p(n-5) - p(n-7) + p(n-12) + p(n-15). */
  lemma SmallRecurrence(n: int)
    requires 1 <= n <= 20
    ensures P(n) == P(n - 1) + P(n - 2) - P(n - 5) - P(n - 7) + P(n - 12) + P(n - 15)
  {
    FirstSteps();
    PentSumUnfold(n, 1);
    if n < 5 {
      assert PentSum(n, 2) == 0;
    } else {
      PentSumUnfold(n, 2);
      if n < 12 {
        assert PentSum(n, 3) == 0;
      } else {
        PentSumUnfold(n, 3);
        assert PentSum(n, 4) == 0;
      }
    }
  }

  /** The first twenty-one partition numbers, p(0) .. p(20). */
  const Canonical: seq<int> :=
    [1, 1, 2, 3, 5, 7, 11, 15, 22, 30, 42, 56, 77, 101, 135, 176, 231, 297, 385, 490, 627]

  /** The canonical sequence, read as zero outside its range. */
  function CanonicalAt(j: int): int {
    if 0 <= j < |Canonical| then Canonical[j] else 0
  }

  /** The canonical sequence obeys the same six-term sum. */
  lemma CanonicalRecurrence(m: int)
    requires 1 <= m <= 20
    ensures CanonicalAt(m) == CanonicalAt(m - 1) + CanonicalAt(m - 2) - CanonicalAt(m - 5)
      - CanonicalAt(m - 7) + CanonicalAt(m - 12) + CanonicalAt(m - 15)
  {
  }

  /** Agreement on 0 .. m-1 extends to every argument below m, since both
      are zero below zero. */
  lemma AgreesBelow(m: int, j: int)
    requires m <= |Canonical|
    requires forall i :: 0 <= i < m ==> P(i) == Canonical[i]
    requires j < m
    ensures P(j) == CanonicalAt(j)
  {
  }

  /** The recurrence reproduces the canonical partition sequence on 0 .. m. */
  lemma {:induction false} MatchesCanonicalSequence(m: int)
    requires 0 <= m <= 20
    ensures forall i :: 0 <= i <= m ==> P(i) == Canonical[i]
  {
    if m > 0 {
      MatchesCanonicalSequence(m - 1);
      SmallRecurrence(m);
      CanonicalRecurrence(m);
      assert CanonicalAt(m) == Canonical[m];
      AgreesBelow(m, m - 1);
      AgreesBelow(m, m - 2);
      AgreesBelow(m, m - 5);
      AgreesBelow(m, m - 7);
      AgreesBelow(m, m - 12);
      AgreesBelow(m, m - 15);
    }
  }
}
