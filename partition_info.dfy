/** The summary record `partition_info` builds for one argument, without
    its floating-point asymptotic field. */
module PartitionInfo {
  import opened PartitionExact
  import opened Congruences

  /** The fields of the summary: the argument, its exact partition count
      and whether it is a forbidden configuration. */
  datatype Summary = Summary(n: int, exact: int, forbidden: bool)

  /** The summary of n, each field computed independently of the others. */
  function Info(n: int): (s: Summary)
    ensures s.n == n
    ensures s.exact == P(n)
    ensures s.forbidden <==> n % 5 == 4 || n % 7 == 5 || n % 11 == 6
  {
    Summary(n, P(n), IsForbidden(n))
  }

  /** `partition_info` as the program runs it: the exact count comes from
      the shared cache, which the call may extend. */
  method CachedInfo(c: PartitionCache, n: int) returns (s: Summary)
    requires c.Valid()
    modifies c
    ensures c.Valid()
    ensures s == Info(n)
    ensures n in c.memo
    ensures forall m :: 0 <= m <= n ==> m in c.memo
    ensures forall m :: m in old(c.memo) ==> m in c.memo && c.memo[m] == old(c.memo)[m]
    ensures forall m :: m in c.memo && m !in old(c.memo) ==> m == n || 0 <= m < n
  {
    var exact := c.Exact(n);
    s := Summary(n, exact, IsForbidden(n));
  }
}
