/** The "forbidden configuration" predicate: membership of n in one of the
    residue classes of Ramanujan's congruences p(5k+4) ≡ 0 (mod 5),
    p(7k+5) ≡ 0 (mod 7) and p(11k+6) ≡ 0 (mod 11).

    Python's `%` with a positive divisor returns a value in [0, d), also for
    negative n; Dafny's Euclidean `%` does the same, so it is used as is. */
module Congruences {

  /** The three residue tests, in the order the source makes them. */
  function IsForbidden(n: int): bool {
    if n % 5 == 4 then true
    else if n % 7 == 5 then true
    else if n % 11 == 6 then true
    else false
  }

  /** The number d*k + c of the arithmetic progression with step d and
      offset c. */
  function Form(d: int, k: int, c: int): int {
    d * k + c
  }

  /** n is of one of the forms 5k+4, 7k+5 or 11k+6 for some integer k. */
  ghost predicate RamanujanForm(n: int) {
    || (exists k :: Form(5, k, 4) == n)
    || (exists k :: Form(7, k, 5) == n)
    || (exists k :: Form(11, k, 6) == n)
  }

  /** A nonzero multiple of a positive d is at least d in absolute value. */
  lemma NonzeroMultiple(d: int, x: int)
    requires 0 < d
    ensures x >= 1 ==> d * x >= d
    ensures x <= -1 ==> d * x <= -d
  {
    if x >= 1 {
      assert d * x == d * (x - 1) + d;
      assert d * (x - 1) >= 0;
    } else if x <= -1 {
      assert d * x == d * (x + 1) - d;
      assert d * (x + 1) <= 0;
    }
  }

  /** Euclidean division is unique: n = d*k + c with 0 <= c < d fixes the
      quotient and the remainder. */
  lemma DivModUnique(n: int, d: int, k: int, c: int)
    requires 0 <= c < d && n == d * k + c
    ensures n / d == k && n % d == c
  {
    var q, r := n / d, n % d;
    assert n == d * q + r;
    assert d * (k - q) == d * k - d * q;
    NonzeroMultiple(d, k - q);
  }

  /** n lies in the progression d*k + c (0 <= c < d) exactly when n % d == c. */
  lemma InProgression(n: int, d: int, c: int)
    requires 0 <= c < d
    ensures (exists k :: Form(d, k, c) == n) <==> n % d == c
  {
    if n % d == c {
      assert Form(d, n / d, c) == n;
    }
    forall k | Form(d, k, c) == n
      ensures n % d == c
    {
      DivModUnique(n, d, k, c);
    }
  }

  /** The predicate classifies exactly the integers of the three forms named
      by Ramanujan's congruences, negative ones included. */
  lemma ForbiddenIffRamanujanForm(n: int)
    ensures IsForbidden(n) <==> RamanujanForm(n)
  {
    InProgression(n, 5, 4);
    InProgression(n, 7, 5);
    InProgression(n, 11, 6);
  }

  /** The predicate is a function of the three residues alone. */
  lemma ForbiddenByResidues(n: int, m: int)
    requires n % 5 == m % 5 && n % 7 == m % 7 && n % 11 == m % 11
    ensures IsForbidden(n) == IsForbidden(m)
  {
  }

  /** Residues modulo d are unchanged by adding a multiple of d. */
  lemma ShiftResidue(m: int, d: int, j: int)
    requires 0 < d
    ensures (m + d * j) % d == m % d
  {
    var q := m / d;
    assert m == d * q + m % d;
    assert d * q + d * j == d * (q + j);
    DivModUnique(m + d * j, d, q + j, m % d);
  }

  /** Hence the predicate repeats with period 5 * 7 * 11 = 385. */
  lemma ForbiddenPeriodic(n: int, m: int)
    requires (n - m) % 385 == 0
    ensures IsForbidden(n) == IsForbidden(m)
  {
    var q := (n - m) / 385;
    assert n == m + 385 * q;
    ShiftResidue(m, 5, 77 * q);
    ShiftResidue(m, 7, 55 * q);
    ShiftResidue(m, 11, 35 * q);
  }

  /** The values checked by the repository's tests. */
  lemma KnownClassifications()
    ensures IsForbidden(4) && IsForbidden(5) && IsForbidden(6)
    ensures !IsForbidden(8)
  {
  }
}
