/** Generalized pentagonal numbers and the alternating sign that drive
    Euler's recurrence for the partition function.

    Python's `//` floors; for a positive divisor Dafny's Euclidean `/`
    floors too, so the two expressions below agree on every integer. */
module Pentagonal {

  /** The smaller pentagonal number of step k: k(3k-1)/2. */
  function Pent1(k: int): int {
    k * (3 * k - 1) / 2
  }

  /** The larger pentagonal number of step k: k(3k+1)/2. */
  function Pent2(k: int): int {
    k * (3 * k + 1) / 2
  }

  /** The sign of step k: minus for even k, plus for odd k. */
  function Sign(k: int): (s: int)
    ensures s == 1 || s == -1
    ensures s == 1 <==> k % 2 == 1
  {
    if k % 2 == 0 then -1 else 1
  }

  /** k(3k-1) is always even, so the division in Pent1 is exact. */
  lemma Pent1Exact(k: int)
    ensures 2 * Pent1(k) == k * (3 * k - 1)
  {
    var x := k * (3 * k - 1);
    var y: int;
    if k % 2 == 0 {
      var h := k / 2;
      y := h * (3 * k - 1);
      calc {
        x;
        (2 * h) * (3 * k - 1);
        2 * (h * (3 * k - 1));
      }
    } else {
      var h := (3 * k - 1) / 2;
      y := k * h;
      calc {
        x;
        k * (2 * h);
        2 * (k * h);
      }
    }
    assert x == 2 * y;
    assert x / 2 == y;
  }

  /** The two pentagonal numbers of a step, and the first one of the next
      step, are k and 2k+1 apart. */
  lemma PentSteps(k: int)
    ensures 2 * Pent1(k) == k * (3 * k - 1)
    ensures Pent2(k) == Pent1(k) + k
    ensures Pent1(k + 1) == Pent2(k) + 2 * k + 1
  {
    Pent1Exact(k);
    var a := k * (3 * k - 1);
    assert k * (3 * k + 1) == a + 2 * k;
    assert (k + 1) * (3 * (k + 1) - 1) == a + 2 * k + 2 * (2 * k + 1);
  }

  /** Strictly increasing pentagonal sequence:
      Pent1(k) < Pent2(k) < Pent1(k+1) for every step k >= 1. */
  lemma PentInterleave(k: int)
    requires 1 <= k
    ensures Pent1(k) < Pent2(k) < Pent1(k + 1)
  {
    PentSteps(k);
  }

  /** The step index never exceeds its pentagonal number, so a loop over k
      that stops at the first Pent1(k) > n runs at most n steps. */
  lemma {:induction false} Pent1AtLeast(k: nat)
    ensures Pent1(k) >= k
    ensures Pent2(k) >= 2 * k
  {
    PentSteps(k);
    if k > 0 {
      Pent1AtLeast(k - 1);
      PentSteps(k - 1);
    }
  }

  /** Pent1 is strictly increasing on the steps 0, 1, 2, … */
  lemma {:induction false} Pent1StrictlyIncreasing(j: nat, k: nat)
    requires j < k
    ensures Pent1(j) < Pent1(k)
  {
    PentSteps(k - 1);
    Pent1AtLeast(k - 1);
    if j < k - 1 {
      Pent1StrictlyIncreasing(j, k - 1);
    }
  }
}
