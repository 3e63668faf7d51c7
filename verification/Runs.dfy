/** Induction along a run: what a property of single steps says about whole runs. */
module Runs {
  /** What every step keeps, the run keeps. */
  lemma {:induction false} Persists<S>(run: seq<S>, holds: S -> bool, i: nat, j: nat)
    requires i <= j < |run| && holds(run[i]) && forall k :: i < k <= j && holds(run[k - 1]) ==> holds(run[k])
    ensures holds(run[j])
  {
    if i < j {
      Persists(run, holds, i, j - 1);
    }
  }

  /** So it holds all the way. */
  lemma PersistsUpTo<S>(run: seq<S>, holds: S -> bool, i: nat, j: nat)
    requires i <= j < |run| && holds(run[i]) && forall k :: i < k <= j && holds(run[k - 1]) ==> holds(run[k])
    ensures forall k :: i <= k <= j ==> holds(run[k])
  {
    forall k | i <= k <= j
      ensures holds(run[k])
    {
      Persists(run, holds, i, k);
    }
  }

  /** What is set, and is cleared by one kind of step only, is clear iff such a step has happened. */
  lemma {:induction false} FallsIff<S>(run: seq<S>, bit: S -> bool, clears: (S, S) -> bool, i: nat, j: nat)
    requires i <= j < |run| && bit(run[i])
    requires forall k :: i < k <= j ==> bit(run[k]) == (bit(run[k - 1]) && !clears(run[k - 1], run[k]))
    ensures !bit(run[j]) <==> exists k :: i < k <= j && clears(run[k - 1], run[k])
  {
    if i < j {
      FallsIff(run, bit, clears, i, j - 1);
    }
  }
}
