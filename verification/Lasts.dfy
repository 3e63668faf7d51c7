/** A value that some elements of a list overwrite: the last one of them decides. */
module Lasts {
  /** Among the first `n` elements the i-th is the last hit. */
  predicate IsLast<A>(s: seq<A>, hits: A -> bool, n: nat, i: int) {
    0 <= i < n <= |s| && hits(s[i]) && forall j :: i < j < n ==> !hits(s[j])
  }

  predicate NoHit<A>(s: seq<A>, hits: A -> bool, n: nat) {
    n <= |s| && forall j :: 0 <= j < n ==> !hits(s[j])
  }

  /** `after` is what the first `n` elements make of `before`. */
  ghost predicate Decided<A, B>(before: B, s: seq<A>, hits: A -> bool, effect: A -> B, n: nat, after: B) {
    && (NoHit(s, hits, n) ==> after == before)
    && (forall i :: IsLast(s, hits, n, i) ==> after == effect(s[i]))
  }

  /** `state` goes through the elements one by one. */
  predicate GoesThrough<A, B(==)>(state: nat -> B, s: seq<A>, hits: A -> bool, effect: A -> B, k: nat) {
    k < |s| ==> state(k + 1) == if hits(s[k]) then effect(s[k]) else state(k)
  }

  lemma HitDecides<A, B>(before: B, s: seq<A>, hits: A -> bool, effect: A -> B, n: nat)
    requires n < |s| && hits(s[n])
    ensures Decided(before, s, hits, effect, n + 1, effect(s[n]))
  {
    var m := n + 1;
    assert forall i :: IsLast(s, hits, m, i) ==> i == n;
  }

  lemma MissKeeps<A, B>(before: B, s: seq<A>, hits: A -> bool, effect: A -> B, n: nat, after: B)
    requires n < |s| && !hits(s[n]) && Decided(before, s, hits, effect, n, after)
    ensures Decided(before, s, hits, effect, n + 1, after)
  {
    forall i | IsLast(s, hits, n + 1, i)
      ensures after == effect(s[i])
    {
      assert i != n;
      assert IsLast(s, hits, n, i);
    }
  }

  lemma {:induction false} LastDecides<A, B>(state: nat -> B, s: seq<A>, hits: A -> bool, effect: A -> B, n: nat)
    requires n <= |s| && forall k :: GoesThrough(state, s, hits, effect, k)
    ensures Decided(state(0), s, hits, effect, n, state(n))
  {
    if n > 0 {
      LastDecides(state, s, hits, effect, n - 1);
      assert GoesThrough(state, s, hits, effect, n - 1);
      if hits(s[n - 1]) {
        HitDecides(state(0), s, hits, effect, n - 1);
      } else {
        MissKeeps(state(0), s, hits, effect, n - 1, state(n - 1));
      }
    }
  }
}
