/** Picking some elements out of a list, in order. */
module Counting {
  /** Where the picked ones among the first `n` elements stand, and how many they are. */
  ghost function Places<A>(s: seq<A>, pick: A -> bool, n: nat): set<nat>
    requires n <= |s|
  {
    set i: nat | i < n && pick(s[i])
  }

  ghost function Before<A>(s: seq<A>, pick: A -> bool, n: nat): nat
    requires n <= |s|
  {
    |Places(s, pick, n)|
  }

  lemma BeforeStep<A>(s: seq<A>, pick: A -> bool, n: nat)
    requires n < |s|
    ensures Before(s, pick, n + 1) == Before(s, pick, n) + if pick(s[n]) then 1 else 0
  {
    var was := Places(s, pick, n);
    assert Places(s, pick, n + 1) == if pick(s[n]) then was + {n} else was;
  }

  lemma BeforePrefix<A>(s: seq<A>, pick: A -> bool, n: nat, m: nat)
    requires n <= m <= |s|
    ensures Before(s[..m], pick, n) == Before(s, pick, n)
  {
    assert Places(s[..m], pick, n) == Places(s, pick, n);
  }

  /** `out` holds one element for each one picked, at the place where it stands among those picked. */
  ghost predicate Picked<A, B>(s: seq<A>, pick: A -> bool, out: seq<B>, fits: (nat, B) -> bool) {
    && |out| == Before(s, pick, |s|)
    && forall i :: 0 <= i < |s| && pick(s[i]) ==> Before(s, pick, i) < |out| && fits(i, out[Before(s, pick, i)])
  }

  lemma PickedNone<A, B>(s: seq<A>, pick: A -> bool, fits: (nat, B) -> bool)
    requires s == []
    ensures Picked(s, pick, [], fits)
  {
    assert Places(s, pick, 0) == {};
  }

  lemma PickedWider<A, B>(s: seq<A>, pick: A -> bool, out: seq<B>, narrow: (nat, B) -> bool, wide: (nat, B) -> bool)
    requires Picked(s, pick, out, narrow) && forall i: nat, b: B :: i < |s| && narrow(i, b) ==> wide(i, b)
    ensures Picked(s, pick, out, wide)
  {
  }

  /** One element more, and what it adds. */
  lemma PickedSnoc<A, B>(s: seq<A>, pick: A -> bool, out: seq<B>, fits: (nat, B) -> bool, more: seq<B>)
    requires s != [] && Picked(s[..|s| - 1], pick, out, fits)
    requires if pick(s[|s| - 1]) then |more| == 1 && fits(|s| - 1, more[0]) else more == []
    ensures Picked(s, pick, out + more, fits)
  {
    var n := |s| - 1;
    BeforeStep(s, pick, n);
    BeforePrefix(s, pick, n, n);
    forall i | 0 <= i < |s| && pick(s[i])
      ensures Before(s, pick, i) < |out + more| && fits(i, (out + more)[Before(s, pick, i)])
    {
      if i < n {
        BeforePrefix(s, pick, i, n);
        assert s[..n][i] == s[i];
      }
    }
  }
}
