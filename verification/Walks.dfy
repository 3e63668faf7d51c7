/** The successor walk from one key towards another, and exactly when it arrives. */
module Walks {
  import opened ByteStrings
  import opened Keys
  import opened Wrappers

  datatype WalkEnd = Reached | OutOfTime | NoNext

  /** How the walk gets from a key to the one after it; None is a panic. */
  type Stepper = Key -> Option<Key>

  function Successor(): Stepper {
    (k: Key) => k.Next()
  }

  /** The keys that the loop `for curr := from; !curr.Equals(to); curr = curr.Next()` visits when the context is
      found alive `life` times: the keys, and why the walk ended. */
  function Walk(next: Stepper, curr: Key, to: Key, life: nat): (seq<Key>, WalkEnd)
    decreases life
  {
    if curr == to then ([], Reached)
    else if life == 0 then ([], OutOfTime)
    else match next(curr)
      case None => ([curr], NoNext)
      case Some(k) =>
        var rest := Walk(next, k, to, life - 1);
        ([curr] + rest.0, rest.1)
  }

  // ---- Every walk ----

  /** One step of a walk that has time left. */
  lemma WalkStep(next: Stepper, curr: Key, to: Key, life: nat)
    requires curr != to && life > 0 && next(curr).Some?
    ensures var rest := Walk(next, next(curr).value, to, life - 1);
      Walk(next, curr, to, life) == ([curr] + rest.0, rest.1)
  {
  }

  /** More time changes nothing once a walk has ended, and otherwise only adds keys. */
  lemma {:induction false} WalkMonotone(next: Stepper, from: Key, to: Key, life: nat, more: nat)
    requires life <= more
    ensures Walk(next, from, to, life).1 != OutOfTime ==> Walk(next, from, to, more) == Walk(next, from, to, life)
    ensures Walk(next, from, to, life).0 <= Walk(next, from, to, more).0
    decreases life
  {
    if from != to && life > 0 && next(from).Some? {
      WalkMonotone(next, next(from).value, to, life - 1, more - 1);
    }
  }

  lemma {:induction false} WalkIsShort(next: Stepper, from: Key, to: Key, life: nat)
    ensures |Walk(next, from, to, life).0| <= life
    decreases life
  {
    if from != to && life > 0 && next(from).Some? {
      WalkIsShort(next, next(from).value, to, life - 1);
    }
  }

  lemma WalkOpens(next: Stepper, from: Key, to: Key, life: nat, keys: seq<Key>)
    requires Walk(next, from, to, life) == (keys, Reached) && keys != []
    ensures life > 0 && next(from).Some? && keys[0] == from
    ensures Walk(next, next(from).value, to, life - 1) == (keys[1..], Reached)
  {
  }

  /** What is left of a walk that arrives is the walk from there. */
  lemma {:induction false} WalkSuffix(next: Stepper, from: Key, to: Key, life: nat, keys: seq<Key>, i: nat)
    requires Walk(next, from, to, life) == (keys, Reached) && i < |keys| <= life
    ensures Walk(next, keys[i], to, life - i) == (keys[i..], Reached)
    decreases i
  {
    WalkOpens(next, from, to, life, keys);
    if i == 0 {
      assert keys[0..] == keys;
    } else {
      var rest := keys[1..];
      WalkSuffix(next, next(from).value, to, life - 1, rest, i - 1);
      assert rest[i - 1] == keys[i] && rest[i - 1..] == keys[i..];
    }
  }

  /** A walk that arrives meets no key twice, wrapping around or not: from a key met again it would go round for ever. */
  lemma WalkVisitsOnce(next: Stepper, from: Key, to: Key, life: nat, keys: seq<Key>, i: nat, j: nat)
    requires Walk(next, from, to, life) == (keys, Reached) && i < j < |keys|
    ensures keys[i] != keys[j]
  {
    WalkIsShort(next, from, to, life);
    WalkSuffix(next, from, to, life, keys, i);
    WalkSuffix(next, from, to, life, keys, j);
    WalkMonotone(next, keys[j], to, life - j, life - i);
    assert |keys[i..]| != |keys[j..]|;
  }

  // ---- Arrival ----

  ghost predicate Reaches(from: Key, to: Key) {
    exists life: nat :: Walk(Successor(), from, to, life).1 == Reached
  }

  lemma BytesHaveNext(b: bytes)
    ensures BytesKey(b).Next().Some? && BytesKey(b).Next().value.BytesKey?
    ensures Minimal(BytesKey(b).Next().value.b) && Value(BytesKey(b).Next().value.b) == Value(b) + 1
  {
    ValueOfMinBytes(Value(b) + 1);
  }

  /** Counting byte keys. */
  ghost predicate CountsBytes(next: Stepper) {
    forall k: Key {:trigger next(k)} :: k.BytesKey? ==>
      next(k).Some? && next(k).value.BytesKey? && Minimal(next(k).value.b) && Value(next(k).value.b) == Value(k.b) + 1
  }

  lemma SuccessorCountsBytes()
    ensures CountsBytes(Successor())
  {
    forall k: Key | k.BytesKey?
      ensures Successor()(k).Some? && Successor()(k).value.BytesKey?
      ensures Minimal(Successor()(k).value.b) && Value(Successor()(k).value.b) == Value(k.b) + 1
    {
      BytesHaveNext(k.b);
    }
  }

  lemma {:induction false} WalkArrives(next: Stepper, from: Key, to: Key, steps: nat)
    requires CountsBytes(next) && from.BytesKey? && to.BytesKey? && Minimal(to.b) && Value(from.b) + steps == Value(to.b)
    requires steps == 0 ==> from == to
    ensures Walk(next, from, to, steps).1 == Reached && |Walk(next, from, to, steps).0| == steps
    decreases steps
  {
    if steps > 0 {
      var k := next(from).value;
      if steps == 1 {
        SameMinimal(k.b, to.b);
      }
      WalkStep(next, from, to, steps);
      WalkArrives(next, k, to, steps - 1);
    }
  }

  lemma {:induction false} ArrivalIsAhead(next: Stepper, from: Key, to: Key, life: nat)
    requires CountsBytes(next) && from.BytesKey? && Walk(next, from, to, life).1 == Reached
    ensures from == to || (to.BytesKey? && Minimal(to.b) && Value(from.b) < Value(to.b))
    decreases life
  {
    if from != to {
      ArrivalIsAhead(next, next(from).value, to, life - 1);
    }
  }

  /** Over byte keys the walk arrives iff it is there already, or the target is larger and has no leading zero. */
  lemma BytesWalkReachesIff(from: bytes, to: bytes)
    ensures Reaches(BytesKey(from), BytesKey(to)) <==> from == to || (Minimal(to) && Value(from) < Value(to))
  {
    SuccessorCountsBytes();
    if from == to {
      assert Walk(Successor(), BytesKey(from), BytesKey(to), 0).1 == Reached;
    } else if Minimal(to) && Value(from) < Value(to) {
      WalkArrives(Successor(), BytesKey(from), BytesKey(to), Value(to) - Value(from));
    } else if Reaches(BytesKey(from), BytesKey(to)) {
      var life: nat :| Walk(Successor(), BytesKey(from), BytesKey(to), life).1 == Reached;
      ArrivalIsAhead(Successor(), BytesKey(from), BytesKey(to), life);
    }
  }

  /** Over numbers the walk always arrives, after (to - from) mod 2^32 keys. */
  lemma {:induction false} Uint32WalkReaches(from: uint32, to: uint32)
    ensures var steps: nat := (to - from) % 0x1_0000_0000;
      var walk := Walk(Successor(), Uint32Key(from), Uint32Key(to), steps);
      walk.1 == Reached && |walk.0| == steps
    decreases (to - from) % 0x1_0000_0000
  {
    if from != to {
      var k := (from + 1) % 0x1_0000_0000;
      assert (to - from) % 0x1_0000_0000 > 0;
      assert (to - k) % 0x1_0000_0000 == (to - from) % 0x1_0000_0000 - 1;
      Uint32WalkReaches(k, to);
    }
  }

  // ---- Hash keys ----

  /** Neither key keeps Next from going round. */
  predicate Walkable(from: hash, to: hash, len: nat)
    requires len > 0
  {
    Value(from) + 1 >= Pow256(len - 1) && Value(to) >= Pow256(len - 1)
  }

  lemma HashWalkByLength(from: hash, to: hash, len: nat)
    requires len == |from|
    ensures Reaches(HashKey(from), HashKey(to)) <==> from == to || Walkable(from, to, len)
  {
    if from == to {
      assert Walk(Successor(), HashKey(from), HashKey(to), 0).1 == Reached;
    } else if Walkable(from, to, len) {
      HashWalkArrives(from, to, len, if Value(from) < Value(to) then 0 else 1);
    } else if Reaches(HashKey(from), HashKey(to)) {
      var life: nat :| Walk(Successor(), HashKey(from), HashKey(to), life).1 == Reached;
      HashArrivalIsHigh(from, to, len, life);
    }
  }

  lemma WalkableHashes(from: hash, to: hash)
    ensures Walkable(from, to, |from|) <==> Value(from) + 1 >= Pow256(31) && Value(to) >= Pow256(31)
  {
  }

  /** Over hash keys the walk arrives iff it is there already, or both can be walked: Next neither panics below
      2^248 - 1 nor leaves [2^248, 2^256), inside which it goes round. */
  lemma HashWalkReachesIff(from: hash, to: hash)
    ensures Reaches(HashKey(from), HashKey(to)) <==>
      from == to || (Value(from) + 1 >= Pow256(31) && Value(to) >= Pow256(31))
  {
    HashWalkByLength(from, to, |from|);
    WalkableHashes(from, to);
  }

  lemma HashNextIsHigh(h: hash, len: nat)
    requires len == |h| && HashKey(h).Next().Some?
    ensures Value(h) + 1 >= Pow256(len - 1) && Value(HashKey(h).Next().value.h) >= Pow256(len - 1)
  {
    HashNextByLength(h, len);
  }

  lemma {:induction false} HashArrivalIsHigh(from: hash, to: hash, len: nat, life: nat)
    requires len == |from| && Walk(Successor(), HashKey(from), HashKey(to), life).1 == Reached && from != to
    ensures Value(from) + 1 >= Pow256(len - 1) && Value(to) >= Pow256(len - 1)
    decreases life
  {
    HashNextIsHigh(from, len);
    var next := HashKey(from).Next().value.h;
    if next != to {
      HashArrivalIsHigh(next, to, len, life - 1);
    }
  }

  lemma ReachesByStep(curr: Key, to: Key)
    requires curr != to && curr.Next().Some? && Reaches(curr.Next().value, to)
    ensures Reaches(curr, to)
  {
    var life: nat :| Walk(Successor(), curr.Next().value, to, life).1 == Reached;
    WalkStep(Successor(), curr, to, life + 1);
  }

  /** Where Next of a walkable hash goes, in values. */
  lemma HashNextValue(h: hash, len: nat, next: hash)
    requires len == |h| && HashKey(h).Next() == Some(HashKey(next))
    ensures Value(next) == if Value(h) + 1 < Pow256(len) then Value(h) + 1 else Pow256(len - 1)
  {
    HashNextByLength(h, len);
  }

  /** Upwards, then at most once around the top. */
  lemma {:induction false} HashWalkArrives(from: hash, to: hash, len: nat, laps: nat)
    requires len == |from| == |to| && from != to
    requires Value(from) + 1 >= Pow256(len - 1) && Value(to) >= Pow256(len - 1)
    requires laps == if Value(from) < Value(to) then 0 else 1
    ensures Reaches(HashKey(from), HashKey(to))
    decreases laps, Pow256(len) - Value(from)
  {
    HashNextByLength(from, len);
    var next := HashKey(from).Next().value.h;
    HashNextValue(from, len, next);
    ValueBound(from);
    ValueBound(to);
    DifferentValues(from, to);
    if next == to {
      assert Walk(Successor(), HashKey(next), HashKey(to), 0).1 == Reached;
    } else {
      DifferentValues(next, to);
      HashWalkArrives(next, to, len, if Value(next) < Value(to) then 0 else 1);
    }
    ReachesByStep(HashKey(from), HashKey(to));
  }

  lemma DifferentValues(a: hash, b: hash)
    requires a != b
    ensures Value(a) != Value(b)
  {
    if Value(a) == Value(b) {
      EqualLengthValueInjective(a, b);
    }
  }
}
