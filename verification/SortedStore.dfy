/** A sorted key/value store: what bbolt's buckets and Badger's whole database are to this repository. */
module SortedStore {
  import opened ByteStrings
  import opened Wrappers

  datatype Pair = Pair(key: bytes, value: bytes)
  type Pairs = seq<Pair>

  ghost predicate Sorted(es: Pairs) {
    forall i, j :: 0 <= i < j < |es| ==> Less(es[i].key, es[j].key)
  }

  function Find(es: Pairs, k: bytes): Option<bytes> {
    if es == [] then None else if es[0].key == k then Some(es[0].value) else Find(es[1..], k)
  }

  function Insert(es: Pairs, k: bytes, v: bytes): Pairs {
    if es == [] then [Pair(k, v)]
    else if es[0].key == k then [Pair(k, v)] + es[1..]
    else if Less(es[0].key, k) then [es[0]] + Insert(es[1..], k, v)
    else [Pair(k, v)] + es
  }

  function Remove(es: Pairs, k: bytes): Pairs {
    if es == [] then [] else if es[0].key == k then es[1..] else [es[0]] + Remove(es[1..], k)
  }

  /** Cursor.Seek: the first position whose key is not below `k`. */
  function Seek(es: Pairs, k: bytes): (i: nat)
    ensures i <= |es|
    ensures i < |es| ==> !Less(es[i].key, k)
    ensures forall j :: 0 <= j < i ==> Less(es[j].key, k)
  {
    if es == [] || !Less(es[0].key, k) then 0 else 1 + Seek(es[1..], k)
  }

  /** The entries with from <= key < to, in store order. */
  function InRange(es: Pairs, from: bytes, to: bytes): Pairs {
    if es == [] then []
    else (if !Less(es[0].key, from) && Less(es[0].key, to) then [es[0]] else []) + InRange(es[1..], from, to)
  }

  // ---- The store behaves as a map kept in order ----

  lemma SortedTail(es: Pairs, i: nat)
    requires Sorted(es) && i <= |es|
    ensures Sorted(es[i..])
  {
  }

  lemma SortedCons(e: Pair, es: Pairs)
    requires Sorted(es) && (es != [] ==> Less(e.key, es[0].key))
    ensures Sorted([e] + es)
  {
    forall j | 0 <= j < |es|
      ensures Less(e.key, es[j].key)
    {
      if j > 0 {
        LessTransitive(e.key, es[0].key, es[j].key);
      }
    }
  }

  lemma {:induction false} InsertLaws(es: Pairs, k: bytes, v: bytes, l: bytes)
    requires Sorted(es)
    ensures Sorted(Insert(es, k, v))
    ensures Find(Insert(es, k, v), l) == if l == k then Some(v) else Find(es, l)
  {
    if es != [] {
      SortedTail(es, 1);
      if es[0].key == k {
        if |es| > 1 {
          assert Less(es[0].key, es[1].key);
        }
        SortedCons(Pair(k, v), es[1..]);
      } else if Less(es[0].key, k) {
        InsertLaws(es[1..], k, v, l);
        SortedCons(es[0], Insert(es[1..], k, v));
      } else {
        LessTotal(es[0].key, k);
        SortedCons(Pair(k, v), es);
        assert ([Pair(k, v)] + es)[1..] == es;
      }
    }
  }

  lemma {:induction false} FindMeansMember(es: Pairs, k: bytes)
    ensures Find(es, k).Some? ==> Pair(k, Find(es, k).value) in es
    ensures Find(es, k).None? ==> forall e :: e in es ==> e.key != k
    ensures Sorted(es) ==> forall e :: e in es && e.key == k ==> Find(es, k) == Some(e.value)
  {
    if es != [] {
      FindMeansMember(es[1..], k);
      if Sorted(es) {
        SortedTail(es, 1);
        forall e | e in es && e.key == k
          ensures Find(es, k) == Some(e.value)
        {
          if e != es[0] {
            assert e in es[1..];
            if es[0].key == k {
              LessIrreflexive(k);
            }
          }
        }
      }
    }
  }

  lemma {:induction false} RemoveLaws(es: Pairs, k: bytes, l: bytes)
    requires Sorted(es)
    ensures Sorted(Remove(es, k)) && (forall e :: e in Remove(es, k) ==> e in es)
    ensures Find(Remove(es, k), l) == if l == k then None else Find(es, l)
  {
    if es != [] {
      SortedTail(es, 1);
      RemoveLaws(es[1..], k, l);
      if es[0].key == k {
        FindMeansMember(es[1..], k);
        if Find(es[1..], k).Some? {
          LessIrreflexive(k);
        }
      } else {
        if Remove(es[1..], k) != [] {
          assert Remove(es[1..], k)[0] in es[1..];
        }
        SortedCons(es[0], Remove(es[1..], k));
      }
    }
  }

  // ---- Ranges ----

  /** Exactly the entries in the range, each once and in strictly increasing key order. */
  lemma {:induction false} InRangeIsExact(es: Pairs, from: bytes, to: bytes)
    requires Sorted(es)
    ensures Sorted(InRange(es, from, to))
    ensures forall e :: e in InRange(es, from, to) <==> e in es && !Less(e.key, from) && Less(e.key, to)
  {
    if es != [] {
      SortedTail(es, 1);
      InRangeIsExact(es[1..], from, to);
      if !Less(es[0].key, from) && Less(es[0].key, to) {
        var rest := InRange(es[1..], from, to);
        if rest != [] {
          assert rest[0] in es[1..];
        }
        SortedCons(es[0], rest);
      }
      assert es == [es[0]] + es[1..];
    }
  }

  /** Seeking skips nothing of the range. */
  lemma {:induction false} SeekSkipsNothing(es: Pairs, from: bytes, to: bytes)
    ensures InRange(es, from, to) == InRange(es[Seek(es, from)..], from, to)
  {
    if es != [] && Less(es[0].key, from) {
      var rest := es[1..];
      var n := Seek(rest, from);
      SeekSkipsNothing(rest, from, to);
      assert es[1 + n..] == rest[n..];
      assert [] + InRange(rest, from, to) == InRange(rest, from, to);
    } else {
      assert es[0..] == es;
    }
  }

  /** From a key that is not below the range, the range is over at the first key not below its end. */
  lemma {:induction false} RangeEnds(es: Pairs, from: bytes, to: bytes)
    requires Sorted(es) && es != [] && !Less(es[0].key, to)
    ensures InRange(es, from, to) == []
  {
    if |es| > 1 {
      SortedTail(es, 1);
      if Less(es[1].key, to) {
        LessTransitive(es[0].key, es[1].key, to);
      }
      RangeEnds(es[1..], from, to);
    }
  }

  /** The key after a key that is not below `from` is not below it either. */
  lemma NextNotBelow(es: Pairs, i: nat, from: bytes)
    requires Sorted(es) && i < |es| && !Less(es[i].key, from)
    ensures i + 1 < |es| ==> !Less(es[i + 1].key, from)
  {
    if i + 1 < |es| && Less(es[i + 1].key, from) {
      LessTransitive(es[i].key, es[i + 1].key, from);
    }
  }
}
