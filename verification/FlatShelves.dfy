/** Badger's one flat store seen as shelves: a shelf's entries are those whose key starts with its name. */
module FlatShelves {
  import opened ByteStrings
  import opened SortedStore

  function ShelfOf(flat: Pairs, name: bytes): Pairs {
    if flat == [] then []
    else (if name <= flat[0].key then [Pair(flat[0].key[|name|..], flat[0].value)] else []) + ShelfOf(flat[1..], name)
  }

  function Prefixed(name: bytes, es: Pairs): Pairs {
    if es == [] then [] else [Pair(name + es[0].key, es[0].value)] + Prefixed(name, es[1..])
  }

  predicate Apart(m: bytes, n: bytes) {
    !(m <= n) && !(n <= m)
  }

  lemma SplitPrefix(name: bytes, key: bytes)
    requires name <= key
    ensures key == name + key[|name|..]
  {
  }

  lemma {:induction false} ShelfMember(flat: Pairs, name: bytes, e: Pair)
    ensures e in ShelfOf(flat, name) <==> Pair(name + e.key, e.value) in flat
  {
    if flat != [] {
      ShelfMember(flat[1..], name, e);
      assert flat == [flat[0]] + flat[1..];
      if name <= flat[0].key {
        SplitPrefix(name, flat[0].key);
        assert (name + e.key)[|name|..] == e.key;
      } else {
        assert name <= name + e.key;
      }
    }
  }

  lemma {:induction false} ShelfIsSorted(flat: Pairs, name: bytes)
    requires Sorted(flat)
    ensures Sorted(ShelfOf(flat, name))
  {
    if flat != [] {
      SortedTail(flat, 1);
      ShelfIsSorted(flat[1..], name);
      var rest := ShelfOf(flat[1..], name);
      if name <= flat[0].key {
        SplitPrefix(name, flat[0].key);
        if rest != [] {
          ShelfMember(flat[1..], name, rest[0]);
          LessCommonPrefix(name, flat[0].key[|name|..], rest[0].key);
        }
        SortedCons(Pair(flat[0].key[|name|..], flat[0].value), rest);
      }
    }
  }

  // ---- Single keys ----

  lemma {:induction false} ShelfFind(flat: Pairs, name: bytes, k: bytes)
    ensures Find(flat, name + k) == Find(ShelfOf(flat, name), k)
  {
    if flat != [] {
      ShelfFind(flat[1..], name, k);
      var rest := ShelfOf(flat[1..], name);
      if name <= flat[0].key {
        SplitPrefix(name, flat[0].key);
        assert ShelfOf(flat, name)[1..] == rest;
        assert (name + k)[|name|..] == k;
      } else {
        assert name <= name + k;
        assert ShelfOf(flat, name) == rest;
      }
    }
  }

  lemma {:induction false} ShelfInsert(flat: Pairs, name: bytes, k: bytes, v: bytes)
    requires Sorted(flat)
    ensures ShelfOf(Insert(flat, name + k, v), name) == Insert(ShelfOf(flat, name), k, v)
  {
    var key := name + k;
    assert key[|name|..] == k && name <= key;
    if flat == [] {
      assert ShelfOf([Pair(key, v)], name) == [Pair(k, v)];
    } else {
      SortedTail(flat, 1);
      ShelfInsert(flat[1..], name, k, v);
      ConsShelf(flat[0], flat[1..], name);
      assert flat == [flat[0]] + flat[1..];
      var tail := ShelfOf(flat[1..], name);
      if flat[0].key == key {
        ConsShelf(Pair(key, v), flat[1..], name);
        assert ([Pair(k, flat[0].value)] + tail)[1..] == tail;
      } else if Less(flat[0].key, key) {
        ConsShelf(flat[0], Insert(flat[1..], key, v), name);
        if name <= flat[0].key {
          SplitPrefix(name, flat[0].key);
          LessCommonPrefix(name, flat[0].key[|name|..], k);
          assert ShelfOf(flat, name)[1..] == tail;
        } else {
          assert ShelfOf(flat, name) == tail;
        }
      } else {
        ConsShelf(Pair(key, v), flat, name);
        LessTotal(flat[0].key, key);
        FrontInsert(flat, name, k, v);
      }
    }
  }

  lemma ConsShelf(e: Pair, flat: Pairs, name: bytes)
    ensures ShelfOf([e] + flat, name) ==
      (if name <= e.key then [Pair(e.key[|name|..], e.value)] else []) + ShelfOf(flat, name)
  {
    assert ([e] + flat)[1..] == flat;
  }

  /** Below every flat key, the new entry is also below every entry of the shelf. */
  lemma FrontInsert(flat: Pairs, name: bytes, k: bytes, v: bytes)
    requires Sorted(flat) && flat != [] && Less(name + k, flat[0].key)
    ensures Insert(ShelfOf(flat, name), k, v) == [Pair(k, v)] + ShelfOf(flat, name)
  {
    var shelf := ShelfOf(flat, name);
    if shelf != [] {
      ShelfMember(flat, name, shelf[0]);
      var i :| 0 <= i < |flat| && flat[i] == Pair(name + shelf[0].key, shelf[0].value);
      if i > 0 {
        LessTransitive(name + k, flat[0].key, flat[i].key);
      }
      LessCommonPrefix(name, k, shelf[0].key);
      LessIrreflexive(k);
      if Less(shelf[0].key, k) {
        LessTransitive(k, shelf[0].key, k);
      }
    }
  }

  lemma {:induction false} ShelfRemove(flat: Pairs, name: bytes, k: bytes)
    ensures ShelfOf(Remove(flat, name + k), name) == Remove(ShelfOf(flat, name), k)
  {
    if flat != [] {
      var key := name + k;
      assert key[|name|..] == k && name <= key;
      ShelfRemove(flat[1..], name, k);
      var tail := ShelfOf(flat[1..], name);
      if name <= flat[0].key {
        SplitPrefix(name, flat[0].key);
        assert ShelfOf(flat, name)[1..] == tail;
      } else {
        assert ShelfOf(flat, name) == tail;
      }
      if flat[0].key != key {
        ConsShelf(flat[0], Remove(flat[1..], key), name);
      }
    }
  }

  lemma {:induction false} OtherInsert(flat: Pairs, other: bytes, key: bytes, v: bytes)
    requires !(other <= key)
    ensures ShelfOf(Insert(flat, key, v), other) == ShelfOf(flat, other)
  {
    ConsShelf(Pair(key, v), flat, other);
    if flat != [] {
      OtherInsert(flat[1..], other, key, v);
      ConsShelf(Pair(key, v), flat[1..], other);
      ConsShelf(flat[0], Insert(flat[1..], key, v), other);
    }
  }

  lemma {:induction false} OtherRemove(flat: Pairs, other: bytes, key: bytes)
    requires !(other <= key)
    ensures ShelfOf(Remove(flat, key), other) == ShelfOf(flat, other)
  {
    if flat != [] {
      OtherRemove(flat[1..], other, key);
      ConsShelf(flat[0], Remove(flat[1..], key), other);
    }
  }

  lemma PrefixesOfOneKey(m: bytes, n: bytes, k: bytes)
    requires m <= n + k
    ensures !Apart(m, n)
  {
    if |m| <= |n| {
      assert m == n[..|m|];
    } else {
      assert n == m[..|n|];
    }
  }

  lemma ApartKeys(m: bytes, n: bytes, k: bytes)
    requires Apart(m, n)
    ensures !(m <= n + k)
  {
    if m <= n + k {
      PrefixesOfOneKey(m, n, k);
    }
  }

  /** Puts to shelf `n` leave shelf `m` alone, whatever they are, iff neither name is a prefix of the other. */
  lemma ShelvesIndependentIff(m: bytes, n: bytes)
    ensures Apart(m, n) <==>
      (forall flat: Pairs, k: bytes, v: bytes :: ShelfOf(Insert(flat, n + k, v), m) == ShelfOf(flat, m))
  {
    if Apart(m, n) {
      forall flat: Pairs, k: bytes, v: bytes
        ensures ShelfOf(Insert(flat, n + k, v), m) == ShelfOf(flat, m)
      {
        ApartKeys(m, n, k);
        OtherInsert(flat, m, n + k, v);
      }
    } else {
      var k := if m <= n then [] else m[|n|..];
      assert m <= n + k;
      assert Insert([], n + k, []) == [Pair(n + k, [])];
      assert ShelfOf(Insert([], n + k, []), m) != ShelfOf([], m);
    }
  }

  /** And so do deletes. */
  lemma DeletesIndependentIff(m: bytes, n: bytes)
    ensures Apart(m, n) <==> (forall flat: Pairs, k: bytes :: ShelfOf(Remove(flat, n + k), m) == ShelfOf(flat, m))
  {
    if Apart(m, n) {
      forall flat: Pairs, k: bytes
        ensures ShelfOf(Remove(flat, n + k), m) == ShelfOf(flat, m)
      {
        ApartKeys(m, n, k);
        OtherRemove(flat, m, n + k);
      }
    } else {
      var k := if m <= n then [] else m[|n|..];
      assert m <= n + k;
      var flat := [Pair(n + k, [])];
      assert Remove(flat, n + k) == [];
      ShelfMember(flat, m, Pair((n + k)[|m|..], []));
      SplitPrefix(m, n + k);
      assert flat[0] in flat && ShelfOf([], m) == [];
      assert ShelfOf(Remove(flat, n + k), m) != ShelfOf(flat, m);
    }
  }

  // ---- Ranges and the whole shelf ----

  /** A range of the flat store between two prefixed keys is the shelf's own range, prefixed. */
  lemma {:induction false} ShelfRange(flat: Pairs, name: bytes, from: bytes, to: bytes)
    ensures InRange(flat, name + from, name + to) == Prefixed(name, InRange(ShelfOf(flat, name), from, to))
  {
    if flat != [] {
      ShelfRange(flat[1..], name, from, to);
      var e := flat[0];
      var tail := ShelfOf(flat[1..], name);
      if name <= e.key {
        var k := e.key[|name|..];
        SplitPrefix(name, e.key);
        LessCommonPrefix(name, k, from);
        LessCommonPrefix(name, k, to);
        assert ShelfOf(flat, name)[1..] == tail;
        var rest := InRange(tail, from, to);
        assert ([Pair(k, e.value)] + rest)[1..] == rest && [] + rest == rest;
      } else {
        assert ShelfOf(flat, name) == tail;
        if !Less(e.key, name + from) && Less(e.key, name + to) {
          PrefixBlockIsConvex(name, from, e.key, to);
        }
      }
    }
  }

  /** Past the first key without the prefix, at or after the seek position, the shelf is over. */
  lemma {:induction false} ShelfEnds(flat: Pairs, name: bytes)
    requires Sorted(flat) && flat != [] && !Less(flat[0].key, name) && !(name <= flat[0].key)
    ensures ShelfOf(flat, name) == []
  {
    if |flat| > 1 {
      SortedTail(flat, 1);
      NextNotBelow(flat, 0, name);
      if name <= flat[1].key {
        SplitPrefix(name, flat[1].key);
        assert name + [] == name;
        PrefixBlockIsConvex(name, [], flat[0].key, flat[1].key[|name|..]);
      }
      ShelfEnds(flat[1..], name);
    }
  }

  lemma {:induction false} SeekSkipsNothingOfShelf(flat: Pairs, name: bytes)
    ensures ShelfOf(flat, name) == ShelfOf(flat[Seek(flat, name)..], name)
  {
    if flat != [] && Less(flat[0].key, name) {
      SeekSkipsNothingOfShelf(flat[1..], name);
      assert flat[Seek(flat, name)..] == flat[1..][Seek(flat[1..], name)..];
      if name <= flat[0].key {
        SplitPrefix(name, flat[0].key);
        assert name + [] == name;
        LessCommonPrefix(name, flat[0].key[|name|..], []);
      }
    }
  }
}
