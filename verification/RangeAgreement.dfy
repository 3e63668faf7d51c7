/** Redis Range and bbolt Range over one shelf of numbers: exactly when they deliver the same. */
module RangeAgreement {
  import opened ByteStrings
  import opened CursorRange
  import opened Delivery
  import opened Keys
  import opened RangeLaws
  import opened RedisNames
  import opened RedisRange
  import opened SortedStore
  import opened Walks
  import opened Wrappers

  const LIKE: Key := Uint32Key(0)

  function KeyBytes(u: uint32): bytes {
    Uint32Key(u).Bytes()
  }

  /** The numbers from..to-1, as keys. */
  function UpTo(from: uint32, to: uint32): seq<Key>
    decreases (to as int) - (from as int)
  {
    if from >= to then [] else [Uint32Key(from)] + UpTo(from + 1, to)
  }

  /** The bucket and the look-ups describe one shelf. */
  ghost predicate SameShelf(found: Lookups, es: Pairs) {
    && FourByteKeys(es)
    && (forall u: uint32 :: found(Uint32Key(u)) == Find(es, KeyBytes(u)))
  }

  lemma {:induction false} WalkUpTo(from: uint32, to: uint32, life: nat)
    requires from <= to && to - from <= life
    ensures Walk(Successor(), Uint32Key(from), Uint32Key(to), life) == (UpTo(from, to), Reached) && |UpTo(from, to)| == to - from
    decreases (to as int) - (from as int)
  {
    if from < to {
      WalkUpTo(from + 1, to, life - 1);
      NumberFollows(from, from + 1);
      WalkStep(Successor(), Uint32Key(from), Uint32Key(to), life);
    }
  }

  lemma {:induction false} UpToIsReadable(from: uint32, to: uint32)
    requires to <= MAX_SIGNED
    ensures forall i :: 0 <= i < |UpTo(from, to)| ==> !Unreadable(UpTo(from, to)[i])
    decreases (to as int) - (from as int)
  {
    if from < to {
      UpToIsReadable(from + 1, to);
    }
  }

  lemma NumericOrder(u: uint32, w: uint32)
    ensures Less(KeyBytes(u), KeyBytes(w)) <==> u < w
    ensures KeyBytes(u) == KeyBytes(w) <==> u == w
  {
    Uint32BytesValue(u);
    Uint32BytesValue(w);
    LessIsNumeric(KeyBytes(u), KeyBytes(w));
  }

  // ---- The bucket in numbers ----

  datatype Item = Item(n: uint32, value: bytes)
  type Items = seq<Item>

  predicate FourByteKeys(es: Pairs) {
    forall i :: 0 <= i < |es| ==> |es[i].key| == 4
  }

  function NumberOf(k: bytes): uint32
    requires |k| == 4
  {
    Join32(k[0], k[1], k[2], k[3])
  }

  function Numbers(es: Pairs): Items
    requires FourByteKeys(es)
  {
    if es == [] then [] else [Item(NumberOf(es[0].key), es[0].value)] + Numbers(es[1..])
  }

  ghost predicate Increasing(xs: Items) {
    forall i, j :: 0 <= i < j < |xs| ==> xs[i].n < xs[j].n
  }

  function Look(xs: Items, n: uint32): Option<bytes> {
    if xs == [] then None else if xs[0].n == n then Some(xs[0].value) else Look(xs[1..], n)
  }

  function Between(xs: Items, from: uint32, to: uint32): Items {
    if xs == [] then [] else (if from <= xs[0].n < to then [xs[0]] else []) + Between(xs[1..], from, to)
  }

  /** The items up to the first jump of more than one. */
  function Unbroken(xs: Items): Items {
    if |xs| <= 1 then xs else if xs[0].n + 1 == xs[1].n then [xs[0]] + Unbroken(xs[1..]) else [xs[0]]
  }

  function Entries(xs: Items): Trace {
    if xs == [] then [] else [Entry(Uint32Key(xs[0].n), xs[0].value)] + Entries(xs[1..])
  }

  lemma {:induction false} NumbersIncrease(es: Pairs)
    requires FourByteKeys(es) && Sorted(es)
    ensures |Numbers(es)| == |es| && Increasing(Numbers(es))
    ensures forall i :: 0 <= i < |es| ==> Numbers(es)[i].n == NumberOf(es[i].key)
  {
    if es != [] {
      SortedTail(es, 1);
      NumbersIncrease(es[1..]);
      forall j | 0 < j < |es|
        ensures Numbers(es)[0].n < Numbers(es)[j].n
      {
        assert Numbers(es)[j] == Numbers(es[1..])[j - 1];
        FourBytes(es[0].key);
        FourBytes(es[j].key);
        NumericOrder(NumberOf(es[0].key), NumberOf(es[j].key));
        assert Less(es[0].key, es[j].key);
      }
    }
  }

  lemma {:induction false} LookIsFind(es: Pairs, u: uint32)
    requires FourByteKeys(es)
    ensures Find(es, KeyBytes(u)) == Look(Numbers(es), u)
  {
    if es != [] {
      LookIsFind(es[1..], u);
      FourBytes(es[0].key);
      NumericOrder(NumberOf(es[0].key), u);
    }
  }

  lemma {:induction false} BetweenIsInRange(es: Pairs, from: uint32, to: uint32)
    requires FourByteKeys(es)
    ensures FourByteKeys(InRange(es, KeyBytes(from), KeyBytes(to)))
    ensures Numbers(InRange(es, KeyBytes(from), KeyBytes(to))) == Between(Numbers(es), from, to)
  {
    if es != [] {
      BetweenIsInRange(es[1..], from, to);
      FourBytes(es[0].key);
      NumericOrder(NumberOf(es[0].key), from);
      NumericOrder(NumberOf(es[0].key), to);
      var rest := InRange(es[1..], KeyBytes(from), KeyBytes(to));
      assert ([es[0]] + rest)[1..] == rest && [] + rest == rest;
    }
  }

  lemma {:induction false} DecodedNumbers(es: Pairs)
    requires FourByteKeys(es)
    ensures Readable(LIKE, es) && Decoded(LIKE, es) == Entries(Numbers(es))
  {
    if es != [] {
      DecodedNumbers(es[1..]);
    }
  }

  lemma NextNumber(a: Pair, b: Pair)
    requires |a.key| == |b.key| == 4 && NumberOf(a.key) < NumberOf(b.key)
    ensures Adjacent(LIKE)(a, b) <==> NumberOf(a.key) + 1 == NumberOf(b.key)
  {
    ReadsNumber(a.key);
    ReadsNumber(b.key);
    AdjacentMeans(LIKE, a, b, Uint32Key(NumberOf(a.key)), Uint32Key(NumberOf(b.key)));
    NumberFollows(NumberOf(a.key), NumberOf(b.key));
  }

  lemma ReadsNumber(k: bytes)
    requires |k| == 4
    ensures LIKE.FromBytes(k) == Some(Uint32Key(NumberOf(k)))
  {
  }

  lemma AdjacentMeans(like: Key, a: Pair, b: Pair, k: Key, l: Key)
    requires like.FromBytes(a.key) == Some(k) && like.FromBytes(b.key) == Some(l)
    ensures Adjacent(like)(a, b) <==> k.Next() == Some(l)
  {
  }

  lemma NumberFollows(u: uint32, w: uint32)
    requires u < w
    ensures Uint32Key(u).Next() == Some(Uint32Key(w)) <==> u + 1 == w
  {
  }

  lemma {:induction false} RunIsUnbroken(es: Pairs)
    requires FourByteKeys(es) && Increasing(Numbers(es)) && Readable(LIKE, es)
    ensures FourByteKeys(Run(Adjacent(LIKE), es)) && Numbers(Run(Adjacent(LIKE), es)) == Unbroken(Numbers(es))
  {
    if |es| > 1 {
      var ns := Numbers(es);
      assert ns[1..] == Numbers(es[1..]) && ns[0].n == NumberOf(es[0].key) && ns[1].n == NumberOf(es[1].key);
      RunIsUnbroken(es[1..]);
      NextNumber(es[0], es[1]);
      if ns[0].n + 1 == ns[1].n {
        assert Run(Adjacent(LIKE), es)[1..] == Run(Adjacent(LIKE), es[1..]);
      } else {
        assert Run(Adjacent(LIKE), es) == [es[0]] && [es[0]][1..] == [];
      }
    }
  }

  // ---- Looking numbers up one by one ----

  /** The item with this number, if there is one. */
  function Single(xs: Items, u: uint32): Items {
    match Look(xs, u)
    case None => []
    case Some(v) => [Item(u, v)]
  }

  lemma BetweenHead(xs: Items, from: uint32, to: uint32)
    requires xs != []
    ensures Between(xs, from, to) == if from <= xs[0].n < to then [xs[0]] + Between(xs[1..], from, to) else Between(xs[1..], from, to)
  {
    assert [] + Between(xs[1..], from, to) == Between(xs[1..], from, to);
  }

  /** Moving the start of a range by one takes away that number's item, if there is one. */
  lemma {:induction false} BetweenByOne(xs: Items, u: uint32, to: uint32)
    requires Increasing(xs) && u < to
    ensures Between(xs, u, to) == Single(xs, u) + Between(xs, u + 1, to)
  {
    if xs != [] {
      var rest := xs[1..];
      assert Increasing(rest);
      BetweenByOne(rest, u, to);
      BetweenHead(xs, u, to);
      BetweenHead(xs, u + 1, to);
      if xs[0].n < u {
        assert Single(xs, u) == Single(rest, u);
      } else {
        LookBelow(rest, u);
        assert Single(rest, u) == [] && [] + Between(rest, u + 1, to) == Between(rest, u + 1, to);
        if xs[0].n == u {
          assert Single(xs, u) == [xs[0]];
        } else {
          assert Single(xs, u) == [] && [] + Between(xs, u + 1, to) == Between(xs, u + 1, to);
        }
      }
    }
  }

  lemma {:induction false} LookBelow(xs: Items, u: uint32)
    requires forall i :: 0 <= i < |xs| ==> u < xs[i].n
    ensures Look(xs, u) == None
  {
    if xs != [] {
      LookBelow(xs[1..], u);
    }
  }

  lemma {:induction false} BetweenIsBounded(xs: Items, from: uint32, to: uint32)
    requires Increasing(xs)
    ensures forall i :: 0 <= i < |Between(xs, from, to)| ==>
      var e := Between(xs, from, to)[i]; from <= e.n < to && Look(xs, e.n) == Some(e.value)
  {
    if xs != [] {
      BetweenIsBounded(xs[1..], from, to);
      var rest := Between(xs[1..], from, to);
      forall i | 0 <= i < |rest|
        ensures Look(xs, rest[i].n) == Some(rest[i].value)
      {
        if rest[i].n == xs[0].n {
          LookBelow(xs[1..], xs[0].n);
        }
      }
    }
  }

  lemma {:induction false} BetweenNothing(xs: Items, u: uint32)
    ensures Between(xs, u, u) == []
  {
    if xs != [] {
      BetweenNothing(xs[1..], u);
    }
  }

  lemma UpToHead(from: uint32, to: uint32)
    requires from < to
    ensures UpTo(from, to)[0] == Uint32Key(from) && UpTo(from, to)[1..] == UpTo(from + 1, to)
  {
  }

  /** One look-up more. */
  lemma ExistingHead(found: Lookups, stopAtNil: bool, keys: seq<Key>)
    requires keys != [] && !Unreadable(keys[0])
    ensures Existing(found, stopAtNil, keys) ==
      if found(keys[0]).Some? then [Entry(keys[0], found(keys[0]).value)] + Existing(found, stopAtNil, keys[1..])
      else if stopAtNil then [] else Existing(found, stopAtNil, keys[1..])
  {
  }

  lemma EntriesCons(x: Item, xs: Items)
    ensures Entries([x] + xs) == [Entry(Uint32Key(x.n), x.value)] + Entries(xs)
  {
    assert ([x] + xs)[1..] == xs;
  }

  lemma UnbrokenCons(x: Item, xs: Items)
    ensures Unbroken([x] + xs) == if xs != [] && x.n + 1 == xs[0].n then [x] + Unbroken(xs) else [x]
  {
    assert ([x] + xs)[1..] == xs && [x] + [] == [x];
  }

  /** Not stopping at gaps, the look-ups find exactly the items in range. */
  lemma {:induction false} LookupsFindRange(found: Lookups, xs: Items, from: uint32, to: uint32)
    requires Increasing(xs) && from <= to <= MAX_SIGNED && forall u: uint32 :: found(Uint32Key(u)) == Look(xs, u)
    ensures Existing(found, false, UpTo(from, to)) == Entries(Between(xs, from, to))
    decreases (to as int) - (from as int)
  {
    if from == to {
      BetweenNothing(xs, from);
    } else {
      LookupsFindRange(found, xs, from + 1, to);
      BetweenByOne(xs, from, to);
      UpToHead(from, to);
      ExistingHead(found, false, UpTo(from, to));
      var rest := Between(xs, from + 1, to);
      if Look(xs, from).Some? {
        EntriesCons(Item(from, Look(xs, from).value), rest);
      } else {
        assert [] + rest == rest;
      }
    }
  }

  /** A range starts with the item of its first number, or if there is none with a later one. */
  lemma BetweenStarts(xs: Items, from: uint32, to: uint32)
    requires Increasing(xs) && from < to
    ensures Look(xs, from).Some? ==> Between(xs, from, to) == [Item(from, Look(xs, from).value)] + Between(xs, from + 1, to)
    ensures Look(xs, from).None? && Between(xs, from, to) != [] ==> Between(xs, from, to)[0].n != from
  {
    BetweenByOne(xs, from, to);
    BetweenIsBounded(xs, from, to);
  }

  /** The number after the first one starts the rest, or the run ends before it. */
  lemma RestStarts(xs: Items, from: uint32, to: uint32)
    requires Increasing(xs) && from < to
    ensures var rest := Between(xs, from + 1, to);
      rest != [] && rest[0].n == from + 1 <==> from + 1 < to && Look(xs, from + 1).Some?
  {
    if from + 1 < to {
      BetweenStarts(xs, from + 1, to);
    } else {
      BetweenNothing(xs, to);
    }
  }

  /** Stopping at gaps, with the first number present, those before the first miss are the unbroken run. */
  lemma {:induction false} LookupsFindRun(found: Lookups, xs: Items, from: uint32, to: uint32)
    requires Increasing(xs) && from < to <= MAX_SIGNED && Look(xs, from).Some? && forall u: uint32 :: found(Uint32Key(u)) == Look(xs, u)
    ensures Existing(found, true, UpTo(from, to)) == Entries(Unbroken(Between(xs, from, to)))
    decreases (to as int) - (from as int)
  {
    var head, rest := Item(from, Look(xs, from).value), Between(xs, from + 1, to);
    BetweenStarts(xs, from, to);
    RestStarts(xs, from, to);
    UnbrokenCons(head, rest);
    UpToHead(from, to);
    ExistingHead(found, true, UpTo(from, to));
    if from + 1 < to && Look(xs, from + 1).Some? {
      LookupsFindRun(found, xs, from + 1, to);
      EntriesCons(head, Unbroken(rest));
    } else {
      MissEndsRun(found, from + 1, to);
      EntriesCons(head, []);
      assert [head] + [] == [head];
    }
  }

  lemma MissEndsRun(found: Lookups, from: int, to: uint32)
    requires 0 <= from <= to <= MAX_SIGNED && (from < to ==> found(Uint32Key(from)).None?)
    ensures Existing(found, true, UpTo(from, to)) == []
  {
    if from < to {
      UpToHead(from, to);
      ExistingHead(found, true, UpTo(from, to));
    }
  }

  function RedisResult(sh: Shelf, srv: Server, from: Key, to: Key, stopAtNil: bool, life: nat, cb: Callback): Result {
    Close(Deliver(RangeVerdicts(sh, srv, from, to, stopAtNil, life), cb, []))
  }

  /** Over one shelf of numbers below 2^31, given time and a last page that the server accepts, Redis and bbolt
      deliver the same to every callback, with the same outcome, iff gaps do not matter, or `from` is stored, or
      nothing in range is. */
  lemma RedisAgreesWithBboltIff(sh: Shelf, srv: Server, db: map<string, bytes>, bucket: Pairs, from: uint32, to: uint32, stopAtNil: bool, life: nat, cb: Callback)
    requires (forall p :: srv.reply(p) == Some(db)) && Sorted(bucket) && SameShelf(RedisLookups(sh, db), bucket)
    requires from < to <= MAX_SIGNED && to - from <= life && |InRange(bucket, KeyBytes(from), KeyBytes(to))| <= life
    requires (to - from) % 1001 != 0 || srv.emptyOk
    ensures var es := InRange(bucket, KeyBytes(from), KeyBytes(to));
      RedisResult(sh, srv, Uint32Key(from), Uint32Key(to), stopAtNil, life, cb) == BboltResult(Uint32Key(from), stopAtNil, None, es, life, cb, [])
      <==> (!stopAtNil || RedisLookups(sh, db)(Uint32Key(from)).Some? || es == [])
  {
    var found, es := RedisLookups(sh, db), InRange(bucket, KeyBytes(from), KeyBytes(to));
    var redis, bbolt := RangeVerdicts(sh, srv, Uint32Key(from), Uint32Key(to), stopAtNil, life), BboltVerdicts(Uint32Key(from), stopAtNil, None, es, life);
    RedisSide(sh, srv, db, from, to, stopAtNil, life);
    BboltSide(bucket, from, to, stopAtNil, life);
    assert UpTo(from, to)[0] == Uint32Key(from);
    NumbersIncrease(bucket);
    forall u: uint32
      ensures found(Uint32Key(u)) == Look(Numbers(bucket), u)
    {
      LookIsFind(bucket, u);
    }
    if !stopAtNil {
      LookupsFindRange(found, Numbers(bucket), from, to);
      SameDelivery(redis, bbolt, cb);
    } else if found(Uint32Key(from)).Some? {
      LookupsFindRun(found, Numbers(bucket), from, to);
      SameDelivery(redis, bbolt, cb);
    } else {
      DeliverMeaning(redis, cb);
      DeliverMeaning(bbolt, cb);
      assert Gives(redis) == [];
      if es == [] {
        SameDelivery(redis, bbolt, cb);
      } else {
        assert Gives(bbolt) != [];
      }
    }
  }

  lemma NothingUnreadable(found: Lookups, stopAtNil: bool, keys: seq<Key>)
    requires forall i :: 0 <= i < |keys| ==> !Unreadable(keys[i])
    ensures !MeetsUnreadable(found, stopAtNil, keys)
  {
  }

  lemma RedisGivesReadable(sh: Shelf, srv: Server, db: map<string, bytes>, from: Key, to: Key, keys: seq<Key>, stopAtNil: bool, life: nat)
    requires (forall p :: srv.reply(p) == Some(db)) && Walk(Successor(), from, to, life) == (keys, Reached)
    requires (forall i :: 0 <= i < |keys| ==> !Unreadable(keys[i])) && (|keys| % 1001 != 0 || srv.emptyOk)
    ensures var vs := RangeVerdicts(sh, srv, from, to, stopAtNil, life);
      Gives(vs) == Existing(RedisLookups(sh, db), stopAtNil, keys) && FirstEnd(vs) == Finished
  {
    NothingUnreadable(RedisLookups(sh, db), stopAtNil, keys);
    RedisRangeGives(sh, srv, db, from, to, keys, stopAtNil, life);
  }

  lemma RedisSide(sh: Shelf, srv: Server, db: map<string, bytes>, from: uint32, to: uint32, stopAtNil: bool, life: nat)
    requires (forall p :: srv.reply(p) == Some(db)) && from < to <= MAX_SIGNED && to - from <= life
    requires (to - from) % 1001 != 0 || srv.emptyOk
    ensures var vs := RangeVerdicts(sh, srv, Uint32Key(from), Uint32Key(to), stopAtNil, life);
      Gives(vs) == Existing(RedisLookups(sh, db), stopAtNil, UpTo(from, to)) && FirstEnd(vs) == Finished
  {
    WalkUpTo(from, to, life);
    UpToIsReadable(from, to);
    RedisGivesReadable(sh, srv, db, Uint32Key(from), Uint32Key(to), UpTo(from, to), stopAtNil, life);
  }

  lemma {:induction false} LikeIsTypeOnly(from: uint32, stopAtNil: bool, prev: Option<Key>, es: Pairs, life: nat)
    ensures BboltVerdicts(Uint32Key(from), stopAtNil, prev, es, life) == BboltVerdicts(LIKE, stopAtNil, prev, es, life)
    decreases es
  {
    if es != [] && life > 0 {
      LikeIsTypeOnly(from, stopAtNil, LIKE.FromBytes(es[0].key), es[1..], life - 1);
    }
  }

  lemma BboltSide(bucket: Pairs, from: uint32, to: uint32, stopAtNil: bool, life: nat)
    requires Sorted(bucket) && FourByteKeys(bucket) && |InRange(bucket, KeyBytes(from), KeyBytes(to))| <= life
    ensures var es := InRange(bucket, KeyBytes(from), KeyBytes(to));
      var vs := BboltVerdicts(Uint32Key(from), stopAtNil, None, es, life);
      var all := Between(Numbers(bucket), from, to);
      && Gives(vs) == Entries(if stopAtNil then Unbroken(all) else all)
      && FirstEnd(vs) == Finished && (es != [] ==> Gives(vs) != [])
  {
    var es := InRange(bucket, KeyBytes(from), KeyBytes(to));
    BetweenIsInRange(bucket, from, to);
    InRangeIsExact(bucket, KeyBytes(from), KeyBytes(to));
    DecodedNumbers(es);
    LikeIsTypeOnly(from, stopAtNil, None, es, life);
    if stopAtNil {
      BboltGivesRun(LIKE, None, es, life);
      OnlyHashesPanic(LIKE, es);
      NumbersIncrease(es);
      RunIsUnbroken(es);
      DecodedNumbers(Run(Adjacent(LIKE), es));
      DecodedLength(LIKE, Run(Adjacent(LIKE), es));
    } else {
      BboltGivesAll(LIKE, None, es, life);
      DecodedLength(LIKE, es);
    }
  }
}
