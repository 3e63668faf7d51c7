/** What the three Ranges promise, in terms of the stored entries alone, and where they agree. */
module RangeLaws {
  import opened ByteStrings
  import opened CursorRange
  import opened Delivery
  import opened FlatShelves
  import opened Keys
  import opened RedisNames
  import opened RedisRange
  import opened SortedStore
  import opened Walks
  import opened Wrappers

  /** Delivery depends only on what is given and how it ends. */
  lemma SameDelivery(a: seq<Verdict>, b: seq<Verdict>, cb: Callback)
    requires Gives(a) == Gives(b) && FirstEnd(a) == FirstEnd(b)
    ensures Close(Deliver(a, cb, [])) == Close(Deliver(b, cb, []))
  {
    DeliverMeaning(a, cb);
    DeliverMeaning(b, cb);
  }

  // ---- bbolt ----

  predicate Readable(like: Key, es: Pairs) {
    forall i :: 0 <= i < |es| ==> like.FromBytes(es[i].key).Some?
  }

  function Decoded(like: Key, es: Pairs): Trace
    requires Readable(like, es)
  {
    if es == [] then [] else [Entry(like.FromBytes(es[0].key).value, es[0].value)] + Decoded(like, es[1..])
  }

  /** The second entry's key is the Next of the first's. */
  function Adjacent(like: Key): (Pair, Pair) -> bool {
    (a: Pair, b: Pair) =>
      match like.FromBytes(a.key)
      case None => false
      case Some(key) => key.Next().Some? && key.Next() == like.FromBytes(b.key)
  }

  /** The longest prefix in which every two neighbours are adjacent. */
  function Run(adjacent: (Pair, Pair) -> bool, es: Pairs): (r: Pairs)
    ensures r <= es && (es != [] ==> r != [])
  {
    if |es| <= 1 then es
    else if adjacent(es[0], es[1]) then [es[0]] + Run(adjacent, es[1..])
    else [es[0]]
  }

  /** Run is a run, and it could not be longer. */
  lemma {:induction false} RunIsMaximal(adjacent: (Pair, Pair) -> bool, es: Pairs)
    ensures forall i :: 0 < i < |Run(adjacent, es)| ==> adjacent(es[i - 1], es[i])
    ensures var n := |Run(adjacent, es)|; 0 < n < |es| ==> !adjacent(es[n - 1], es[n])
  {
    if |es| > 1 && adjacent(es[0], es[1]) {
      RunIsMaximal(adjacent, es[1..]);
      var rest := Run(adjacent, es[1..]);
      assert Run(adjacent, es) == [es[0]] + rest;
      forall i | 0 < i < |rest| + 1
        ensures adjacent(es[i - 1], es[i])
      {
        if i > 1 {
          assert adjacent(es[1..][i - 2], es[1..][i - 1]);
        }
      }
    }
  }

  /** Given time, bbolt without stopAtNil gives every entry in range. */
  lemma {:induction false} BboltGivesAll(like: Key, prev: Option<Key>, es: Pairs, life: nat)
    requires Readable(like, es) && |es| <= life
    ensures Gives(BboltVerdicts(like, false, prev, es, life)) == Decoded(like, es)
    ensures FirstEnd(BboltVerdicts(like, false, prev, es, life)) == Finished
    decreases es
  {
    if es != [] {
      BboltGivesAll(like, like.FromBytes(es[0].key), es[1..], life - 1);
      HeadVerdict(BboltVerdict(like, false, prev, es[0]), BboltVerdicts(like, false, like.FromBytes(es[0].key), es[1..], life - 1));
    }
  }

  /** The first entry whose key cannot be read, or the number of entries. */
  function FirstUnreadable(like: Key, es: Pairs): (n: nat)
    ensures n <= |es| && Readable(like, es[..n]) && (n < |es| ==> like.FromBytes(es[n].key).None?)
  {
    if es == [] || like.FromBytes(es[0].key).None? then 0
    else
      var n := 1 + FirstUnreadable(like, es[1..]);
      assert forall i :: 0 < i < n ==> es[i] == es[1..][i - 1];
      n
  }

  lemma BboltHeadIs(like: Key, prev: Option<Key>, es: Pairs, life: nat, v: Verdict, key: Option<Key>)
    requires es != [] && life > 0 && v == BboltVerdict(like, false, prev, es[0]) && key == like.FromBytes(es[0].key)
    ensures BboltVerdicts(like, false, prev, es, life) == [v] + BboltVerdicts(like, false, key, es[1..], life - 1)
  {
  }

  /** The first `m` entries and the rest, of which nothing depends on the key before them. */
  lemma {:induction false} BboltSplit(like: Key, prev: Option<Key>, es: Pairs, life: nat, m: nat)
    requires m <= |es| && m <= life
    ensures BboltVerdicts(like, false, prev, es, life) ==
      BboltVerdicts(like, false, prev, es[..m], m) + BboltVerdicts(like, false, None, es[m..], life - m)
    decreases m
  {
    if m == 0 {
      assert es[0..] == es;
      PrevUnused(like, prev, None, es, life);
    } else {
      var v, key, first := BboltVerdict(like, false, prev, es[0]), like.FromBytes(es[0].key), es[..m];
      BboltSplit(like, key, es[1..], life - 1, m - 1);
      assert first[0] == es[0] && first[1..] == es[1..][..m - 1] && es[1..][m - 1..] == es[m..];
      BboltHeadIs(like, prev, es, life, v, key);
      BboltHeadIs(like, prev, first, m, v, key);
    }
  }

  lemma {:induction false} BboltNeverEnds(like: Key, prev: Option<Key>, es: Pairs, life: nat)
    requires Readable(like, es) && |es| <= life
    ensures forall i :: 0 <= i < |BboltVerdicts(like, false, prev, es, life)| ==> !BboltVerdicts(like, false, prev, es, life)[i].End?
    decreases es
  {
    if es != [] {
      BboltNeverEnds(like, like.FromBytes(es[0].key), es[1..], life - 1);
    }
  }

  /** What comes after the readable entries that there is time for. */
  lemma BboltThenEnds(like: Key, es: Pairs, life: nat)
    requires es != [] && life > 0 ==> like.FromBytes(es[0].key).None?
    ensures Gives(BboltVerdicts(like, false, None, es, life)) == []
    ensures FirstEnd(BboltVerdicts(like, false, None, es, life)) == if es == [] then Finished else if life == 0 then Cancelled else BadKey
  {
  }

  /** bbolt without stopAtNil, whatever the time left and whatever is stored: every entry until the context is found
      ended, or a key that cannot be read is met. */
  lemma BboltGivesUntil(like: Key, es: Pairs, life: nat, m: nat)
    requires m == if FirstUnreadable(like, es) < life then FirstUnreadable(like, es) else life
    ensures Readable(like, es[..m])
    ensures Gives(BboltVerdicts(like, false, None, es, life)) == Decoded(like, es[..m])
    ensures FirstEnd(BboltVerdicts(like, false, None, es, life)) == if m == |es| then Finished else if m == life then Cancelled else BadKey
  {
    var first := es[..m];
    assert forall i :: 0 <= i < m ==> first[i] == es[..FirstUnreadable(like, es)][i];
    BboltSplit(like, None, es, life, m);
    BboltNeverEnds(like, None, first, m);
    BboltGivesAll(like, None, first, m);
    BboltThenEnds(like, es[m..], life - m);
    GivesConcat(BboltVerdicts(like, false, None, first, m), BboltVerdicts(like, false, None, es[m..], life - m));
  }

  lemma HeadVerdict(v: Verdict, vs: seq<Verdict>)
    ensures Gives([v] + vs) == if v.Give? then [v.entry] + Gives(vs) else if v.Skip? then Gives(vs) else []
    ensures FirstEnd([v] + vs) == if v.End? then v.outcome else FirstEnd(vs)
  {
    assert ([v] + vs)[1..] == vs;
  }

  /** A run of length `n` is cut short by a key that has no Next: a hash key below 2^248 - 1 with another entry after it. */
  predicate PanicsAt(like: Key, es: Pairs, n: nat)
    requires Readable(like, es)
  {
    0 < n < |es| && like.FromBytes(es[n - 1].key).value.Next().None?
  }

  predicate RunPanics(like: Key, es: Pairs)
    requires Readable(like, es)
  {
    PanicsAt(like, es, |Run(Adjacent(like), es)|)
  }

  function RunEnd(like: Key, es: Pairs): Outcome
    requires Readable(like, es)
  {
    if RunPanics(like, es) then Panicked else Finished
  }

  lemma OnlyHashesPanic(like: Key, es: Pairs)
    requires Readable(like, es)
    ensures RunPanics(like, es) ==> like.HashKey?
  {
    if RunPanics(like, es) {
      BytesRoundTrip(like, like, es[|Run(Adjacent(like), es)| - 1].key);
    }
  }

  lemma GapEndsRun(like: Key, key: Key, es: Pairs, life: nat)
    requires es != [] && life > 0 && like.FromBytes(es[0].key).Some? && key.Next() != like.FromBytes(es[0].key)
    ensures Gives(BboltVerdicts(like, true, Some(key), es, life)) == []
    ensures FirstEnd(BboltVerdicts(like, true, Some(key), es, life)) == if key.Next().None? then Panicked else Finished
  {
    assert BboltVerdict(like, true, Some(key), es[0]) == End(if key.Next().None? then Panicked else Finished);
  }

  lemma RunHead(like: Key, prev: Option<Key>, es: Pairs, life: nat)
    requires es != [] && life > 0 && like.FromBytes(es[0].key).Some?
    requires prev.Some? ==> prev.value.Next() == like.FromBytes(es[0].key)
    ensures var key, rest := like.FromBytes(es[0].key), BboltVerdicts(like, true, like.FromBytes(es[0].key), es[1..], life - 1);
      && Gives(BboltVerdicts(like, true, prev, es, life)) == [Entry(key.value, es[0].value)] + Gives(rest)
      && FirstEnd(BboltVerdicts(like, true, prev, es, life)) == FirstEnd(rest)
  {
    HeadVerdict(BboltVerdict(like, true, prev, es[0]), BboltVerdicts(like, true, like.FromBytes(es[0].key), es[1..], life - 1));
  }

  lemma DecodedCons(like: Key, e: Pair, es: Pairs)
    requires Readable(like, es) && like.FromBytes(e.key).Some?
    ensures Readable(like, [e] + es)
    ensures Decoded(like, [e] + es) == [Entry(like.FromBytes(e.key).value, e.value)] + Decoded(like, es)
  {
    assert ([e] + es)[1..] == es;
  }

  lemma PanicsOneLater(like: Key, es: Pairs, n: nat)
    requires Readable(like, es) && es != [] && n > 0
    ensures PanicsAt(like, es, n + 1) <==> PanicsAt(like, es[1..], n)
  {
    if n < |es[1..]| {
      assert es[n] == es[1..][n - 1];
    }
  }

  lemma RunGoesOn(like: Key, es: Pairs)
    requires Readable(like, es) && |es| > 1 && Adjacent(like)(es[0], es[1])
    ensures Decoded(like, Run(Adjacent(like), es)) ==
      [Entry(like.FromBytes(es[0].key).value, es[0].value)] + Decoded(like, Run(Adjacent(like), es[1..]))
    ensures RunEnd(like, es) == RunEnd(like, es[1..])
  {
    var run, rest := Run(Adjacent(like), es), Run(Adjacent(like), es[1..]);
    assert run == [es[0]] + rest;
    DecodedCons(like, es[0], rest);
    PanicsOneLater(like, es, |rest|);
  }

  lemma RunStops(like: Key, es: Pairs)
    requires Readable(like, es) && es != [] && (|es| > 1 ==> !Adjacent(like)(es[0], es[1]))
    ensures Decoded(like, Run(Adjacent(like), es)) == [Entry(like.FromBytes(es[0].key).value, es[0].value)]
    ensures RunEnd(like, es) == if |es| > 1 && like.FromBytes(es[0].key).value.Next().None? then Panicked else Finished
  {
    assert Run(Adjacent(like), es) == [es[0]] && Decoded(like, [es[0]][1..]) == [];
  }

  predicate GivesRun(like: Key, prev: Option<Key>, es: Pairs, life: nat)
    requires Readable(like, es)
  {
    && Gives(BboltVerdicts(like, true, prev, es, life)) == Decoded(like, Run(Adjacent(like), es))
    && FirstEnd(BboltVerdicts(like, true, prev, es, life)) == RunEnd(like, es)
  }

  predicate Continues(like: Key, prev: Option<Key>, es: Pairs) {
    es != [] && prev.Some? ==> prev.value.Next() == like.FromBytes(es[0].key)
  }

  lemma RunGrows(like: Key, prev: Option<Key>, es: Pairs, life: nat)
    requires Readable(like, es) && |es| > 1 && life > 0 && Continues(like, prev, es) && Adjacent(like)(es[0], es[1])
    requires GivesRun(like, like.FromBytes(es[0].key), es[1..], life - 1)
    ensures GivesRun(like, prev, es, life)
  {
    RunHead(like, prev, es, life);
    RunGoesOn(like, es);
  }

  lemma RunIsCut(like: Key, prev: Option<Key>, es: Pairs, life: nat)
    requires Readable(like, es) && es != [] && |es| <= life && Continues(like, prev, es)
    requires |es| > 1 ==> !Adjacent(like)(es[0], es[1])
    ensures GivesRun(like, prev, es, life)
  {
    RunHead(like, prev, es, life);
    RunStops(like, es);
    if |es| > 1 {
      GapEndsRun(like, like.FromBytes(es[0].key).value, es[1..], life - 1);
    }
  }

  /** With stopAtNil it gives exactly the run from the first entry in range, whichever key that is. */
  lemma {:induction false} BboltGivesRun(like: Key, prev: Option<Key>, es: Pairs, life: nat)
    requires Readable(like, es) && |es| <= life && Continues(like, prev, es)
    ensures GivesRun(like, prev, es, life)
    decreases es
  {
    if |es| > 1 && Adjacent(like)(es[0], es[1]) {
      BboltGivesRun(like, like.FromBytes(es[0].key), es[1..], life - 1);
      RunGrows(like, prev, es, life);
    } else if es != [] {
      RunIsCut(like, prev, es, life);
    }
  }

  /** bboltShelf.Range, given time and an accepting callback: exactly the entries in range in byte order, or with
      stopAtNil their longest consecutive run from the first one, with a nil error unless Next panics there. */
  lemma BboltRangeMeaning(bucket: Pairs, from: Key, to: Key, stopAtNil: bool, life: nat, cb: Callback)
    requires Sorted(bucket)
    requires Readable(from, InRange(bucket, from.Bytes(), to.Bytes())) && |InRange(bucket, from.Bytes(), to.Bytes())| <= life
    ensures forall e :: e in InRange(bucket, from.Bytes(), to.Bytes()) <==>
      e in bucket && !Less(e.key, from.Bytes()) && Less(e.key, to.Bytes())
    ensures Sorted(InRange(bucket, from.Bytes(), to.Bytes()))
    ensures var es := InRange(bucket, from.Bytes(), to.Bytes());
      var all := Decoded(from, if stopAtNil then Run(Adjacent(from), es) else es);
      Accepted(cb, all, |all|) ==> BboltResult(from, stopAtNil, None, es, life, cb, []) == Stopped(all, if stopAtNil then RunEnd(from, es) else Finished)
  {
    var es := InRange(bucket, from.Bytes(), to.Bytes());
    InRangeIsExact(bucket, from.Bytes(), to.Bytes());
    if stopAtNil {
      BboltGivesRun(from, None, es, life);
    } else {
      BboltGivesAll(from, None, es, life);
    }
    DeliverMeaning(BboltVerdicts(from, stopAtNil, None, es, life), cb);
  }

  // ---- Badger against bbolt ----

  /** Byte keys of one length without leading zeros. */
  predicate Uniform(es: Pairs, len: nat) {
    forall i :: 0 <= i < |es| ==> |es[i].key| == len && Minimal(es[i].key)
  }

  /** What it takes for byte key `b` to be the Next of `a`, for bbolt and on a Badger shelf. */
  predicate BboltFollows(a: bytes, b: bytes) {
    Minimal(b) && Value(b) == Value(a) + 1
  }

  predicate BadgerFollows(name: bytes, a: bytes, b: bytes) {
    if name == [] then BboltFollows(a, b) else name[0] != 0 && |a| == |b| && Value(b) == Value(a) + 1
  }

  /** Where the place value grows, a leading digit outweighs everything below it and a carry. */
  lemma PlaceOutweighs(v: nat, p: nat, q: nat, x: nat)
    requires v > 0 && 256 * p <= q && x < p
    ensures v * q > v * p + x + 1
  {
    assert v * q >= v * (256 * p);
    MulAssoc(v, p);
    assert v * p >= p;
  }

  lemma Pow256Jumps(m: nat, n: nat)
    requires m < n
    ensures 256 * Pow256(m) <= Pow256(n)
  {
    Pow256Monotone(m + 1, n);
  }

  /** One more under the same leading bytes cannot change the length. */
  lemma SameLength(v: nat, a: bytes, b: bytes)
    requires v > 0 && v * Pow256(|b|) + Value(b) == v * Pow256(|a|) + Value(a) + 1
    ensures |a| == |b|
  {
    ValueBound(a);
    ValueBound(b);
    if |a| < |b| {
      Pow256Jumps(|a|, |b|);
      PlaceOutweighs(v, Pow256(|a|), Pow256(|b|), Value(a));
    } else if |b| < |a| {
      Pow256Jumps(|b|, |a|);
      PlaceOutweighs(v, Pow256(|b|), Pow256(|a|), Value(b));
    }
  }

  /** Next of the prefixed key leads to the prefixed other key exactly so, carries included. */
  lemma PrefixedNext(name: bytes, a: bytes, b: bytes)
    ensures BytesKey(name + a).Next() == Some(BytesKey(name + b)) <==> BadgerFollows(name, a, b)
  {
    BytesNextIsMinimalSuccessor(name + a, name + b);
    if name == [] {
      assert name + a == a && name + b == b;
    } else if name[0] != 0 {
      ValueConcat(name, a);
      ValueConcat(name, b);
      MinimalIsPositive(name);
      if Value(name + b) == Value(name + a) + 1 {
        SameLength(Value(name), a, b);
      }
    }
  }

  type Test = (bytes, bytes) -> bool

  function BboltTest(): Test {
    (a: bytes, b: bytes) => BboltFollows(a, b)
  }

  function BadgerTest(name: bytes): Test {
    (a: bytes, b: bytes) => BadgerFollows(name, a, b)
  }

  /** Under stopAtNil over byte keys: going on while each key follows the one before it. */
  function FollowVerdicts(test: Test, prev: Option<bytes>, es: Pairs, life: nat): seq<Verdict>
    decreases es
  {
    if es == [] then []
    else if life == 0 then [End(Cancelled)]
    else [FollowVerdict(test, prev, es[0])] + FollowVerdicts(test, Some(es[0].key), es[1..], life - 1)
  }

  function FollowVerdict(test: Test, prev: Option<bytes>, e: Pair): Verdict {
    if Passes(test, prev, e.key) then Give(Entry(BytesKey(e.key), e.value)) else End(Finished)
  }

  predicate Passes(test: Test, prev: Option<bytes>, k: bytes) {
    prev.Some? ==> test(prev.value, k)
  }

  function KeyAfter(name: bytes, prev: Option<bytes>): Option<Key> {
    match prev
    case None => None
    case Some(b) => Some(BytesKey(name + b))
  }

  lemma VerdictsOnBytes(name: bytes, like: Key, prev: Option<bytes>, e: Pair)
    requires like.BytesKey?
    ensures BboltVerdict(like, true, KeyAfter([], prev), e) == FollowVerdict(BboltTest(), prev, e)
    ensures BadgerVerdict(name, like, true, KeyAfter(name, prev), e) == FollowVerdict(BadgerTest(name), prev, e)
  {
    if prev.Some? {
      PrefixedNext([], prev.value, e.key);
      PrefixedNext(name, prev.value, e.key);
      assert [] + e.key == e.key;
    }
  }

  lemma KeyRead(name: bytes, like: Key, k: bytes)
    requires like.BytesKey?
    ensures like.FromBytes(name + k) == KeyAfter(name, Some(k))
    ensures name == [] ==> like.FromBytes(k) == KeyAfter(name, Some(k))
  {
    assert [] + k == k;
  }

  type Verdicts = (Option<bytes>, Pairs, nat) -> seq<Verdict>

  predicate FollowsAt(vs: Verdicts, test: Test, prev: Option<bytes>, es: Pairs, life: nat) {
    vs(prev, es, life) ==
      if es == [] then []
      else if life == 0 then [End(Cancelled)]
      else [FollowVerdict(test, prev, es[0])] + vs(Some(es[0].key), es[1..], life - 1)
  }

  lemma {:induction false} AreFollowVerdicts(vs: Verdicts, test: Test, prev: Option<bytes>, es: Pairs, life: nat)
    requires forall p, e, l :: FollowsAt(vs, test, p, e, l)
    ensures vs(prev, es, life) == FollowVerdicts(test, prev, es, life)
    decreases es
  {
    assert FollowsAt(vs, test, prev, es, life);
    if es != [] && life > 0 {
      AreFollowVerdicts(vs, test, Some(es[0].key), es[1..], life - 1);
    }
  }

  lemma BboltHead(like: Key, prev: Option<Key>, es: Pairs, life: nat, v: Verdict, key: Option<Key>)
    requires es != [] && life > 0 && v == BboltVerdict(like, true, prev, es[0]) && key == like.FromBytes(es[0].key)
    ensures BboltVerdicts(like, true, prev, es, life) == [v] + BboltVerdicts(like, true, key, es[1..], life - 1)
  {
  }

  lemma BboltHeadOnBytes(like: Key, prev: Option<bytes>, es: Pairs, life: nat)
    requires like.BytesKey? && es != [] && life > 0
    ensures BboltVerdicts(like, true, KeyAfter([], prev), es, life) ==
      [FollowVerdict(BboltTest(), prev, es[0])] + BboltVerdicts(like, true, KeyAfter([], Some(es[0].key)), es[1..], life - 1)
  {
    VerdictsOnBytes([], like, prev, es[0]);
    KeyRead([], like, es[0].key);
    BboltHead(like, KeyAfter([], prev), es, life, FollowVerdict(BboltTest(), prev, es[0]), KeyAfter([], Some(es[0].key)));
  }

  function BboltOn(like: Key): Verdicts {
    (p: Option<bytes>, e: Pairs, l: nat) => BboltVerdicts(like, true, KeyAfter([], p), e, l)
  }

  lemma FollowsAtBy(vs: Verdicts, test: Test, prev: Option<bytes>, es: Pairs, life: nat, now: seq<Verdict>, later: seq<Verdict>)
    requires vs(prev, es, life) == now && (es == [] ==> now == []) && (es != [] && life == 0 ==> now == [End(Cancelled)])
    requires es != [] && life > 0 ==> vs(Some(es[0].key), es[1..], life - 1) == later && now == [FollowVerdict(test, prev, es[0])] + later
    ensures FollowsAt(vs, test, prev, es, life)
  {
  }

  lemma BboltOver(like: Key, es: Pairs, life: nat, prev: Option<Key>)
    requires es == [] || life == 0
    ensures BboltVerdicts(like, true, prev, es, life) == if es == [] then [] else [End(Cancelled)]
  {
  }

  lemma BboltOnIs(like: Key, p: Option<bytes>, e: Pairs, l: nat)
    ensures BboltOn(like)(p, e, l) == BboltVerdicts(like, true, KeyAfter([], p), e, l)
  {
  }

  lemma BboltFollowsAt(like: Key, p: Option<bytes>, e: Pairs, l: nat)
    requires like.BytesKey?
    ensures FollowsAt(BboltOn(like), BboltTest(), p, e, l)
  {
    var now := BboltOn(like)(p, e, l);
    BboltOnIs(like, p, e, l);
    if e != [] && l > 0 {
      var later := BboltOn(like)(Some(e[0].key), e[1..], l - 1);
      BboltOnIs(like, Some(e[0].key), e[1..], l - 1);
      BboltHeadOnBytes(like, p, e, l);
      FollowsAtBy(BboltOn(like), BboltTest(), p, e, l, now, later);
    } else {
      BboltOver(like, e, l, KeyAfter([], p));
      FollowsAtBy(BboltOn(like), BboltTest(), p, e, l, now, []);
    }
  }

  lemma BboltOnBytes(like: Key, prev: Option<bytes>, es: Pairs, life: nat)
    requires like.BytesKey?
    ensures BboltVerdicts(like, true, KeyAfter([], prev), es, life) == FollowVerdicts(BboltTest(), prev, es, life)
  {
    forall p: Option<bytes>, e: Pairs, l: nat
      ensures FollowsAt(BboltOn(like), BboltTest(), p, e, l)
    {
      BboltFollowsAt(like, p, e, l);
    }
    AreFollowVerdicts(BboltOn(like), BboltTest(), prev, es, life);
  }

  lemma {:induction false} BadgerOnBytes(name: bytes, like: Key, prev: Option<bytes>, es: Pairs, life: nat)
    requires like.BytesKey?
    ensures BadgerVerdicts(name, like, true, KeyAfter(name, prev), es, life) ==
      WithLastLook(FollowVerdicts(BadgerTest(name), prev, es, life), life == |es|)
    decreases es
  {
    if es != [] && life > 0 {
      var k := es[0].key;
      BadgerOnBytes(name, like, Some(k), es[1..], life - 1);
      VerdictsOnBytes(name, like, prev, es[0]);
      KeyRead(name, like, k);
    }
  }

  /** From the key before them on, two tests see the same gaps between neighbours, up to the first gap. */
  predicate TestsAgree(f: Test, g: Test, prev: Option<bytes>, es: Pairs)
    decreases es
  {
    es != [] ==>
      && Passes(f, prev, es[0].key) == Passes(g, prev, es[0].key)
      && (Passes(f, prev, es[0].key) ==> TestsAgree(f, g, Some(es[0].key), es[1..]))
  }

  /** bbolt and Badger see the same gaps between neighbouring keys, up to the first gap. */
  predicate NeighboursAgree(name: bytes, es: Pairs) {
    TestsAgree(BboltTest(), BadgerTest(name), None, es)
  }

  /** The verdicts that are looked at. */
  function UpToEnd(vs: seq<Verdict>): seq<Verdict> {
    if vs == [] then [] else if vs[0].End? then [vs[0]] else [vs[0]] + UpToEnd(vs[1..])
  }

  lemma UpToEndCons(v: Verdict, vs: seq<Verdict>)
    ensures UpToEnd([v] + vs) == if v.End? then [v] else [v] + UpToEnd(vs)
  {
    assert ([v] + vs)[1..] == vs;
  }

  lemma {:induction false} DeliverUpToEnd(vs: seq<Verdict>, cb: Callback, trace: Trace)
    ensures Deliver(UpToEnd(vs), cb, trace) == Deliver(vs, cb, trace)
  {
    if vs != [] && !vs[0].End? {
      var rest := vs[1..];
      assert UpToEnd(vs)[1..] == UpToEnd(rest);
      match vs[0]
      case Skip => DeliverUpToEnd(rest, cb, trace);
      case Give(e) => DeliverUpToEnd(rest, cb, trace + [e]);
    }
  }

  /** bbolt's verdicts with the look at the context that Badger takes after the last entry. */
  function WithLastLook(vs: seq<Verdict>, isLast: bool): seq<Verdict> {
    vs + if isLast then [End(Cancelled)] else []
  }

  lemma {:induction false} UpToEndAppend(a: seq<Verdict>, b: seq<Verdict>, tail: seq<Verdict>)
    requires UpToEnd(a) == UpToEnd(b)
    ensures UpToEnd(a + tail) == UpToEnd(b + tail)
  {
    if a != [] && b != [] {
      var v, rest, other := a[0], a[1..], b[1..];
      assert UpToEnd(a)[0] == v && UpToEnd(b)[0] == b[0];
      assert a + tail == [v] + (rest + tail) && b + tail == [v] + (other + tail);
      UpToEndCons(v, rest + tail);
      UpToEndCons(v, other + tail);
      if !v.End? {
        assert UpToEnd(a)[1..] == UpToEnd(rest) && UpToEnd(b)[1..] == UpToEnd(other);
        UpToEndAppend(rest, other, tail);
      }
    }
  }

  lemma {:induction false} AgreeingTests(f: Test, g: Test, prev: Option<bytes>, es: Pairs, life: nat)
    requires TestsAgree(f, g, prev, es)
    ensures UpToEnd(FollowVerdicts(g, prev, es, life)) == UpToEnd(FollowVerdicts(f, prev, es, life))
    decreases es
  {
    if es != [] && life > 0 {
      var v, k := FollowVerdict(f, prev, es[0]), Some(es[0].key);
      if v.Give? {
        AgreeingTests(f, g, k, es[1..], life - 1);
      }
      UpToEndCons(v, FollowVerdicts(f, k, es[1..], life - 1));
      UpToEndCons(v, FollowVerdicts(g, k, es[1..], life - 1));
    }
  }

  lemma BadgerAsBbolt(name: bytes, like: Key, es: Pairs, life: nat)
    requires like.BytesKey? && NeighboursAgree(name, es)
    ensures UpToEnd(BadgerVerdicts(name, like, true, None, es, life)) ==
      UpToEnd(WithLastLook(BboltVerdicts(like, true, None, es, life), life == |es|))
  {
    BboltOnBytes(like, None, es, life);
    BadgerOnBytes(name, like, None, es, life);
    AgreeingTests(BboltTest(), BadgerTest(name), None, es, life);
    UpToEndAppend(FollowVerdicts(BadgerTest(name), None, es, life), FollowVerdicts(BboltTest(), None, es, life),
      if life == |es| then [End(Cancelled)] else []);
  }

  lemma UniformRange(es: Pairs, len: nat, from: bytes, to: bytes)
    requires Sorted(es) && Uniform(es, len)
    ensures Uniform(InRange(es, from, to), len)
  {
    InRangeIsExact(es, from, to);
    var range := InRange(es, from, to);
    forall i | 0 <= i < |range|
      ensures |range[i].key| == len && Minimal(range[i].key)
    {
      assert range[i] in es;
    }
  }

  /** `late` is delivered as `vs` is, but for one more look at the context. */
  lemma DeliverLate(vs: seq<Verdict>, late: seq<Verdict>, isLast: bool, cb: Callback)
    requires UpToEnd(late) == UpToEnd(WithLastLook(vs, isLast))
    ensures var a, b := Close(Deliver(late, cb, [])), Close(Deliver(vs, cb, []));
      && a.trace == b.trace
      && (a != b ==> isLast && b.outcome == Finished && a.outcome == Cancelled)
      && (isLast && Deliver(vs, cb, []).Going? ==> a != b)
  {
    DeliverUpToEnd(late, cb, []);
    DeliverUpToEnd(WithLastLook(vs, isLast), cb, []);
    DeliverConcat(vs, [End(Cancelled)], cb, []);
    assert vs + [] == vs;
  }

  /** Badger's Range over byte keys is bbolt's over the same entries, for every shelf name, callback, stopAtNil mode and
      cancellation, if under stopAtNil the neighbouring keys agree; but for one thing: when the context ends right
      after the last entry, Badger still notices. */
  lemma BadgerRangeIsBboltRange(name: bytes, like: Key, es: Pairs, stopAtNil: bool, life: nat, cb: Callback)
    requires like.BytesKey? && (stopAtNil ==> NeighboursAgree(name, es))
    ensures var badger, bbolt := BadgerResult(name, like, stopAtNil, None, es, life, cb, []), BboltResult(like, stopAtNil, None, es, life, cb, []);
      && badger.trace == bbolt.trace
      && (badger != bbolt ==> life == |es| && bbolt.outcome == Finished && badger.outcome == Cancelled)
      && (life == |es| && Deliver(BboltVerdicts(like, stopAtNil, None, es, life), cb, []).Going? ==> badger != bbolt)
  {
    if stopAtNil {
      BadgerAsBbolt(name, like, es, life);
    } else {
      GapsIgnored(name, like, None, None, es, life);
    }
    DeliverLate(BboltVerdicts(like, stopAtNil, None, es, life), BadgerVerdicts(name, like, stopAtNil, None, es, life), life == |es|, cb);
  }

  /** Where tests disagree, one stops and the other goes on. */
  lemma {:induction false} DisagreementShows(f: Test, g: Test, prev: Option<bytes>, es: Pairs, life: nat)
    requires !TestsAgree(f, g, prev, es) && |es| <= life
    ensures Gives(FollowVerdicts(f, prev, es, life)) != Gives(FollowVerdicts(g, prev, es, life))
    decreases es
  {
    var k, rest := Some(es[0].key), es[1..];
    var fs, gs := FollowVerdicts(f, k, rest, life - 1), FollowVerdicts(g, k, rest, life - 1);
    HeadVerdict(FollowVerdict(f, prev, es[0]), fs);
    HeadVerdict(FollowVerdict(g, prev, es[0]), gs);
    var first := [Entry(BytesKey(es[0].key), es[0].value)];
    if Passes(f, prev, es[0].key) == Passes(g, prev, es[0].key) {
      DisagreementShows(f, g, k, rest, life - 1);
      assert (first + Gives(fs))[1..] == Gives(fs) && (first + Gives(gs))[1..] == Gives(gs);
    } else {
      assert (first + Gives(fs))[0] == (first + Gives(gs))[0] == first[0];
    }
  }

  lemma DisagreementIsGiven(name: bytes, like: Key, es: Pairs, life: nat)
    requires like.BytesKey? && |es| < life && !NeighboursAgree(name, es)
    ensures Gives(BadgerVerdicts(name, like, true, None, es, life)) != Gives(BboltVerdicts(like, true, None, es, life))
  {
    var badger := FollowVerdicts(BadgerTest(name), None, es, life);
    BboltOnBytes(like, None, es, life);
    BadgerOnBytes(name, like, None, es, life);
    assert WithLastLook(badger, false) == badger;
    DisagreementShows(BboltTest(), BadgerTest(name), None, es, life);
  }

  lemma SameResultSameGives(a: seq<Verdict>, b: seq<Verdict>, cb: Callback)
    requires Accepted(cb, Gives(a), |Gives(a)|) && Accepted(cb, Gives(b), |Gives(b)|)
    requires Close(Deliver(a, cb, [])) == Close(Deliver(b, cb, []))
    ensures Gives(a) == Gives(b)
  {
    DeliverMeaning(a, cb);
    DeliverMeaning(b, cb);
  }

  /** With stopAtNil, time left and no refusal by the callback, the two agree exactly when the neighbouring keys do. */
  lemma BadgerAgreesIff(name: bytes, like: Key, es: Pairs, life: nat, cb: Callback)
    requires like.BytesKey? && |es| < life
    requires var badger, bbolt := Gives(BadgerVerdicts(name, like, true, None, es, life)), Gives(BboltVerdicts(like, true, None, es, life));
      Accepted(cb, badger, |badger|) && Accepted(cb, bbolt, |bbolt|)
    ensures BadgerResult(name, like, true, None, es, life, cb, []) == BboltResult(like, true, None, es, life, cb, []) <==> NeighboursAgree(name, es)
  {
    if NeighboursAgree(name, es) {
      BadgerRangeIsBboltRange(name, like, es, true, life, cb);
    } else {
      DisagreementIsGiven(name, like, es, life);
      if BadgerResult(name, like, true, None, es, life, cb, []) == BboltResult(like, true, None, es, life, cb, []) {
        SameResultSameGives(BadgerVerdicts(name, like, true, None, es, life), BboltVerdicts(like, true, None, es, life), cb);
      }
    }
  }

  lemma {:induction false} UniformTestsAgree(name: bytes, prev: Option<bytes>, es: Pairs, len: nat)
    requires Uniform(es, len) && (prev.Some? ==> |prev.value| == len) && (name != [] ==> name[0] != 0)
    ensures TestsAgree(BboltTest(), BadgerTest(name), prev, es)
    decreases es
  {
    if es != [] {
      UniformTestsAgree(name, Some(es[0].key), es[1..], len);
    }
  }

  /** Keys of one length without leading zeros agree on every shelf whose name does not start with a zero byte. */
  lemma UniformNeighboursAgree(name: bytes, es: Pairs, len: nat)
    requires Uniform(es, len) && (name != [] ==> name[0] != 0)
    ensures NeighboursAgree(name, es)
  {
    UniformTestsAgree(name, None, es, len);
  }

  /** So do the entries in any range of such a shelf. */
  lemma UniformShelvesAgree(flat: Pairs, name: bytes, len: nat, from: bytes, to: bytes)
    requires Sorted(flat) && Uniform(ShelfOf(flat, name), len) && (name != [] ==> name[0] != 0)
    ensures NeighboursAgree(name, InRange(ShelfOf(flat, name), from, to))
  {
    ShelfIsSorted(flat, name);
    UniformRange(ShelfOf(flat, name), len, from, to);
    UniformNeighboursAgree(name, InRange(ShelfOf(flat, name), from, to), len);
  }

  /** On every named shelf whose name does not start with a zero byte the two can part, either way: after [0, 1], bbolt
      stops before [0, 2] and Badger goes on, and before [2] it is the other way round. */
  lemma NeighboursCanPart(name: bytes)
    requires name != [] && name[0] != 0
    ensures !BboltFollows([0, 1], [0, 2]) && BadgerFollows(name, [0, 1], [0, 2])
    ensures BboltFollows([0, 1], [2]) && !BadgerFollows(name, [0, 1], [2])
    ensures !NeighboursAgree(name, [Pair([0, 1], []), Pair([0, 2], [])])
    ensures !NeighboursAgree(name, [Pair([0, 1], []), Pair([2], [])])
  {
    SmallValues();
    var f, g := BboltTest(), BadgerTest(name);
    var one, other := [Pair([0, 1], []), Pair([0, 2], [])], [Pair([0, 1], []), Pair([2], [])];
    assert one[1..][0].key == [0, 2] && other[1..][0].key == [2];
    assert !TestsAgree(f, g, Some([0, 1]), one[1..]) && !TestsAgree(f, g, Some([0, 1]), other[1..]);
  }

  lemma SmallValues()
    ensures Value([0, 1]) == 1 && Value([0, 2]) == 2 && Value([2]) == 2
  {
    assert [0, 1][..1] == [0] && [0, 2][..1] == [0] && [2][..0] == [] && [0][..0] == [];
    assert Value([0]) == 0;
  }

  lemma {:induction false} GapsIgnored(name: bytes, like: Key, p: Option<Key>, q: Option<Key>, es: Pairs, life: nat)
    ensures BadgerVerdicts(name, like, false, p, es, life) ==
      WithLastLook(BboltVerdicts(like, false, q, es, life), life == |es|)
    decreases es
  {
    if es != [] && life > 0 {
      assert BadgerVerdict(name, like, false, p, es[0]) == BboltVerdict(like, false, q, es[0]);
      GapsIgnored(name, like, like.FromBytes(name + es[0].key), like.FromBytes(es[0].key), es[1..], life - 1);
    }
  }

  /** Not stopping at gaps, Badger's Iterate and Range agree with bbolt's over the same entries for every key type and
      shelf name, but for that last look at the context. */
  lemma BadgerIterateIsBboltIterate(name: bytes, like: Key, es: Pairs, life: nat, cb: Callback)
    ensures var badger, bbolt := BadgerResult(name, like, false, None, es, life, cb, []), BboltResult(like, false, None, es, life, cb, []);
      && badger.trace == bbolt.trace
      && (badger != bbolt ==> life == |es| && bbolt.outcome == Finished && badger.outcome == Cancelled)
      && (life == |es| && Deliver(BboltVerdicts(like, false, None, es, life), cb, []).Going? ==> badger != bbolt)
  {
    GapsIgnored(name, like, None, None, es, life);
    DeliverLate(BboltVerdicts(like, false, None, es, life), BadgerVerdicts(name, like, false, None, es, life), life == |es|, cb);
  }

  /** The key types of fixed size, on a named shelf: the prefixed key is never readable, so no gap is ever seen. */
  predicate FixedSize(like: Key) {
    !like.BytesKey?
  }

  lemma {:induction false} GapsUnseen(name: bytes, like: Key, stopAtNil: bool, es: Pairs, life: nat)
    requires FixedSize(like) && name != [] && Readable(like, es)
    ensures BadgerVerdicts(name, like, stopAtNil, None, es, life) == BboltVerdicts(like, false, None, es, life) + (if life == |es| then [End(Cancelled)] else [])
    decreases es
  {
    if es != [] && life > 0 {
      assert like.FromBytes(name + es[0].key) == None;
      assert BadgerVerdict(name, like, stopAtNil, None, es[0]) == BboltVerdict(like, false, None, es[0]);
      GapsUnseen(name, like, stopAtNil, es[1..], life - 1);
      PrevUnused(like, None, like.FromBytes(es[0].key), es[1..], life - 1);
    }
  }

  lemma PrevUnused(like: Key, p: Option<Key>, q: Option<Key>, es: Pairs, life: nat)
    ensures BboltVerdicts(like, false, p, es, life) == BboltVerdicts(like, false, q, es, life)
  {
  }

  /** For them stopAtNil meets its contract on a Badger shelf exactly when the entries in range have no gap. */
  lemma BadgerStopsAtGapIff(name: bytes, like: Key, es: Pairs, life: nat, cb: Callback)
    requires FixedSize(like) && name != [] && Readable(like, es) && |es| < life
    requires Accepted(cb, Decoded(like, es), |es|)
    ensures BadgerResult(name, like, true, None, es, life, cb, []) == Stopped(Decoded(like, es), Finished)
    ensures BadgerResult(name, like, true, None, es, life, cb, []) == Stopped(Decoded(like, Run(Adjacent(like), es)), Finished) <==> Run(Adjacent(like), es) == es
  {
    GapsUnseen(name, like, true, es, life);
    BboltGivesAll(like, None, es, life);
    var vs := BboltVerdicts(like, false, None, es, life);
    assert vs + [] == vs;
    DeliverMeaning(vs, cb);
    DecodedLength(like, es);
    DecodedLength(like, Run(Adjacent(like), es));
  }

  lemma {:induction false} DecodedLength(like: Key, es: Pairs)
    requires Readable(like, es)
    ensures |Decoded(like, es)| == |es|
  {
    if es != [] {
      DecodedLength(like, es[1..]);
    }
  }

  // ---- Redis ----

  /** A shelf as a look-up from keys. */
  type Lookups = Key -> Option<bytes>

  function RedisLookups(sh: Shelf, db: map<string, bytes>): Lookups {
    (key: Key) => if sh.ToRedisKey(key) in db then Some(db[sh.ToRedisKey(key)]) else None
  }

  /** A key whose text Redis cannot read back: numbers from 2^31 on. */
  predicate Unreadable(key: Key) {
    key.Uint32Key? && key.u >= MAX_SIGNED
  }

  /** The stored keys among those walked, in walk order, cut at the first missing one if stopAtNil, and at the first
      stored one that cannot be read back. */
  function Existing(found: Lookups, stopAtNil: bool, keys: seq<Key>): Trace {
    if keys == [] then []
    else match found(keys[0])
      case Some(value) => if Unreadable(keys[0]) then [] else [Entry(keys[0], value)] + Existing(found, stopAtNil, keys[1..])
      case None => if stopAtNil then [] else Existing(found, stopAtNil, keys[1..])
  }

  ghost predicate GapIn(found: Lookups, keys: seq<Key>) {
    exists i :: 0 <= i < |keys| && found(keys[i]) == None
  }

  /** The walk gets to a stored key that cannot be read back. */
  ghost predicate MeetsUnreadable(found: Lookups, stopAtNil: bool, keys: seq<Key>) {
    exists i :: 0 <= i < |keys| && found(keys[i]).Some? && Unreadable(keys[i]) && (stopAtNil ==> !GapIn(found, keys[..i]))
  }

  function LookupVerdict(found: Lookups, stopAtNil: bool, key: Key): Verdict {
    match found(key)
    case Some(value) => if Unreadable(key) then End(BadKey) else Give(Entry(key, value))
    case None => if stopAtNil then End(Finished) else Skip
  }

  function LookupVerdicts(found: Lookups, stopAtNil: bool, keys: seq<Key>): seq<Verdict> {
    if keys == [] then [] else [LookupVerdict(found, stopAtNil, keys[0])] + LookupVerdicts(found, stopAtNil, keys[1..])
  }

  lemma {:induction false} LookupVerdictsSnoc(found: Lookups, stopAtNil: bool, keys: seq<Key>, last: Key)
    ensures LookupVerdicts(found, stopAtNil, keys + [last]) ==
      LookupVerdicts(found, stopAtNil, keys) + [LookupVerdict(found, stopAtNil, last)]
  {
    if keys == [] {
      assert ([] + [last])[1..] == [];
    } else {
      assert (keys + [last])[1..] == keys[1..] + [last];
      LookupVerdictsSnoc(found, stopAtNil, keys[1..], last);
    }
  }

  /** On an unchanging database every page judges a key by looking it up. */
  lemma JudgeLooksUp(sh: Shelf, srv: Server, db: map<string, bytes>, like: Key, stopAtNil: bool, page: nat, key: Key)
    requires srv.reply(page) == Some(db) && SameType(like, key)
    ensures Judge(sh, srv, like, stopAtNil)(page, key) == LookupVerdict(RedisLookups(sh, db), stopAtNil, key)
  {
    RedisKeyRoundTrip(sh, key, like);
  }

  lemma {:induction false} WalkLooksUp(judge: (int, Key) -> Verdict, found: Lookups, stopAtNil: bool, keys: seq<Key>)
    requires forall i, page: nat :: 0 <= i < |keys| ==> judge(page, keys[i]) == LookupVerdict(found, stopAtNil, keys[i])
    ensures WalkVerdicts(judge, keys) == LookupVerdicts(found, stopAtNil, keys)
  {
    if keys != [] {
      var n := |keys| - 1;
      assert forall i :: 0 <= i < n ==> keys[..n][i] == keys[i];
      WalkLooksUp(judge, found, stopAtNil, keys[..n]);
      LookupVerdictsSnoc(found, stopAtNil, keys[..n], keys[n]);
      assert keys == keys[..n] + [keys[n]];
    }
  }

  lemma GapInCons(found: Lookups, keys: seq<Key>)
    requires keys != []
    ensures GapIn(found, keys) <==> found(keys[0]) == None || GapIn(found, keys[1..])
  {
    assert forall i :: 1 <= i < |keys| ==> keys[i] == keys[1..][i - 1];
    if GapIn(found, keys[1..]) {
      var i :| 0 <= i < |keys[1..]| && found(keys[1..][i]) == None;
      assert found(keys[i + 1]) == None;
    }
  }

  lemma MeetsUnreadableCons(found: Lookups, stopAtNil: bool, keys: seq<Key>)
    requires keys != []
    ensures MeetsUnreadable(found, stopAtNil, keys) <==>
      if found(keys[0]).Some? && Unreadable(keys[0]) then true
      else (stopAtNil ==> found(keys[0]).Some?) && MeetsUnreadable(found, stopAtNil, keys[1..])
  {
    assert !GapIn(found, keys[..0]);
    forall i | 0 < i < |keys|
      ensures GapIn(found, keys[..i]) <==> found(keys[0]) == None || GapIn(found, keys[1..][..i - 1])
    {
      GapInCons(found, keys[..i]);
      assert keys[..i][1..] == keys[1..][..i - 1];
    }
    if MeetsUnreadable(found, stopAtNil, keys[1..]) && (stopAtNil ==> found(keys[0]).Some?) {
      var i :| 0 <= i < |keys[1..]| && found(keys[1..][i]).Some? && Unreadable(keys[1..][i]) && (stopAtNil ==> !GapIn(found, keys[1..][..i]));
      assert keys[1..][i] == keys[i + 1];
    }
  }

  lemma {:induction false} LookupsGive(found: Lookups, stopAtNil: bool, keys: seq<Key>, tail: seq<Verdict>)
    requires tail == [] || (|tail| == 1 && tail[0].End?)
    ensures Gives(LookupVerdicts(found, stopAtNil, keys) + tail) == Existing(found, stopAtNil, keys)
    ensures FirstEnd(LookupVerdicts(found, stopAtNil, keys) + tail) ==
      if MeetsUnreadable(found, stopAtNil, keys) then BadKey
      else if stopAtNil && GapIn(found, keys) then Finished
      else FirstEnd(tail)
  {
    if keys == [] {
      assert [] + tail == tail;
    } else {
      var v, vs := LookupVerdict(found, stopAtNil, keys[0]), LookupVerdicts(found, stopAtNil, keys[1..]);
      LookupsGive(found, stopAtNil, keys[1..], tail);
      assert LookupVerdicts(found, stopAtNil, keys) + tail == [v] + (vs + tail);
      HeadVerdict(v, vs + tail);
      GapInCons(found, keys);
      MeetsUnreadableCons(found, stopAtNil, keys);
    }
  }

  predicate AllOfType(like: Key, keys: seq<Key>) {
    forall i :: 0 <= i < |keys| ==> SameType(like, keys[i])
  }

  lemma AllOfTypeCons(like: Key, k: Key, keys: seq<Key>)
    requires SameType(like, k) && AllOfType(like, keys)
    ensures AllOfType(like, [k] + keys)
  {
  }

  ghost predicate KeepsType(next: Stepper) {
    forall k: Key {:trigger next(k)} :: next(k).Some? ==> SameType(k, next(k).value)
  }

  lemma SuccessorKeepsType()
    ensures KeepsType(Successor())
  {
  }

  lemma {:induction false} WalkKeepsType(next: Stepper, like: Key, from: Key, to: Key, life: nat)
    requires KeepsType(next) && SameType(like, from)
    ensures AllOfType(like, Walk(next, from, to, life).0)
    decreases life
  {
    if from != to && life > 0 {
      if next(from).Some? {
        var k := next(from).value;
        WalkKeepsType(next, like, k, to, life - 1);
        AllOfTypeCons(like, from, Walk(next, k, to, life - 1).0);
      }
    }
  }

  lemma FetchedKeepsType(like: Key, keys: seq<Key>, end: WalkEnd)
    requires AllOfType(like, keys)
    ensures Fetched(keys, end) <= keys && AllOfType(like, Fetched(keys, end))
  {
  }

  /** The verdicts of a call whose walk is known. */
  lemma RangeVerdictsAre(sh: Shelf, srv: Server, from: Key, to: Key, keys: seq<Key>, end: WalkEnd, stopAtNil: bool, life: nat)
    requires Walk(Successor(), from, to, life) == (keys, end)
    ensures RangeVerdicts(sh, srv, from, to, stopAtNil, life) == WalkVerdicts(Judge(sh, srv, from, stopAtNil), Fetched(keys, end)) + Tail(srv, |keys|, end)
  {
  }

  lemma FetchedAreOfType(from: Key, to: Key, keys: seq<Key>, end: WalkEnd, life: nat)
    requires Walk(Successor(), from, to, life) == (keys, end)
    ensures Fetched(keys, end) <= keys && AllOfType(from, Fetched(keys, end))
  {
    SuccessorKeepsType();
    WalkKeepsType(Successor(), from, from, to, life);
    FetchedKeepsType(from, keys, end);
  }

  lemma LookedUp(judge: (int, Key) -> Verdict, found: Lookups, srv: Server, db: map<string, bytes>, stopAtNil: bool, fetched: seq<Key>, count: nat, end: WalkEnd)
    requires (forall p :: srv.reply(p) == Some(db))
    requires forall i, page: nat :: 0 <= i < |fetched| ==> judge(page, fetched[i]) == LookupVerdict(found, stopAtNil, fetched[i])
    ensures Gives(WalkVerdicts(judge, fetched) + Tail(srv, count, end)) == Existing(found, stopAtNil, fetched)
    ensures FirstEnd(WalkVerdicts(judge, fetched) + Tail(srv, count, end)) ==
      if MeetsUnreadable(found, stopAtNil, fetched) then BadKey
      else if stopAtNil && GapIn(found, fetched) then Finished
      else if end == OutOfTime then Cancelled
      else if end == NoNext then Panicked
      else if count % 1001 != 0 || srv.emptyOk then Finished
      else Database
  {
    WalkLooksUp(judge, found, stopAtNil, fetched);
    LookupsGive(found, stopAtNil, fetched, Tail(srv, count, end));
    TailEnd(srv, db, count);
  }

  /** shelf.Range over one database, however its walk ends: the entries offered and the outcome due. */
  lemma RedisRangeOffers(sh: Shelf, srv: Server, db: map<string, bytes>, from: Key, to: Key, keys: seq<Key>, end: WalkEnd, stopAtNil: bool, life: nat)
    requires (forall p :: srv.reply(p) == Some(db)) && Walk(Successor(), from, to, life) == (keys, end)
    ensures
      && Gives(RangeVerdicts(sh, srv, from, to, stopAtNil, life)) == Existing(RedisLookups(sh, db), stopAtNil, Fetched(keys, end))
      && FirstEnd(RangeVerdicts(sh, srv, from, to, stopAtNil, life)) ==
           if MeetsUnreadable(RedisLookups(sh, db), stopAtNil, Fetched(keys, end)) then BadKey
           else if stopAtNil && GapIn(RedisLookups(sh, db), Fetched(keys, end)) then Finished
           else if end == OutOfTime then Cancelled
           else if end == NoNext then Panicked
           else if |keys| % 1001 != 0 || srv.emptyOk then Finished
           else Database
  {
    RangeVerdictsAre(sh, srv, from, to, keys, end, stopAtNil, life);
    FetchedAreOfType(from, to, keys, end, life);
    var judge, found, fetched := Judge(sh, srv, from, stopAtNil), RedisLookups(sh, db), Fetched(keys, end);
    forall i, page: nat | 0 <= i < |fetched|
      ensures judge(page, fetched[i]) == LookupVerdict(found, stopAtNil, fetched[i])
    {
      JudgeLooksUp(sh, srv, db, from, stopAtNil, page, fetched[i]);
    }
    LookedUp(judge, found, srv, db, stopAtNil, fetched, |keys|, end);
  }

  /** And when its walk arrives. */
  lemma RedisRangeGives(sh: Shelf, srv: Server, db: map<string, bytes>, from: Key, to: Key, keys: seq<Key>, stopAtNil: bool, life: nat)
    requires (forall p :: srv.reply(p) == Some(db)) && Walk(Successor(), from, to, life) == (keys, Reached)
    ensures
      && Gives(RangeVerdicts(sh, srv, from, to, stopAtNil, life)) == Existing(RedisLookups(sh, db), stopAtNil, keys)
      && FirstEnd(RangeVerdicts(sh, srv, from, to, stopAtNil, life)) ==
           if MeetsUnreadable(RedisLookups(sh, db), stopAtNil, keys) then BadKey
           else if (stopAtNil && GapIn(RedisLookups(sh, db), keys)) || |keys| % 1001 != 0 || srv.emptyOk then Finished
           else Database
  {
    RedisRangeOffers(sh, srv, db, from, to, keys, Reached, stopAtNil, life);
  }

  lemma {:induction false} NothingAfterEnd(vs: seq<Verdict>, outcome: Outcome, more: seq<Verdict>)
    ensures Gives(vs + [End(outcome)] + more) == Gives(vs + [End(outcome)])
    ensures FirstEnd(vs + [End(outcome)] + more) == FirstEnd(vs + [End(outcome)])
  {
    if vs == [] {
      assert [] + [End(outcome)] + more == [End(outcome)] + more && [] + [End(outcome)] == [End(outcome)];
    } else {
      var rest := vs[1..];
      NothingAfterEnd(rest, outcome, more);
      assert vs + [End(outcome)] + more == [vs[0]] + (rest + [End(outcome)] + more);
      assert vs + [End(outcome)] == [vs[0]] + (rest + [End(outcome)]);
      HeadVerdict(vs[0], rest + [End(outcome)] + more);
      HeadVerdict(vs[0], rest + [End(outcome)]);
    }
  }

  /** The first `n` keys are looked up; the next one meets the failed request. */
  lemma FailedAt(judge: (int, Key) -> Verdict, found: Lookups, stopAtNil: bool, keys: seq<Key>, p: nat, tail: seq<Verdict>)
    requires 1001 * p < |keys| && forall k :: judge(p, k) == End(Database)
    requires forall i, q: nat :: 0 <= i < 1001 * p && q < p ==> judge(q, keys[i]) == LookupVerdict(found, stopAtNil, keys[i])
    ensures Gives(WalkVerdicts(judge, keys) + tail) == Existing(found, stopAtNil, keys[..1001 * p])
    ensures FirstEnd(WalkVerdicts(judge, keys) + tail) ==
      if MeetsUnreadable(found, stopAtNil, keys[..1001 * p]) then BadKey
      else if stopAtNil && GapIn(found, keys[..1001 * p]) then Finished
      else Database
  {
    var n := 1001 * p;
    var done, next, all := keys[..n], keys[..n + 1], WalkVerdicts(judge, keys);
    WalkVerdictsPrefix(judge, keys, n);
    WalkVerdictsPrefix(judge, keys, n + 1);
    PageOf(p, 0);
    assert next[..n] == done && next[n] == keys[n];
    assert all[n] == End(Database);
    WalkLooksUpTo(judge, found, stopAtNil, done, p);
    assert all + tail == LookupVerdicts(found, stopAtNil, done) + [End(Database)] + (all[n + 1..] + tail);
    NothingAfterEnd(LookupVerdicts(found, stopAtNil, done), Database, all[n + 1..] + tail);
    LookupsGive(found, stopAtNil, done, [End(Database)]);
  }

  lemma PageBefore(n: nat, pages: nat)
    requires n < 1001 * pages
    ensures 0 <= n / 1001 < pages
  {
  }

  lemma {:induction false} WalkLooksUpTo(judge: (int, Key) -> Verdict, found: Lookups, stopAtNil: bool, keys: seq<Key>, pages: nat)
    requires |keys| <= 1001 * pages
    requires forall i, q: nat :: 0 <= i < |keys| && q < pages ==> judge(q, keys[i]) == LookupVerdict(found, stopAtNil, keys[i])
    ensures WalkVerdicts(judge, keys) == LookupVerdicts(found, stopAtNil, keys)
  {
    if keys != [] {
      var n := |keys| - 1;
      assert forall i :: 0 <= i < n ==> keys[..n][i] == keys[i];
      WalkLooksUpTo(judge, found, stopAtNil, keys[..n], pages);
      LookupVerdictsSnoc(found, stopAtNil, keys[..n], keys[n]);
      assert keys == keys[..n] + [keys[n]];
      PageBefore(n, pages);
    }
  }

  /** The request for no keys after exactly full pages fails. */
  lemma FailedAtTail(judge: (int, Key) -> Verdict, found: Lookups, srv: Server, stopAtNil: bool, keys: seq<Key>, p: nat)
    requires |keys| == 1001 * p && srv.reply(p) == None
    requires forall i, q: nat :: 0 <= i < 1001 * p && q < p ==> judge(q, keys[i]) == LookupVerdict(found, stopAtNil, keys[i])
    ensures Gives(WalkVerdicts(judge, keys) + Tail(srv, |keys|, Reached)) == Existing(found, stopAtNil, keys)
    ensures FirstEnd(WalkVerdicts(judge, keys) + Tail(srv, |keys|, Reached)) ==
      if MeetsUnreadable(found, stopAtNil, keys) then BadKey else if stopAtNil && GapIn(found, keys) then Finished else Database
  {
    PageOf(p, 0);
    WalkLooksUpTo(judge, found, stopAtNil, keys, p);
    LookupsGive(found, stopAtNil, keys, [End(Database)]);
  }

  /** Either way: page `p` is asked for keys, or for none after exactly full pages. */
  lemma FailedPage(judge: (int, Key) -> Verdict, found: Lookups, srv: Server, stopAtNil: bool, keys: seq<Key>, end: WalkEnd, p: nat, asked: seq<Key>)
    requires srv.reply(p) == None && forall k :: judge(p, k) == End(Database)
    requires forall i, q: nat :: 0 <= i < |Fetched(keys, end)| && q < p ==> judge(q, Fetched(keys, end)[i]) == LookupVerdict(found, stopAtNil, Fetched(keys, end)[i])
    requires 1001 * p < |Fetched(keys, end)| || (end == Reached && 1001 * p == |keys|)
    requires |asked| == 1001 * p && asked <= keys && Fetched(keys, end) <= keys
    ensures Gives(WalkVerdicts(judge, Fetched(keys, end)) + Tail(srv, |keys|, end)) == Existing(found, stopAtNil, asked)
    ensures FirstEnd(WalkVerdicts(judge, Fetched(keys, end)) + Tail(srv, |keys|, end)) ==
      if MeetsUnreadable(found, stopAtNil, asked) then BadKey else if stopAtNil && GapIn(found, asked) then Finished else Database
  {
    var fetched := Fetched(keys, end);
    if 1001 * p < |fetched| {
      assert asked == fetched[..1001 * p];
      FailedAt(judge, found, stopAtNil, fetched, p, Tail(srv, |keys|, end));
    } else {
      assert asked == keys == fetched;
      FailedAtTail(judge, found, srv, stopAtNil, keys, p);
    }
  }

  lemma JudgedBefore(sh: Shelf, srv: Server, db: map<string, bytes>, from: Key, stopAtNil: bool, fetched: seq<Key>, p: nat)
    requires srv.reply(p) == None && (forall q: nat :: q < p ==> srv.reply(q) == Some(db)) && AllOfType(from, fetched)
    ensures forall k :: Judge(sh, srv, from, stopAtNil)(p, k) == End(Database)
    ensures forall i, q: nat :: 0 <= i < |fetched| && q < p ==>
      Judge(sh, srv, from, stopAtNil)(q, fetched[i]) == LookupVerdict(RedisLookups(sh, db), stopAtNil, fetched[i])
  {
    forall i, q: nat | 0 <= i < |fetched| && q < p
      ensures Judge(sh, srv, from, stopAtNil)(q, fetched[i]) == LookupVerdict(RedisLookups(sh, db), stopAtNil, fetched[i])
    {
      JudgeLooksUp(sh, srv, db, from, stopAtNil, q, fetched[i]);
    }
  }

  /** A failed MGET: the pages before page `p` see one database, page `p` fails. What those pages give is given, under
      stopAtNil up to the first gap, and then the call ends with the database error, unless it has ended before. */
  lemma RedisRangeFailsAtPage(sh: Shelf, srv: Server, db: map<string, bytes>, from: Key, to: Key, keys: seq<Key>, end: WalkEnd, stopAtNil: bool, life: nat, p: nat, asked: seq<Key>)
    requires srv.reply(p) == None && forall q: nat :: q < p ==> srv.reply(q) == Some(db)
    requires Walk(Successor(), from, to, life) == (keys, end)
    requires 1001 * p < |Fetched(keys, end)| || (end == Reached && 1001 * p == |keys|)
    requires |asked| == 1001 * p && asked <= keys
    ensures Gives(RangeVerdicts(sh, srv, from, to, stopAtNil, life)) == Existing(RedisLookups(sh, db), stopAtNil, asked)
    ensures FirstEnd(RangeVerdicts(sh, srv, from, to, stopAtNil, life)) ==
      if MeetsUnreadable(RedisLookups(sh, db), stopAtNil, asked) then BadKey
      else if stopAtNil && GapIn(RedisLookups(sh, db), asked) then Finished
      else Database
  {
    RangeVerdictsAre(sh, srv, from, to, keys, end, stopAtNil, life);
    FetchedAreOfType(from, to, keys, end, life);
    JudgedBefore(sh, srv, db, from, stopAtNil, Fetched(keys, end), p);
    FailedPage(Judge(sh, srv, from, stopAtNil), RedisLookups(sh, db), srv, stopAtNil, keys, end, p, asked);
  }

  lemma TailEnd(srv: Server, db: map<string, bytes>, count: nat)
    requires forall p :: srv.reply(p) == Some(db)
    ensures FirstEnd(Tail(srv, count, Reached)) == if count % 1001 != 0 || srv.emptyOk then Finished else Database
  {
    assert srv.reply(count / 1001) == Some(db);
  }

  /** shelf.Range for every callback that accepts what it is given: exactly the existing keys of the walk, in walk
      order, whatever the page boundaries, and exactly which of them end in an error. */
  lemma RedisRangeMeaning(sh: Shelf, srv: Server, db: map<string, bytes>, from: Key, to: Key, stopAtNil: bool, life: nat, cb: Callback)
    requires (forall p :: srv.reply(p) == Some(db)) && Walk(Successor(), from, to, life).1 == Reached
    ensures var all := Existing(RedisLookups(sh, db), stopAtNil, Walk(Successor(), from, to, life).0);
      var r := Close(Deliver(RangeVerdicts(sh, srv, from, to, stopAtNil, life), cb, []));
      var gap := stopAtNil && GapIn(RedisLookups(sh, db), Walk(Successor(), from, to, life).0);
      var bad := MeetsUnreadable(RedisLookups(sh, db), stopAtNil, Walk(Successor(), from, to, life).0);
      Accepted(cb, all, |all|) ==>
        && r.trace == all
        && (r.outcome == BadKey <==> bad)
        && (r.outcome == Finished <==> !bad && (gap || |Walk(Successor(), from, to, life).0| % 1001 != 0 || srv.emptyOk))
  {
    RedisRangeGives(sh, srv, db, from, to, Walk(Successor(), from, to, life).0, stopAtNil, life);
    DeliverMeaning(RangeVerdicts(sh, srv, from, to, stopAtNil, life), cb);
  }

  predicate NoKeyTwice(t: Trace) {
    forall i, j :: 0 <= i < j < |t| ==> t[i].key != t[j].key
  }

  lemma {:induction false} ExistingOnce(found: Lookups, stopAtNil: bool, keys: seq<Key>)
    requires forall i, j :: 0 <= i < j < |keys| ==> keys[i] != keys[j]
    ensures NoKeyTwice(Existing(found, stopAtNil, keys))
    ensures forall e :: e in Existing(found, stopAtNil, keys) ==> e.key in keys && found(e.key) == Some(e.value)
  {
    if keys != [] {
      assert keys[0] !in keys[1..];
      ExistingOnce(found, stopAtNil, keys[1..]);
    }
  }

  /** shelf.Range for every callback and every callback error: what it is given is stored, and no key is given twice. */
  lemma RedisRangeVisitsOnce(sh: Shelf, srv: Server, db: map<string, bytes>, from: Key, to: Key, stopAtNil: bool, life: nat, cb: Callback)
    requires (forall p :: srv.reply(p) == Some(db)) && Walk(Successor(), from, to, life).1 == Reached
    ensures var trace := Deliver(RangeVerdicts(sh, srv, from, to, stopAtNil, life), cb, []).trace;
      NoKeyTwice(trace) && forall e :: e in trace ==> RedisLookups(sh, db)(e.key) == Some(e.value)
  {
    var keys := Walk(Successor(), from, to, life).0;
    forall i, j | 0 <= i < j < |keys|
      ensures keys[i] != keys[j]
    {
      WalkVisitsOnce(Successor(), from, to, life, keys, i, j);
    }
    RedisRangeGives(sh, srv, db, from, to, keys, stopAtNil, life);
    ExistingOnce(RedisLookups(sh, db), stopAtNil, keys);
    DeliverMeaning(RangeVerdicts(sh, srv, from, to, stopAtNil, life), cb);
  }

  lemma CutDelivery(all: seq<Verdict>, n: nat, tail: seq<Verdict>, cb: Callback)
    requires n <= |all|
    ensures Deliver(all[..n] + [End(Cancelled)], cb, []).trace <= Deliver(all + tail, cb, []).trace
  {
    var vs, rest := all[..n], all[n..] + tail;
    assert all + tail == vs + rest;
    DeliverConcat(vs, [End(Cancelled)], cb, []);
    DeliverConcat(vs, rest, cb, []);
    DeliverExtends(rest, cb, Deliver(vs, cb, []).trace);
  }

  lemma FetchedGrows(keys: seq<Key>, longer: seq<Key>, last: WalkEnd)
    requires keys <= longer
    ensures Fetched(keys, OutOfTime) <= Fetched(longer, last)
  {
    var full := |keys| / 1001;
    assert |keys| - |keys| % 1001 == 1001 * full;
    FullPagesStay(full, |longer| - 1001 * full);
  }

  lemma CutWalk(judge: (int, Key) -> Verdict, srv: Server, keys: seq<Key>, longer: seq<Key>, last: WalkEnd, cb: Callback)
    requires keys <= longer
    ensures Deliver(WalkVerdicts(judge, Fetched(keys, OutOfTime)) + Tail(srv, |keys|, OutOfTime), cb, []).trace <=
      Deliver(WalkVerdicts(judge, Fetched(longer, last)) + Tail(srv, |longer|, last), cb, []).trace
  {
    var done, fetched := Fetched(keys, OutOfTime), Fetched(longer, last);
    FetchedGrows(keys, longer, last);
    WalkVerdictsPrefix(judge, fetched, |done|);
    assert fetched[..|done|] == done;
    CutDelivery(WalkVerdicts(judge, fetched), |done|, Tail(srv, |longer|, last), cb);
  }

  /** Cancelling earlier delivers a prefix of what is delivered later, whatever the server's replies. */
  lemma CancelledRangeIsPrefix(sh: Shelf, srv: Server, from: Key, to: Key, stopAtNil: bool, life: nat, more: nat, cb: Callback)
    requires life <= more
    ensures Deliver(RangeVerdicts(sh, srv, from, to, stopAtNil, life), cb, []).trace <=
      Deliver(RangeVerdicts(sh, srv, from, to, stopAtNil, more), cb, []).trace
  {
    WalkMonotone(Successor(), from, to, life, more);
    var (keys, end) := Walk(Successor(), from, to, life);
    if end == OutOfTime {
      CutWalk(Judge(sh, srv, from, stopAtNil), srv, keys, Walk(Successor(), from, to, more).0, Walk(Successor(), from, to, more).1, cb);
    }
  }
}
