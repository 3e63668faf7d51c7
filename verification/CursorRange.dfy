/** Range and Iterate over a cursor: bbolt's buckets and Badger's prefixed keys. */
module CursorRange {
  import opened ByteStrings
  import opened Delivery
  import opened FlatShelves
  import opened Keys
  import opened SortedStore
  import opened Wrappers

  /** prevKey != nil && !prevKey.Next().Equals(key): the step from the last key to this one. A key that could not
      be read is nil: it neither has a predecessor's gap nor equals any successor. */
  datatype Step = Follows | Gap | NoSuccessor

  function StepOf(prev: Option<Key>, key: Option<Key>): Step {
    match prev
    case None => Follows
    case Some(p) => match p.Next()
      case None => NoSuccessor
      case Some(next) => if key == Some(next) then Follows else Gap
  }

  /** `steps` stands for StepOf, so that the loops need not look into Next. */
  type Stepping = (Option<Key>, Option<Key>) -> Step

  ghost predicate MeansStepOf(steps: Stepping) {
    forall p, k {:trigger StepOf(p, k)} :: steps(p, k) == StepOf(p, k)
  }

  /** The gap check of both loops. */
  method CheckGap(stopAtNil: bool, prev: Option<Key>, key: Option<Key>, ghost steps: Stepping) returns (step: Step)
    requires MeansStepOf(steps)
    ensures step == if stopAtNil then steps(prev, key) else Follows
  {
    step := if stopAtNil then StepOf(prev, key) else Follows;
  }

  // ---- bbolt ----

  function BboltVerdict(like: Key, stopAtNil: bool, prev: Option<Key>, e: Pair): Verdict {
    var key := like.FromBytes(e.key);
    if key.None? then End(BadKey)
    else match (if stopAtNil then StepOf(prev, key) else Follows)
      case NoSuccessor => End(Panicked)
      case Gap => End(Finished)
      case Follows => Give(Entry(key.value, e.value))
  }

  /** What bbolt makes of the entries in range, from `prev` on, with `life` more successful context checks. */
  function BboltVerdicts(like: Key, stopAtNil: bool, prev: Option<Key>, es: Pairs, life: nat): seq<Verdict>
    decreases es
  {
    if es == [] then []
    else if life == 0 then [End(Cancelled)]
    else
      [BboltVerdict(like, stopAtNil, prev, es[0])] +
      BboltVerdicts(like, stopAtNil, like.FromBytes(es[0].key), es[1..], life - 1)
  }

  function BboltResult(like: Key, stopAtNil: bool, prev: Option<Key>, es: Pairs, life: nat, cb: Callback, trace: Trace): Result {
    Close(Deliver(BboltVerdicts(like, stopAtNil, prev, es, life), cb, trace))
  }

  lemma BboltStep(like: Key, stopAtNil: bool, prev: Option<Key>, es: Pairs, life: nat, cb: Callback, trace: Trace)
    requires es != []
    ensures BboltResult(like, stopAtNil, prev, es, life, cb, trace) ==
      if life == 0 then Stopped(trace, Cancelled)
      else match BboltVerdict(like, stopAtNil, prev, es[0])
        case End(o) => Stopped(trace, o)
        case Skip => BboltResult(like, stopAtNil, like.FromBytes(es[0].key), es[1..], life - 1, cb, trace)
        case Give(entry) =>
          if cb(trace + [entry]) then BboltResult(like, stopAtNil, like.FromBytes(es[0].key), es[1..], life - 1, cb, trace + [entry])
          else Stopped(trace + [entry], Application)
  {
    if life > 0 {
      var v, vs := BboltVerdict(like, stopAtNil, prev, es[0]), BboltVerdicts(like, stopAtNil, like.FromBytes(es[0].key), es[1..], life - 1);
      assert ([v] + vs)[1..] == vs;
    }
  }

  /** One scan of a bucket. `result` stands for BboltResult, so that the loop need not look into it. */
  datatype BucketScan = BucketScan(like: Key, stopAtNil: bool, cb: Callback, steps: Stepping, result: (Option<Key>, Pairs, nat, Trace) -> Result) {
    ghost predicate Sound() {
      MeansStepOf(steps) &&
      forall prev, es, life, trace {:trigger BboltResult(like, stopAtNil, prev, es, life, cb, trace)} ::
        result(prev, es, life, trace) == BboltResult(like, stopAtNil, prev, es, life, cb, trace)
    }

    /** What comes of the first of `es`. */
    function Step(prev: Option<Key>, es: Pairs, life: nat, trace: Trace): Result
      requires es != [] && life > 0
    {
      var key := like.FromBytes(es[0].key);
      if key.None? then Stopped(trace, BadKey)
      else match (if stopAtNil then steps(prev, key) else Follows)
        case NoSuccessor => Stopped(trace, Panicked)
        case Gap => Stopped(trace, Finished)
        case Follows =>
          var t := trace + [Entry(key.value, es[0].value)];
          if cb(t) then result(key, es[1..], life - 1, t) else Stopped(t, Application)
    }
  }

  lemma BucketScanStarts(like: Key, stopAtNil: bool, es: Pairs, life: nat, cb: Callback) returns (c: BucketScan)
    ensures c.like == like && c.stopAtNil == stopAtNil && c.cb == cb && c.Sound()
    ensures c.result(None, es, life, []) == BboltResult(like, stopAtNil, None, es, life, cb, [])
  {
    c := BucketScan(like, stopAtNil, cb, (p: Option<Key>, k: Option<Key>) => StepOf(p, k),
      (prev: Option<Key>, rest: Pairs, left: nat, trace: Trace) => BboltResult(like, stopAtNil, prev, rest, left, cb, trace));
  }

  lemma BucketScanSteps(c: BucketScan, prev: Option<Key>, es: Pairs, life: nat, trace: Trace)
    requires c.Sound()
    ensures es == [] ==> c.result(prev, es, life, trace) == Stopped(trace, Finished)
    ensures es != [] && life == 0 ==> c.result(prev, es, life, trace) == Stopped(trace, Cancelled)
    ensures es != [] && life > 0 ==> c.result(prev, es, life, trace) == c.Step(prev, es, life, trace)
  {
    assert c.result(prev, es, life, trace) == BboltResult(c.like, c.stopAtNil, prev, es, life, c.cb, trace);
    if es != [] && life > 0 {
      BboltStep(c.like, c.stopAtNil, prev, es, life, c.cb, trace);
      var key := c.like.FromBytes(es[0].key);
      assert c.steps(prev, key) == StepOf(prev, key);
      if key.Some? {
        var t := trace + [Entry(key.value, es[0].value)];
        assert c.result(key, es[1..], life - 1, t) == BboltResult(c.like, c.stopAtNil, key, es[1..], life - 1, c.cb, t);
      }
    }
  }

  /** The cursor stands at `i`, not below `start`, and `rest` is what the range still holds. */
  ghost predicate CursorAt(bucket: Pairs, start: bytes, end: bytes, i: nat, rest: Pairs) {
    i <= |bucket| && (i < |bucket| ==> !Less(bucket[i].key, start)) && rest == InRange(bucket[i..], start, end)
  }

  lemma CursorMoves(bucket: Pairs, start: bytes, end: bytes, i: nat, rest: Pairs)
    requires Sorted(bucket) && CursorAt(bucket, start, end, i, rest) && i < |bucket| && Less(bucket[i].key, end)
    ensures rest != [] && rest[0] == bucket[i] && CursorAt(bucket, start, end, i + 1, rest[1..])
  {
    assert bucket[i..][1..] == bucket[i + 1..];
    NextNotBelow(bucket, i, start);
  }

  lemma CursorIsDone(bucket: Pairs, start: bytes, end: bytes, i: nat, rest: Pairs)
    requires Sorted(bucket) && CursorAt(bucket, start, end, i, rest) && (i < |bucket| ==> !Less(bucket[i].key, end))
    ensures rest == []
  {
    if i < |bucket| {
      SortedTail(bucket, i);
      RangeEnds(bucket[i..], start, end);
    }
  }

  /** The loop of bboltShelf.Range, between two keys' bytes. */
  method ScanBucket(bucket: Pairs, start: bytes, end: bytes, from: Key, cb: Callback, stopAtNil: bool, life: nat)
    returns (trace: Trace, outcome: Outcome)
    requires Sorted(bucket)
    ensures Stopped(trace, outcome) == BboltResult(from, stopAtNil, None, InRange(bucket, start, end), life, cb, [])
  {
    trace := [];
    var prevKey: Option<Key> := None;
    var i, checks := Seek(bucket, start), 0;
    ghost var rest, left: nat := InRange(bucket, start, end), life;
    ghost var scan := BucketScanStarts(from, stopAtNil, rest, life, cb);
    ghost var all := scan.result(None, rest, life, []);
    SeekSkipsNothing(bucket, start, end);
    while i < |bucket| && Less(bucket[i].key, end)
      invariant checks + left == life && CursorAt(bucket, start, end, i, rest)
      invariant all == scan.result(prevKey, rest, left, trace)
    {
      CursorMoves(bucket, start, end, i, rest);
      BucketScanSteps(scan, prevKey, rest, left, trace);
      if checks >= life {
        return trace, Cancelled;
      }
      rest, left, checks := rest[1..], left - 1, checks + 1;
      var key := from.FromBytes(bucket[i].key);
      if key.None? {
        return trace, BadKey;
      }
      var step := CheckGap(stopAtNil, prevKey, key, scan.steps);
      if step == NoSuccessor {
        return trace, Panicked;
      }
      if step == Gap {
        return trace, Finished;
      }
      trace := trace + [Entry(key.value, bucket[i].value)];
      if !cb(trace) {
        return trace, Application;
      }
      prevKey := key;
      i := i + 1;
    }
    CursorIsDone(bucket, start, end, i, rest);
    BucketScanSteps(scan, prevKey, rest, left, trace);
    outcome := Finished;
  }

  /** bboltShelf.Range over a bucket's sorted entries. */
  method BboltRange(bucket: Pairs, from: Key, to: Key, cb: Callback, stopAtNil: bool, life: nat)
    returns (trace: Trace, outcome: Outcome)
    requires Sorted(bucket)
    ensures Stopped(trace, outcome) ==
      BboltResult(from, stopAtNil, None, InRange(bucket, from.Bytes(), to.Bytes()), life, cb, [])
  {
    trace, outcome := ScanBucket(bucket, from.Bytes(), to.Bytes(), from, cb, stopAtNil, life);
  }

  /** bboltShelf.Iterate. */
  method BboltIterate(bucket: Pairs, cb: Callback, keyType: Key, life: nat) returns (trace: Trace, outcome: Outcome)
    ensures Stopped(trace, outcome) == BboltResult(keyType, false, None, bucket, life, cb, [])
  {
    trace := [];
    var i, checks := 0, 0;
    ghost var prev: Option<Key> := None;
    assert bucket[0..] == bucket;
    while i < |bucket|
      invariant i <= |bucket| && checks <= life
      invariant BboltResult(keyType, false, None, bucket, life, cb, []) ==
        BboltResult(keyType, false, prev, bucket[i..], life - checks, cb, trace)
    {
      assert bucket[i..][1..] == bucket[i + 1..];
      BboltStep(keyType, false, prev, bucket[i..], life - checks, cb, trace);
      if checks >= life {
        return trace, Cancelled;
      }
      checks := checks + 1;
      var key := keyType.FromBytes(bucket[i].key);
      if key.None? {
        return trace, BadKey;
      }
      trace := trace + [Entry(key.value, bucket[i].value)];
      if !cb(trace) {
        return trace, Application;
      }
      prev := key;
      i := i + 1;
    }
    outcome := Finished;
  }

  // ---- Badger ----

  /** The gap check reads the whole prefixed key as a key of the given type and ignores a failure to do so. */
  function BadgerVerdict(name: bytes, like: Key, stopAtNil: bool, prev: Option<Key>, e: Pair): Verdict {
    match (if stopAtNil then StepOf(prev, like.FromBytes(name + e.key)) else Follows)
    case NoSuccessor => End(Panicked)
    case Gap => End(Finished)
    case Follows =>
      match like.FromBytes(e.key)
      case None => End(BadKey)
      case Some(key) => Give(Entry(key, e.value))
  }

  /** What Badger makes of a shelf's entries in range; the context is checked once more at the end. */
  function BadgerVerdicts(name: bytes, like: Key, stopAtNil: bool, prev: Option<Key>, es: Pairs, life: nat): seq<Verdict>
    decreases es
  {
    if life == 0 then [End(Cancelled)]
    else if es == [] then []
    else
      [BadgerVerdict(name, like, stopAtNil, prev, es[0])] +
      BadgerVerdicts(name, like, stopAtNil, like.FromBytes(name + es[0].key), es[1..], life - 1)
  }

  function BadgerResult(name: bytes, like: Key, stopAtNil: bool, prev: Option<Key>, es: Pairs, life: nat, cb: Callback, trace: Trace): Result {
    Close(Deliver(BadgerVerdicts(name, like, stopAtNil, prev, es, life), cb, trace))
  }

  lemma BadgerStep(name: bytes, like: Key, stopAtNil: bool, prev: Option<Key>, es: Pairs, life: nat, cb: Callback, trace: Trace)
    requires es != []
    ensures BadgerResult(name, like, stopAtNil, prev, es, life, cb, trace) ==
      if life == 0 then Stopped(trace, Cancelled)
      else match BadgerVerdict(name, like, stopAtNil, prev, es[0])
        case End(o) => Stopped(trace, o)
        case Skip => BadgerResult(name, like, stopAtNil, like.FromBytes(name + es[0].key), es[1..], life - 1, cb, trace)
        case Give(entry) =>
          if cb(trace + [entry])
          then BadgerResult(name, like, stopAtNil, like.FromBytes(name + es[0].key), es[1..], life - 1, cb, trace + [entry])
          else Stopped(trace + [entry], Application)
  {
    if life > 0 {
      var v, vs := BadgerVerdict(name, like, stopAtNil, prev, es[0]), BadgerVerdicts(name, like, stopAtNil, like.FromBytes(name + es[0].key), es[1..], life - 1);
      assert ([v] + vs)[1..] == vs;
    }
  }

  /** The rest of a flat key after the shelf's name. */
  function Suffix(name: bytes, k: bytes): bytes {
    if |name| <= |k| then k[|name|..] else []
  }

  /** What is left to do with an entry, given its key as the shelf knows it. */
  function Handed(like: Key, k: bytes, v: bytes, cb: Callback, trace: Trace): Result {
    match like.FromBytes(k)
    case None => Stopped(trace, BadKey)
    case Some(key) => if cb(trace + [Entry(key, v)]) then Going(trace + [Entry(key, v)]) else Stopped(trace + [Entry(key, v)], Application)
  }

  /** `hand` stands for Handed on a flat key, so that the loops need not look into it. */
  type Handing = (bytes, bytes, Trace) -> Result

  ghost predicate MeansHanded(hand: Handing, name: bytes, like: Key, cb: Callback) {
    forall k, v, t {:trigger Handed(like, Suffix(name, k), v, cb, t)} :: hand(k, v, t) == Handed(like, Suffix(name, k), v, cb, t)
  }

  /** The function that Range and Iterate pass to item.Value. */
  method HandOver(name: bytes, like: Key, k: bytes, v: bytes, cb: Callback, soFar: Trace, ghost hand: Handing)
    returns (ok: bool, trace: Trace, outcome: Outcome)
    requires name <= k && MeansHanded(hand, name, like, cb)
    ensures hand(k, v, soFar) == if ok then Going(trace) else Stopped(trace, outcome)
  {
    assert hand(k, v, soFar) == Handed(like, Suffix(name, k), v, cb, soFar);
    trace := soFar;
    var kt := like.FromBytes(k[|name|..]);
    if kt.None? {
      return false, trace, BadKey;
    }
    trace := trace + [Entry(kt.value, v)];
    ok := cb(trace);
    outcome := Application;
  }

  /** One scan of a shelf. `result` stands for BadgerResult, so that the loops need not look into it. */
  datatype Scan = Scan(name: bytes, like: Key, stopAtNil: bool, cb: Callback, steps: Stepping, hand: Handing, result: (Option<Key>, Pairs, nat, Trace) -> Result) {
    ghost predicate Sound() {
      MeansStepOf(steps) && MeansHanded(hand, name, like, cb) &&
      forall prev, es, life, trace {:trigger BadgerResult(name, like, stopAtNil, prev, es, life, cb, trace)} ::
        result(prev, es, life, trace) == BadgerResult(name, like, stopAtNil, prev, es, life, cb, trace)
    }

    /** What comes of entry `e`, the first of `es`, in terms of its flat key. */
    function Step(prev: Option<Key>, e: Pair, es: Pairs, life: nat, trace: Trace): Result
      requires es != [] && life > 0
    {
      match (if stopAtNil then steps(prev, like.FromBytes(e.key)) else Follows)
      case NoSuccessor => Stopped(trace, Panicked)
      case Gap => Stopped(trace, Finished)
      case Follows =>
        var r := hand(e.key, e.value, trace);
        if r.Going? then result(like.FromBytes(e.key), es[1..], life - 1, r.trace) else r
    }
  }

  lemma ScanStarts(name: bytes, like: Key, stopAtNil: bool, es: Pairs, life: nat, cb: Callback) returns (c: Scan)
    ensures c.name == name && c.like == like && c.stopAtNil == stopAtNil && c.cb == cb && c.Sound()
    ensures c.result(None, es, life, []) == BadgerResult(name, like, stopAtNil, None, es, life, cb, [])
  {
    c := Scan(name, like, stopAtNil, cb, (p: Option<Key>, k: Option<Key>) => StepOf(p, k),
      (k: bytes, v: bytes, trace: Trace) => Handed(like, Suffix(name, k), v, cb, trace),
      (prev: Option<Key>, rest: Pairs, left: nat, trace: Trace) => BadgerResult(name, like, stopAtNil, prev, rest, left, cb, trace));
  }

  lemma ScanSteps(c: Scan, prev: Option<Key>, e: Pair, es: Pairs, life: nat, trace: Trace)
    requires c.Sound() && es != [] && e == Pair(c.name + es[0].key, es[0].value) && life > 0
    ensures c.result(prev, es, life, trace) == c.Step(prev, e, es, life, trace)
  {
    BadgerStep(c.name, c.like, c.stopAtNil, prev, es, life, c.cb, trace);
    assert Suffix(c.name, e.key) == es[0].key;
    assert c.steps(prev, c.like.FromBytes(e.key)) == StepOf(prev, c.like.FromBytes(e.key));
    var r := c.hand(e.key, e.value, trace);
    assert r == Handed(c.like, Suffix(c.name, e.key), e.value, c.cb, trace);
    assert c.result(prev, es, life, trace) == BadgerResult(c.name, c.like, c.stopAtNil, prev, es, life, c.cb, trace);
    if r.Going? {
      var next := c.like.FromBytes(e.key);
      assert c.result(next, es[1..], life - 1, r.trace) == BadgerResult(c.name, c.like, c.stopAtNil, next, es[1..], life - 1, c.cb, r.trace);
    }
  }

  lemma ScanEnds(c: Scan, prev: Option<Key>, es: Pairs, life: nat, trace: Trace)
    requires c.Sound()
    ensures life == 0 ==> c.result(prev, es, life, trace) == Stopped(trace, Cancelled)
    ensures life > 0 && es == [] ==> c.result(prev, es, life, trace) == Stopped(trace, Finished)
  {
    assert c.result(prev, es, life, trace) == BadgerResult(c.name, c.like, c.stopAtNil, prev, es, life, c.cb, trace);
  }

  /** The iterator stands at `i`, not below `start`, and `rest` is what the range still holds. */
  ghost predicate RangeAt(flat: Pairs, name: bytes, start: bytes, end: bytes, i: nat, rest: Pairs) {
    i <= |flat| && (i < |flat| ==> !Less(flat[i].key, start)) && Prefixed(name, rest) == InRange(flat[i..], start, end)
  }

  /** `at` stands for RangeAt. */
  ghost predicate MeansRangeAt(at: (nat, Pairs) -> bool, flat: Pairs, name: bytes, start: bytes, end: bytes) {
    forall i, rest {:trigger RangeAt(flat, name, start, end, i, rest)} :: at(i, rest) <==> RangeAt(flat, name, start, end, i, rest)
  }

  lemma RangeStarts(flat: Pairs, name: bytes, from: bytes, to: bytes) returns (at: (nat, Pairs) -> bool)
    ensures MeansRangeAt(at, flat, name, name + from, name + to)
    ensures at(Seek(flat, name + from), InRange(ShelfOf(flat, name), from, to))
  {
    at := (i: nat, rest: Pairs) => RangeAt(flat, name, name + from, name + to, i, rest);
    ShelfRange(flat, name, from, to);
    SeekSkipsNothing(flat, name + from, name + to);
  }

  lemma RangeMoves(at: (nat, Pairs) -> bool, flat: Pairs, name: bytes, start: bytes, end: bytes, i: nat, rest: Pairs)
    requires Sorted(flat) && MeansRangeAt(at, flat, name, start, end) && at(i, rest) && i < |flat| && Less(flat[i].key, end)
    ensures rest != [] && flat[i] == Pair(name + rest[0].key, rest[0].value)
    ensures at(i + 1, rest[1..])
  {
    assert RangeAt(flat, name, start, end, i, rest);
    NextNotBelow(flat, i, start);
    var ahead := flat[i..];
    assert ahead[1..] == flat[i + 1..];
    assert InRange(ahead, start, end)[1..] == InRange(ahead[1..], start, end);
    assert rest != [] && Prefixed(name, rest)[1..] == Prefixed(name, rest[1..]);
    assert RangeAt(flat, name, start, end, i + 1, rest[1..]);
  }

  lemma RangeIsOver(at: (nat, Pairs) -> bool, flat: Pairs, name: bytes, start: bytes, end: bytes, i: nat, rest: Pairs)
    requires Sorted(flat) && MeansRangeAt(at, flat, name, start, end) && at(i, rest) && name <= start && name <= end
    requires i < |flat| ==> !(name <= flat[i].key) || !Less(flat[i].key, end)
    ensures rest == []
  {
    assert RangeAt(flat, name, start, end, i, rest);
    if i < |flat| {
      SortedTail(flat, i);
      if Less(flat[i].key, end) {
        SplitPrefix(name, start);
        SplitPrefix(name, end);
        PrefixBlockIsConvex(name, start[|name|..], flat[i].key, end[|name|..]);
      }
      RangeEnds(flat[i..], start, end);
    }
  }

  /** The loop of badgerShelf.Range, between two flat keys. */
  method ScanRange(flat: Pairs, name: bytes, start: bytes, end: bytes, from: Key, cb: Callback, stopAtNil: bool, life: nat,
                   ghost scan: Scan, ghost at: (nat, Pairs) -> bool, ghost shelf: Pairs)
    returns (trace: Trace, outcome: Outcome)
    requires Sorted(flat) && name <= start && name <= end
    requires scan.Sound() && scan.name == name && scan.like == from && scan.stopAtNil == stopAtNil && scan.cb == cb
    requires MeansRangeAt(at, flat, name, start, end) && at(Seek(flat, start), shelf)
    ensures Stopped(trace, outcome) == scan.result(None, shelf, life, [])
  {
    trace := [];
    var prevKey: Option<Key> := None;
    var i, checks := Seek(flat, start), 0;
    ghost var rest, left: nat := shelf, life;
    while i < |flat| && name <= flat[i].key && Less(flat[i].key, end) && checks < life
      invariant checks + left == life && at(i, rest)
      invariant scan.result(None, shelf, life, []) == scan.result(prevKey, rest, left, trace)
    {
      var k := flat[i].key;
      RangeMoves(at, flat, name, start, end, i, rest);
      ScanSteps(scan, prevKey, flat[i], rest, left, trace);
      rest, left, checks := rest[1..], left - 1, checks + 1;
      var key := from.FromBytes(k);
      var step := CheckGap(stopAtNil, prevKey, key, scan.steps);
      if step == NoSuccessor {
        return trace, Panicked;
      }
      if step == Gap {
        return trace, Finished;
      }
      var ok;
      ok, trace, outcome := HandOver(name, from, k, flat[i].value, cb, trace, scan.hand);
      if !ok {
        return;
      }
      prevKey := key;
      i := i + 1;
    }
    ScanEnds(scan, prevKey, rest, left, trace);
    if checks >= life {
      return trace, Cancelled;
    }
    RangeIsOver(at, flat, name, start, end, i, rest);
    outcome := Finished;
  }

  /** badgerShelf.Range over the flat store. */
  method BadgerRange(flat: Pairs, name: bytes, from: Key, to: Key, cb: Callback, stopAtNil: bool, life: nat)
    returns (trace: Trace, outcome: Outcome)
    requires Sorted(flat)
    ensures Stopped(trace, outcome) ==
      BadgerResult(name, from, stopAtNil, None, InRange(ShelfOf(flat, name), from.Bytes(), to.Bytes()), life, cb, [])
  {
    ghost var shelf := InRange(ShelfOf(flat, name), from.Bytes(), to.Bytes());
    ghost var scan := ScanStarts(name, from, stopAtNil, shelf, life, cb);
    ghost var at := RangeStarts(flat, name, from.Bytes(), to.Bytes());
    trace, outcome := ScanRange(flat, name, name + from.Bytes(), name + to.Bytes(), from, cb, stopAtNil, life, scan, at, shelf);
  }

  /** The iterator stands at `i`, not below the name, and `rest` is what the shelf still holds. */
  ghost predicate ShelfAt(flat: Pairs, name: bytes, i: nat, rest: Pairs) {
    i <= |flat| && (i < |flat| ==> !Less(flat[i].key, name)) && rest == ShelfOf(flat[i..], name)
  }

  lemma ShelfStarts(flat: Pairs, name: bytes)
    ensures ShelfAt(flat, name, Seek(flat, name), ShelfOf(flat, name))
  {
    SeekSkipsNothingOfShelf(flat, name);
  }

  lemma ShelfMoves(flat: Pairs, name: bytes, i: nat, rest: Pairs)
    requires Sorted(flat) && ShelfAt(flat, name, i, rest) && i < |flat| && name <= flat[i].key
    ensures rest != [] && flat[i] == Pair(name + rest[0].key, rest[0].value)
    ensures ShelfAt(flat, name, i + 1, rest[1..])
  {
    NextNotBelow(flat, i, name);
    SplitPrefix(name, flat[i].key);
    assert flat[i..][1..] == flat[i + 1..];
  }

  lemma ShelfIsOver(flat: Pairs, name: bytes, i: nat, rest: Pairs)
    requires Sorted(flat) && ShelfAt(flat, name, i, rest) && (i < |flat| ==> !(name <= flat[i].key))
    ensures rest == []
  {
    if i < |flat| {
      SortedTail(flat, i);
      ShelfEnds(flat[i..], name);
    }
  }

  /** badgerShelf.Iterate over the flat store: the whole shelf, by prefix. */
  method BadgerIterate(flat: Pairs, name: bytes, cb: Callback, keyType: Key, life: nat) returns (trace: Trace, outcome: Outcome)
    requires Sorted(flat)
    ensures Stopped(trace, outcome) == BadgerResult(name, keyType, false, None, ShelfOf(flat, name), life, cb, [])
  {
    trace := [];
    var i, checks := Seek(flat, name), 0;
    ghost var prev: Option<Key> := None;
    ghost var rest, left: nat := ShelfOf(flat, name), life;
    ghost var scan := ScanStarts(name, keyType, false, rest, life, cb);
    ghost var all := scan.result(None, rest, life, []);
    ShelfStarts(flat, name);
    while i < |flat| && name <= flat[i].key && checks < life
      invariant checks + left == life && ShelfAt(flat, name, i, rest)
      invariant all == scan.result(prev, rest, left, trace)
    {
      var k := flat[i].key;
      ShelfMoves(flat, name, i, rest);
      ScanSteps(scan, prev, flat[i], rest, left, trace);
      rest, left, checks := rest[1..], left - 1, checks + 1;
      var ok;
      ok, trace, outcome := HandOver(name, keyType, k, flat[i].value, cb, trace, scan.hand);
      if !ok {
        return;
      }
      prev := keyType.FromBytes(k);
      i := i + 1;
    }
    ScanEnds(scan, prev, rest, left, trace);
    if checks >= life {
      return trace, Cancelled;
    }
    ShelfIsOver(flat, name, i, rest);
    outcome := Finished;
  }

  /** badgerShelf.Empty: one seek and one prefix test decide whether the shelf has entries. */
  method BadgerEmpty(flat: Pairs, name: bytes) returns (empty: bool)
    requires Sorted(flat)
    ensures empty <==> forall k: bytes, v: bytes :: Pair(name + k, v) !in flat
  {
    var i := Seek(flat, name);
    empty := !(i < |flat| && name <= flat[i].key);
    ShelfStarts(flat, name);
    if empty {
      ShelfIsOver(flat, name, i, ShelfOf(flat, name));
      forall k: bytes, v: bytes
        ensures Pair(name + k, v) !in flat
      {
        ShelfMember(flat, name, Pair(k, v));
      }
    } else {
      SplitPrefix(name, flat[i].key);
      assert Pair(name + flat[i].key[|name|..], flat[i].value) in flat;
    }
  }
}
