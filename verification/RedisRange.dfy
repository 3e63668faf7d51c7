/** Range over Redis: the successor walk fetched in pages. The counter is compared before it is raised, so a page
    holds RESULT_COUNT + 1 = 1001 keys. */
module RedisRange {
  import opened ByteStrings
  import opened Delivery
  import opened Keys
  import opened RedisNames
  import opened Walks
  import opened Wrappers

  const RESULT_COUNT: nat := 1000

  /** `reply(p)` is the database that the p-th MGET of the call sees, or None if it fails; `emptyOk` says whether
      the server accepts an MGET of no keys. Entries that are not strings count as missing. */
  datatype Server = Server(reply: nat -> Option<map<string, bytes>>, emptyOk: bool) {
    function MGet(page: nat, keys: seq<string>): (r: Option<seq<Option<bytes>>>)
      ensures r.Some? ==> |r.value| == |keys|
    {
      match reply(page)
      case None => None
      case Some(db) =>
        if keys == [] && !emptyOk then None
        else Some(seq(|keys|, i requires 0 <= i < |keys| => if keys[i] in db then Some(db[keys[i]]) else None))
    }
  }

  // ---- The unpaged walk ----

  function KeyVerdict(sh: Shelf, db: map<string, bytes>, like: Key, stopAtNil: bool, text: string): Verdict {
    if text !in db then (if stopAtNil then End(Finished) else Skip)
    else match sh.FromRedisKey(text, like)
      case None => End(BadKey)
      case Some(key) => Give(Entry(key, db[text]))
  }

  /** One walked key, looked up on its own; the page only picks the database state that it sees. */
  function Judge(sh: Shelf, srv: Server, like: Key, stopAtNil: bool): (int, Key) -> Verdict {
    (page: int, key: Key) =>
      match (if page >= 0 then srv.reply(page) else None)
      case None => End(Database)
      case Some(db) => KeyVerdict(sh, db, like, stopAtNil, sh.ToRedisKey(key))
  }

  function WalkVerdicts(judge: (int, Key) -> Verdict, keys: seq<Key>): (r: seq<Verdict>)
    ensures |r| == |keys|
  {
    if keys == [] then []
    else
      var n := |keys| - 1;
      WalkVerdicts(judge, keys[..n]) + [judge(n / 1001, keys[n])]
  }

  /** The keys that get fetched: all of them if the walk arrives, else those of the full pages. */
  function Fetched(keys: seq<Key>, end: WalkEnd): seq<Key> {
    if end == Reached then keys else keys[..|keys| - |keys| % 1001]
  }

  /** How the call ends once every fetched key has been dealt with. A walk that fills its last page exactly, an
      empty one included, still asks the server for no keys. */
  function Tail(srv: Server, count: nat, end: WalkEnd): seq<Verdict> {
    match end
    case OutOfTime => [End(Cancelled)]
    case NoNext => [End(Panicked)]
    case Reached => if count % 1001 == 0 && srv.MGet(count / 1001, []).None? then [End(Database)] else []
  }

  function RangeVerdicts(sh: Shelf, srv: Server, from: Key, to: Key, stopAtNil: bool, life: nat): seq<Verdict> {
    var (keys, end) := Walk(Successor(), from, to, life);
    WalkVerdicts(Judge(sh, srv, from, stopAtNil), Fetched(keys, end)) + Tail(srv, |keys|, end)
  }

  // ---- Pages ----

  function Texts(sh: Shelf, keys: seq<Key>): (r: seq<string>)
    ensures |r| == |keys| && forall i :: 0 <= i < |keys| ==> r[i] == sh.ToRedisKey(keys[i])
  {
    seq(|keys|, i requires 0 <= i < |keys| => sh.ToRedisKey(keys[i]))
  }

  function TextVerdicts(sh: Shelf, db: map<string, bytes>, like: Key, stopAtNil: bool, texts: seq<string>): (r: seq<Verdict>)
    ensures |r| == |texts|
  {
    seq(|texts|, i requires 0 <= i < |texts| => KeyVerdict(sh, db, like, stopAtNil, texts[i]))
  }

  function PageVerdicts(sh: Shelf, srv: Server, page: nat, like: Key, stopAtNil: bool, texts: seq<string>): seq<Verdict> {
    if srv.MGet(page, texts).None? then [End(Database)]
    else TextVerdicts(sh, srv.reply(page).value, like, stopAtNil, texts)
  }

  /** visitKeys: one MGET, then every value in turn. */
  method VisitKeys(sh: Shelf, srv: Server, page: nat, keys: seq<string>, cb: Callback, keyType: Key, stopAtNil: bool, soFar: Trace)
    returns (proceed: bool, trace: Trace, outcome: Outcome)
    ensures Deliver(PageVerdicts(sh, srv, page, keyType, stopAtNil, keys), cb, soFar) ==
      if proceed then Going(trace) else Stopped(trace, outcome)
    ensures proceed ==> outcome == Finished
    ensures !proceed && outcome == Finished ==> stopAtNil
  {
    trace := soFar;
    var values := srv.MGet(page, keys);
    if values.None? {
      return false, trace, Database;
    }
    ghost var vs := TextVerdicts(sh, srv.reply(page).value, keyType, stopAtNil, keys);
    var i := 0;
    while i < |values.value|
      invariant 0 <= i <= |values.value| == |keys|
      invariant Deliver(vs[..i], cb, soFar) == Going(trace)
    {
      VerdictAt(vs, i, cb, soFar);
      var value := values.value[i];
      if value.None? {
        if stopAtNil {
          return false, trace, Finished;
        }
      } else {
        var key := sh.FromRedisKey(keys[i], keyType);
        if key.None? {
          return false, trace, BadKey;
        }
        trace := trace + [Entry(key.value, value.value)];
        if !cb(trace) {
          return false, trace, Application;
        }
      }
      i := i + 1;
    }
    assert vs[..i] == vs;
    return true, trace, Finished;
  }

  lemma {:induction false} WalkVerdictsPrefix(judge: (int, Key) -> Verdict, keys: seq<Key>, n: nat)
    requires n <= |keys|
    ensures WalkVerdicts(judge, keys[..n]) == WalkVerdicts(judge, keys)[..n]
  {
    if n == |keys| {
      assert keys[..n] == keys;
    } else {
      WalkVerdictsPrefix(judge, keys[..|keys| - 1], n);
      assert keys[..|keys| - 1][..n] == keys[..n];
    }
  }

  /** The verdicts on one page's keys. */
  function PageSlice(judge: (int, Key) -> Verdict, page: nat, keys: seq<Key>): (r: seq<Verdict>)
    ensures |r| == |keys|
  {
    if keys == [] then []
    else PageSlice(judge, page, keys[..|keys| - 1]) + [judge(page, keys[|keys| - 1])]
  }

  lemma {:induction false} WalkIsPages(judge: (int, Key) -> Verdict, page: nat, done: seq<Key>, pending: seq<Key>)
    requires |done| == 1001 * page && |pending| <= 1001
    ensures WalkVerdicts(judge, done + pending) == WalkVerdicts(judge, done) + PageSlice(judge, page, pending)
  {
    if pending == [] {
      assert done + pending == done;
    } else {
      var n := |pending| - 1;
      WalkIsPages(judge, page, done, pending[..n]);
      assert (done + pending)[..|done| + n] == done + pending[..n];
      PageOf(page, n);
    }
  }

  /** A page delivers as its keys do one by one; a failed request is the same failure for its first key. */
  lemma PageFits(sh: Shelf, srv: Server, page: nat, like: Key, stopAtNil: bool, pending: seq<Key>)
    requires pending != []
    ensures var slice, vs := PageSlice(Judge(sh, srv, like, stopAtNil), page, pending), PageVerdicts(sh, srv, page, like, stopAtNil, Texts(sh, pending));
      vs == slice || (slice[0] == End(Database) && vs == [End(Database)])
  {
    var judge := Judge(sh, srv, like, stopAtNil);
    forall i | 0 <= i < |pending|
      ensures PageSlice(judge, page, pending)[i] == judge(page, pending[i])
    {
      PageSliceAt(judge, page, pending, i);
    }
  }

  lemma {:induction false} PageSliceAt(judge: (int, Key) -> Verdict, page: nat, keys: seq<Key>, i: nat)
    requires i < |keys|
    ensures PageSlice(judge, page, keys)[i] == judge(page, keys[i])
  {
    if i < |keys| - 1 {
      PageSliceAt(judge, page, keys[..|keys| - 1], i);
    }
  }

  lemma DeliverPage(before: seq<Verdict>, slice: seq<Verdict>, vs: seq<Verdict>, cb: Callback, trace: Trace)
    requires Deliver(before, cb, []) == Going(trace)
    requires vs == slice || (slice != [] && slice[0] == End(Database) && vs == [End(Database)])
    ensures Deliver(before + slice, cb, []) == Deliver(vs, cb, trace)
  {
    DeliverConcat(before, slice, cb, []);
  }

  lemma PageOf(page: nat, i: nat)
    requires i < 1001
    ensures (1001 * page + i) / 1001 == page && (1001 * page + i) % 1001 == i
  {
  }

  // ---- Range ----

  lemma FullPagesStay(page: nat, extra: nat)
    ensures 1001 * page <= 1001 * page + extra - (1001 * page + extra) % 1001
  {
    PageOf(page + extra / 1001, extra % 1001);
  }

  /** Pages that are full get fetched. */
  lemma DoneIsFetched(keys: seq<Key>, end: WalkEnd, page: nat, done: seq<Key>)
    requires done <= keys && |done| == 1001 * page
    ensures done <= Fetched(keys, end)
  {
    FullPagesStay(page, |keys| - |done|);
  }

  lemma WalkVerdictsStart(judge: (int, Key) -> Verdict, done: seq<Key>, keys: seq<Key>)
    requires done <= keys
    ensures WalkVerdicts(judge, done) <= WalkVerdicts(judge, keys)
  {
    WalkVerdictsPrefix(judge, keys, |done|);
    assert keys[..|done|] == done;
  }

  lemma StoppedAtStart(start: seq<Verdict>, all: seq<Verdict>, tail: seq<Verdict>, cb: Callback)
    requires start <= all && Deliver(start, cb, []).Stopped?
    ensures Deliver(all + tail, cb, []) == Deliver(start, cb, [])
  {
    assert (all + tail)[..|start|] == start;
    StoppedOnPrefix(all + tail, |start|, cb, []);
  }

  lemma VerdictsStartWith(judge: (int, Key) -> Verdict, srv: Server, keys: seq<Key>, end: WalkEnd, page: nat, done: seq<Key>, cb: Callback)
    requires done <= keys && |done| == 1001 * page
    requires Deliver(WalkVerdicts(judge, done), cb, []).Stopped?
    ensures Deliver(WalkVerdicts(judge, Fetched(keys, end)) + Tail(srv, |keys|, end), cb, []) == Deliver(WalkVerdicts(judge, done), cb, [])
  {
    DoneIsFetched(keys, end, page, done);
    WalkVerdictsStart(judge, done, Fetched(keys, end));
    StoppedAtStart(WalkVerdicts(judge, done), WalkVerdicts(judge, Fetched(keys, end)), Tail(srv, |keys|, end), cb);
  }

  /** The walk ended before its target: what is pending is never fetched. */
  lemma StoppedEarly(judge: (int, Key) -> Verdict, srv: Server, end: WalkEnd, page: nat, done: seq<Key>, pending: seq<Key>, cb: Callback, trace: Trace)
    requires |done| == 1001 * page && |pending| < 1001 && end != Reached
    requires Deliver(WalkVerdicts(judge, done), cb, []) == Going(trace)
    ensures Deliver(WalkVerdicts(judge, Fetched(done + pending, end)) + Tail(srv, |done + pending|, end), cb, []) ==
      Stopped(trace, if end == OutOfTime then Cancelled else Panicked)
  {
    PageOf(page, |pending|);
    assert Fetched(done + pending, end) == done;
    DeliverConcat(WalkVerdicts(judge, done), Tail(srv, |done + pending|, end), cb, []);
  }

  lemma FullPage(sh: Shelf, srv: Server, like: Key, stopAtNil: bool, page: nat, done: seq<Key>, pending: seq<Key>, cb: Callback, trace: Trace)
    requires |done| == 1001 * page && 0 < |pending| <= 1001
    requires Deliver(WalkVerdicts(Judge(sh, srv, like, stopAtNil), done), cb, []) == Going(trace)
    ensures Deliver(WalkVerdicts(Judge(sh, srv, like, stopAtNil), done + pending), cb, []) ==
      Deliver(PageVerdicts(sh, srv, page, like, stopAtNil, Texts(sh, pending)), cb, trace)
  {
    var judge := Judge(sh, srv, like, stopAtNil);
    WalkIsPages(judge, page, done, pending);
    PageFits(sh, srv, page, like, stopAtNil, pending);
    DeliverPage(WalkVerdicts(judge, done), PageSlice(judge, page, pending),
      PageVerdicts(sh, srv, page, like, stopAtNil, Texts(sh, pending)), cb, trace);
  }

  /** Asking for no keys is what the tail of an exactly filled walk stands for. */
  lemma EmptyPageIsTail(sh: Shelf, srv: Server, like: Key, stopAtNil: bool, page: nat)
    ensures PageVerdicts(sh, srv, page, like, stopAtNil, Texts(sh, [])) == Tail(srv, 1001 * page, Reached)
  {
    PageOf(page, 0);
    assert Texts(sh, []) == [];
    if srv.reply(page).Some? {
      assert TextVerdicts(sh, srv.reply(page).value, like, stopAtNil, []) == [];
    }
  }

  lemma NoTail(srv: Server, page: nat, count: nat)
    requires 1001 * page < count < 1001 * page + 1001
    ensures Tail(srv, count, Reached) == []
  {
    PageOf(page, count - 1001 * page);
  }

  lemma NothingMore(all: seq<Verdict>, tail: seq<Verdict>, cb: Callback)
    requires tail == []
    ensures Deliver(all + tail, cb, []) == Deliver(all, cb, [])
  {
    assert all + tail == all;
  }

  lemma AfterAll(all: seq<Verdict>, tail: seq<Verdict>, cb: Callback, trace: Trace)
    requires Deliver(all, cb, []) == Going(trace)
    ensures Deliver(all + tail, cb, []) == Deliver(tail, cb, trace)
  {
    DeliverConcat(all, tail, cb, []);
  }

  /** The walk arrived with a last page in hand, which may be empty; `vs` are that page's verdicts. */
  lemma LastPage(judge: (int, Key) -> Verdict, srv: Server, page: nat, done: seq<Key>, pending: seq<Key>, vs: seq<Verdict>, cb: Callback, trace: Trace)
    requires |done| == 1001 * page && |pending| < 1001
    requires Deliver(WalkVerdicts(judge, done), cb, []) == Going(trace)
    requires pending == [] ==> vs == Tail(srv, 1001 * page, Reached)
    requires pending != [] ==> Deliver(WalkVerdicts(judge, done + pending), cb, []) == Deliver(vs, cb, trace)
    ensures Deliver(WalkVerdicts(judge, done + pending) + Tail(srv, |done + pending|, Reached), cb, []) == Deliver(vs, cb, trace)
  {
    var all, tail := WalkVerdicts(judge, done + pending), Tail(srv, |done + pending|, Reached);
    if pending == [] {
      assert done + pending == done;
      AfterAll(all, tail, cb, trace);
    } else {
      NoTail(srv, page, |done + pending|);
      NothingMore(all, tail, cb);
    }
  }

  // ---- The loop ----

  /** One call of Range, as asked for. `next` stands for Next, so that the loop need not look into it. */
  datatype Call = Call(sh: Shelf, srv: Server, from: Key, to: Key, stopAtNil: bool, life: nat, next: Stepper) {
    ghost predicate Sound() {
      && (forall k: Key {:trigger k.Next()} :: next(k) == k.Next())
      && Walked() == Walk(Successor(), from, to, life)
    }

    function Judges(): (int, Key) -> Verdict {
      Judge(sh, srv, from, stopAtNil)
    }

    function Walked(): (seq<Key>, WalkEnd) {
      Walk(next, from, to, life)
    }

    function Expected(cb: Callback): Result {
      Close(Deliver(RangeVerdicts(sh, srv, from, to, stopAtNil, life), cb, []))
    }

    function Page(page: nat, pending: seq<Key>, cb: Callback, trace: Trace): Result {
      Deliver(PageVerdicts(sh, srv, page, from, stopAtNil, Texts(sh, pending)), cb, trace)
    }
  }

  /** At the loop head: `done` has been visited, `pending` waits in the page, the walk goes on from `curr`. */
  predicate AtHead(c: Call, cb: Callback, curr: Key, left: nat, page: nat, done: seq<Key>, pending: seq<Key>, trace: Trace) {
    && |done| == 1001 * page
    && c.Walked().0 == done + pending + Walk(c.next, curr, c.to, left).0
    && c.Walked().1 == Walk(c.next, curr, c.to, left).1
    && Deliver(WalkVerdicts(c.Judges(), done), cb, []) == Going(trace)
  }

  /** In the body, after the key before `next` has joined the page. */
  predicate InBody(c: Call, cb: Callback, next: Option<Key>, left: nat, page: nat, done: seq<Key>, pending: seq<Key>, trace: Trace) {
    && |done| == 1001 * page
    && Deliver(WalkVerdicts(c.Judges(), done), cb, []) == Going(trace)
    && match next
       case None => c.Walked() == (done + pending, NoNext)
       case Some(k) => c.Walked() == (done + pending + Walk(c.next, k, c.to, left).0, Walk(c.next, k, c.to, left).1)
  }

  lemma LoopStarts(sh: Shelf, srv: Server, from: Key, to: Key, stopAtNil: bool, life: nat, cb: Callback) returns (c: Call)
    ensures c.sh == sh && c.srv == srv && c.from == from && c.to == to && c.stopAtNil == stopAtNil && c.life == life
    ensures c.Sound() && AtHead(c, cb, from, life, 0, [], [], [])
  {
    c := Call(sh, srv, from, to, stopAtNil, life, Successor());
    assert [] + [] + c.Walked().0 == c.Walked().0;
  }

  lemma LoopCollects(c: Call, cb: Callback, curr: Key, left: nat, page: nat, done: seq<Key>, pending: seq<Key>, trace: Trace)
    requires AtHead(c, cb, curr, left, page, done, pending, trace) && curr != c.to && left > 0
    ensures InBody(c, cb, c.next(curr), left - 1, page, done, pending + [curr], trace)
  {
    match c.next(curr)
    case None =>
      assert done + pending + [curr] == done + (pending + [curr]);
    case Some(k) =>
      var rest := Walk(c.next, k, c.to, left - 1).0;
      assert done + pending + ([curr] + rest) == done + (pending + [curr]) + rest;
  }

  lemma LoopVisits(c: Call, cb: Callback, next: Option<Key>, left: nat, page: nat, done: seq<Key>, pending: seq<Key>, trace: Trace)
    requires c.Sound() && InBody(c, cb, next, left, page, done, pending, trace) && |pending| == 1001
    ensures var r := c.Page(page, pending, cb, trace);
      if r.Going? then InBody(c, cb, next, left, page + 1, done + pending, [], r.trace) else c.Expected(cb) == r
  {
    FullPage(c.sh, c.srv, c.from, c.stopAtNil, page, done, pending, cb, trace);
    var walk := c.Walked();
    assert done + pending <= walk.0;
    if c.Page(page, pending, cb, trace).Going? {
      assert done + pending + [] == done + pending;
    } else {
      VerdictsStartWith(c.Judges(), c.srv, walk.0, walk.1, page + 1, done + pending, cb);
    }
  }

  lemma LoopMoves(c: Call, cb: Callback, next: Option<Key>, left: nat, page: nat, done: seq<Key>, pending: seq<Key>, trace: Trace)
    requires c.Sound() && InBody(c, cb, next, left, page, done, pending, trace)
    ensures next.Some? ==> AtHead(c, cb, next.value, left, page, done, pending, trace)
    ensures next.None? && |pending| < 1001 ==> c.Expected(cb) == Stopped(trace, Panicked)
  {
    if next.None? && |pending| < 1001 {
      StoppedEarly(c.Judges(), c.srv, NoNext, page, done, pending, cb, trace);
    }
  }

  lemma LoopEnds(c: Call, cb: Callback, curr: Key, left: nat, page: nat, done: seq<Key>, pending: seq<Key>, trace: Trace)
    requires c.Sound() && |pending| < 1001
    ensures AtHead(c, cb, curr, left, page, done, pending, trace) && curr == c.to ==>
      c.Expected(cb) == Close(c.Page(page, pending, cb, trace))
    ensures AtHead(c, cb, curr, left, page, done, pending, trace) && curr != c.to && left == 0 ==>
      c.Expected(cb) == Stopped(trace, Cancelled)
  {
    assert done + pending + [] == done + pending;
    if AtHead(c, cb, curr, left, page, done, pending, trace) && curr == c.to {
      if pending == [] {
        EmptyPageIsTail(c.sh, c.srv, c.from, c.stopAtNil, page);
      } else {
        FullPage(c.sh, c.srv, c.from, c.stopAtNil, page, done, pending, cb, trace);
      }
      LastPage(c.Judges(), c.srv, page, done, pending, PageVerdicts(c.sh, c.srv, page, c.from, c.stopAtNil, Texts(c.sh, pending)), cb, trace);
    }
    if AtHead(c, cb, curr, left, page, done, pending, trace) && curr != c.to && left == 0 {
      StoppedEarly(c.Judges(), c.srv, OutOfTime, page, done, pending, cb, trace);
    }
  }

  lemma TextsGrow(sh: Shelf, pending: seq<Key>, curr: Key)
    ensures Texts(sh, pending + [curr]) == Texts(sh, pending) + [sh.ToRedisKey(curr)]
  {
  }

  /** shelf.Range. The loop's inner test for `to` repeats its guard and is left out. */
  method Range(sh: Shelf, srv: Server, from: Key, to: Key, cb: Callback, stopAtNil: bool, life: nat)
    returns (trace: Trace, outcome: Outcome)
    ensures Stopped(trace, outcome) == Close(Deliver(RangeVerdicts(sh, srv, from, to, stopAtNil, life), cb, []))
  {
    trace := [];
    var keys: seq<string> := [];
    var numKeys, curr, checks, page := 0, from, 0, 0;
    var proceed;
    ghost var c := LoopStarts(sh, srv, from, to, stopAtNil, life, cb);
    ghost var left: nat, done: seq<Key>, pending: seq<Key> := life, [], [];
    while curr != to
      invariant checks + left == life && numKeys == |pending| <= RESULT_COUNT && keys == Texts(sh, pending)
      invariant AtHead(c, cb, curr, left, page, done, pending, trace)
      decreases left
    {
      if checks >= life {
        LoopEnds(c, cb, curr, left, page, done, pending, trace);
        return trace, Cancelled;
      }
      ghost var after := curr.Next();
      LoopCollects(c, cb, curr, left, page, done, pending, trace);
      checks, left := checks + 1, left - 1;
      TextsGrow(sh, pending, curr);
      keys := keys + [sh.ToRedisKey(curr)];
      pending := pending + [curr];
      if numKeys >= RESULT_COUNT {
        LoopVisits(c, cb, after, left, page, done, pending, trace);
        proceed, trace, outcome := VisitKeys(sh, srv, page, keys, cb, from, stopAtNil, trace);
        if !proceed {
          return;
        }
        done, pending, page := done + pending, [], page + 1;
        keys := [];
        numKeys := 0;
      } else {
        numKeys := numKeys + 1;
      }
      LoopMoves(c, cb, after, left, page, done, pending, trace);
      var next := curr.Next();
      if next.None? {
        return trace, Panicked;
      }
      curr := next.value;
    }
    LoopEnds(c, cb, curr, left, page, done, pending, trace);
    proceed, trace, outcome := VisitKeys(sh, srv, page, keys, cb, from, stopAtNil, trace);
  }
}
