/** What every Range and Iterate does with the entries it meets: a sequence of verdicts is handed to the callback
    one by one. The callback is any function of all it has been given, so it may keep state. */
module Delivery {
  import opened ByteStrings
  import opened Keys

  datatype Outcome =
    | Finished      // nil error
    | Application   // the callback's error
    | Cancelled     // the context's error
    | Database      // the engine's error
    | BadKey        // a stored key that the key type cannot read
    | Panicked      // Next on a hash key whose successor has fewer than 32 bytes

  datatype Entry = Entry(key: Key, value: bytes)
  type Trace = seq<Entry>

  /** True to go on, false for an error, on the entries given so far. */
  type Callback = Trace -> bool

  datatype Verdict = Give(entry: Entry) | Skip | End(outcome: Outcome)
  datatype Result = Going(trace: Trace) | Stopped(trace: Trace, outcome: Outcome)

  function Deliver(vs: seq<Verdict>, cb: Callback, trace: Trace): Result {
    if vs == [] then Going(trace)
    else match vs[0]
      case Skip => Deliver(vs[1..], cb, trace)
      case End(outcome) => Stopped(trace, outcome)
      case Give(e) =>
        if cb(trace + [e]) then Deliver(vs[1..], cb, trace + [e]) else Stopped(trace + [e], Application)
  }

  /** What a Range call returns: running out of verdicts is success. */
  function Close(r: Result): Result {
    match r
    case Going(trace) => Stopped(trace, Finished)
    case Stopped(_, _) => r
  }

  lemma {:induction false} DeliverConcat(a: seq<Verdict>, b: seq<Verdict>, cb: Callback, trace: Trace)
    ensures Deliver(a + b, cb, trace) ==
      if Deliver(a, cb, trace).Going? then Deliver(b, cb, Deliver(a, cb, trace).trace) else Deliver(a, cb, trace)
  {
    if a == [] {
      assert a + b == b;
    } else {
      assert (a + b)[1..] == a[1..] + b;
      match a[0]
      case Skip => DeliverConcat(a[1..], b, cb, trace);
      case End(_) =>
      case Give(e) => DeliverConcat(a[1..], b, cb, trace + [e]);
    }
  }

  lemma DeliverStep(vs: seq<Verdict>, i: nat, cb: Callback, trace: Trace)
    requires i < |vs|
    ensures Deliver(vs[..i + 1], cb, trace) ==
      if Deliver(vs[..i], cb, trace).Going? then Deliver([vs[i]], cb, Deliver(vs[..i], cb, trace).trace)
      else Deliver(vs[..i], cb, trace)
  {
    assert vs[..i + 1] == vs[..i] + [vs[i]];
    DeliverConcat(vs[..i], [vs[i]], cb, trace);
  }

  /** Once stopped on a prefix, the rest does not matter. */
  lemma StoppedOnPrefix(vs: seq<Verdict>, i: nat, cb: Callback, trace: Trace)
    requires i <= |vs| && Deliver(vs[..i], cb, trace).Stopped?
    ensures Deliver(vs, cb, trace) == Deliver(vs[..i], cb, trace)
  {
    assert vs == vs[..i] + vs[i..];
    DeliverConcat(vs[..i], vs[i..], cb, trace);
  }

  /** Delivery reaches the i-th verdict and obeys it. */
  lemma VerdictAt(vs: seq<Verdict>, i: nat, cb: Callback, start: Trace)
    requires i < |vs| && Deliver(vs[..i], cb, start).Going?
    ensures var trace, next := Deliver(vs[..i], cb, start).trace, Deliver(vs[..i + 1], cb, start);
      if vs[i].Skip? then next == Going(trace)
      else if vs[i].End? then Deliver(vs, cb, start) == Stopped(trace, vs[i].outcome)
      else if cb(trace + [vs[i].entry]) then next == Going(trace + [vs[i].entry])
      else Deliver(vs, cb, start) == Stopped(trace + [vs[i].entry], Application)
  {
    DeliverStep(vs, i, cb, start);
    var trace := Deliver(vs[..i], cb, start).trace;
    assert [vs[i]][1..] == [];
    if Deliver(vs[..i + 1], cb, start).Stopped? {
      StoppedOnPrefix(vs, i + 1, cb, start);
    }
  }

  // ---- What delivery means ----

  /** The entries up to the first End. */
  function Gives(vs: seq<Verdict>): Trace {
    if vs == [] then []
    else match vs[0]
      case Skip => Gives(vs[1..])
      case End(_) => []
      case Give(e) => [e] + Gives(vs[1..])
  }

  function FirstEnd(vs: seq<Verdict>): Outcome {
    if vs == [] then Finished
    else match vs[0]
      case End(outcome) => outcome
      case _ => FirstEnd(vs[1..])
  }

  lemma {:induction false} GivesConcat(a: seq<Verdict>, b: seq<Verdict>)
    requires forall i :: 0 <= i < |a| ==> !a[i].End?
    ensures Gives(a + b) == Gives(a) + Gives(b) && FirstEnd(a + b) == FirstEnd(b)
  {
    if a == [] {
      assert a + b == b;
    } else {
      assert (a + b)[1..] == a[1..] + b;
      GivesConcat(a[1..], b);
    }
  }

  predicate AcceptedFrom(cb: Callback, t: Trace, lo: nat, hi: nat) {
    forall i :: lo < i <= hi && i <= |t| ==> cb(t[..i])
  }

  /** The callback accepts the first `n` entries, one after the other. */
  predicate Accepted(cb: Callback, t: Trace, n: nat) {
    AcceptedFrom(cb, t, 0, n)
  }

  /** What delivering `all`, of which `done` entries are behind us, comes to. */
  predicate Meaning(r: Result, all: Trace, done: nat, end: Outcome, cb: Callback) {
    if AcceptedFrom(cb, all, done, |all|) then r == Stopped(all, end)
    else r.Stopped? && r.outcome == Application && done < |r.trace| <= |all| && r.trace == all[..|r.trace|] &&
         !cb(r.trace) && AcceptedFrom(cb, all, done, |r.trace| - 1)
  }

  /** Either the callback accepts every entry and the outcome is the first End's, or it is called up to and
      including the first entry that it refuses. */
  lemma DeliverMeaning(vs: seq<Verdict>, cb: Callback)
    ensures var r, all := Close(Deliver(vs, cb, [])), Gives(vs);
      if Accepted(cb, all, |all|) then r == Stopped(all, FirstEnd(vs))
      else r.outcome == Application && 0 < |r.trace| <= |all| && r.trace == all[..|r.trace|] &&
           !cb(r.trace) && Accepted(cb, all, |r.trace| - 1)
  {
    DeliverMeaningFrom(vs, cb, []);
    assert [] + Gives(vs) == Gives(vs);
  }

  lemma {:induction false} DeliverMeaningFrom(vs: seq<Verdict>, cb: Callback, trace: Trace)
    ensures Meaning(Close(Deliver(vs, cb, trace)), trace + Gives(vs), |trace|, FirstEnd(vs), cb)
  {
    if vs == [] || vs[0].End? {
      assert trace + Gives(vs) == trace;
    } else if vs[0].Skip? {
      DeliverMeaningFrom(vs[1..], cb, trace);
    } else {
      var next := trace + [vs[0].entry];
      DeliverMeaningFrom(vs[1..], cb, next);
      assert next + Gives(vs[1..]) == trace + Gives(vs);
      OneMoreAccepted(cb, trace, vs[0].entry, Gives(vs[1..]));
      if !cb(next) {
        assert (trace + Gives(vs))[..|next|] == next;
      }
    }
  }

  lemma OneMoreAccepted(cb: Callback, trace: Trace, e: Entry, rest: Trace)
    ensures var all := trace + [e] + rest;
      forall hi :: |trace| < hi ==> (AcceptedFrom(cb, all, |trace|, hi) <==> cb(trace + [e]) && AcceptedFrom(cb, all, |trace| + 1, hi))
  {
    var all := trace + [e] + rest;
    assert all[..|trace| + 1] == trace + [e];
  }

  /** Delivery only appends. */
  lemma {:induction false} DeliverExtends(vs: seq<Verdict>, cb: Callback, trace: Trace)
    ensures trace <= Deliver(vs, cb, trace).trace
  {
    if vs != [] {
      match vs[0]
      case Skip => DeliverExtends(vs[1..], cb, trace);
      case End(_) =>
      case Give(e) => DeliverExtends(vs[1..], cb, trace + [e]);
    }
  }
}
