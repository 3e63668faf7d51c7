/** bbolt Read and Write calls as an interleaved system: every call goes through lockWithCancel, begins, runs its
    body one action at a time, commits or rolls back, and unlocks. The engine is deliberately weak: reads are
    answered from the live database, so whatever isolation there is comes from the lock. */
module BboltTx {
  import opened Bodies
  import opened Runs
  import L = LockProtocol

  datatype Phase = Running | Closing | Closed

  /** `began` and `pos` are history: whether Begin succeeded, and the call's place in lock order. */
  datatype Tx = Tx(writable: bool, phase: Phase, began: bool, pos: nat, history: History, committed: bool)

  /** `order` lists the calls in the order in which they began. */
  datatype Sys = Sys(lock: L.State, db: Db, txs: map<nat, Tx>, order: seq<nat>)

  datatype Step =
    | LockStep(step: L.Step)   // any step of lockWithCancel for this call
    | Begin                    // db.Begin succeeds
    | BeginFails               // db.Begin fails, nothing runs
    | Act(event: Event)        // the body reads or writes once
    | Finish(commits: bool)    // the body returned; commits: context alive and the engine accepted the commit
    | Unlock

  predicate Init(s: Sys, init: Db) {
    L.Init(s.lock) && s.db == init && s.txs == map[] && s.order == []
  }

  predicate IsOwner(lock: L.State, id: nat) {
    id in lock.calls && lock.calls[id].caller == L.Owner
  }

  predicate Writable(lock: L.State, id: nat)
    requires IsOwner(lock, id)
  {
    lock.calls[id].mode == L.Write
  }

  predicate LockStepped(s: Sys, t: Sys, id: nat, l: L.Step) {
    l != L.CRelease && L.Next(s.lock, t.lock, id, l) && t == s.(lock := t.lock)
  }

  predicate Began(s: Sys, t: Sys, id: nat) {
    IsOwner(s.lock, id) && id !in s.txs &&
    t == s.(txs := s.txs[id := Tx(Writable(s.lock, id), Running, true, |s.order|, [], false)], order := s.order + [id])
  }

  predicate BeginFailed(s: Sys, t: Sys, id: nat) {
    IsOwner(s.lock, id) && id !in s.txs &&
    t == s.(txs := s.txs[id := Tx(Writable(s.lock, id), Closing, false, 0, [], false)])
  }

  predicate Acted(s: Sys, t: Sys, body: Body, id: nat, e: Event) {
    id in s.txs && s.txs[id].phase == Running && (e.Wrote? ==> s.txs[id].writable) &&
    EventFits(true, body, s.db, s.txs[id].history, e) &&
    t == s.(txs := s.txs[id := s.txs[id].(history := s.txs[id].history + [e])])
  }

  /** A writer commits iff its body succeeded, its context is alive and the engine accepts; all else rolls back. */
  predicate Finished(s: Sys, t: Sys, body: Body, id: nat, commits: bool) {
    id in s.txs && s.txs[id].phase == Running && body(s.txs[id].history).Return? &&
    (var x := s.txs[id];
     var committed := x.writable && body(x.history).ok && commits;
     t == s.(db := if committed then Apply(s.db, Writes(x.history)) else s.db,
             txs := s.txs[id := x.(phase := Closing, committed := committed)]))
  }

  predicate Unlocked(s: Sys, t: Sys, id: nat) {
    id in s.txs && s.txs[id].phase == Closing && L.Next(s.lock, t.lock, id, L.CRelease) &&
    t == s.(lock := t.lock, txs := s.txs[id := s.txs[id].(phase := Closed)])
  }

  predicate Next(s: Sys, t: Sys, bodies: nat -> Body, id: nat, step: Step) {
    match step
    case LockStep(l) => LockStepped(s, t, id, l)
    case Begin => Began(s, t, id)
    case BeginFails => BeginFailed(s, t, id)
    case Act(e) => Acted(s, t, bodies(id), id, e)
    case Finish(commits) => Finished(s, t, bodies(id), id, commits)
    case Unlock => Unlocked(s, t, id)
  }

  ghost predicate SomeStep(s: Sys, t: Sys, bodies: nat -> Body) {
    exists id, step :: Next(s, t, bodies, id, step)
  }

  ghost predicate StepAt(run: seq<Sys>, bodies: nat -> Body, k: int) {
    0 < k < |run| && SomeStep(run[k - 1], run[k], bodies)
  }

  ghost predicate IsRun(run: seq<Sys>, bodies: nat -> Body, init: Db) {
    run != [] && Init(run[0], init) && forall k :: 0 < k < |run| ==> StepAt(run, bodies, k)
  }

  // ---- Invariant ----

  function EffectOf(txs: map<nat, Tx>, id: nat): seq<Cmd> {
    if id in txs && txs[id].committed then Writes(txs[id].history) else []
  }

  /** The database that the `n`-th call in lock order finds when the calls run one at a time. */
  function SerialDb(s: Sys, init: Db, n: nat): Db
    requires n <= |s.order|
  {
    if n == 0 then init else Apply(SerialDb(s, init, n - 1), EffectOf(s.txs, s.order[n - 1]))
  }

  /** Calls and transactions agree on who owns the lock and in which mode. */
  predicate LinkTx(lock: L.State, id: nat, x: Tx) {
    && id in lock.calls
    && x.writable == (lock.calls[id].mode == L.Write)
    && lock.calls[id].caller == if x.phase == Closed then L.Released else L.Owner
  }

  ghost predicate LinkInv(s: Sys) {
    && L.Inv(s.lock)
    && forall id :: id in s.txs ==> LinkTx(s.lock, id, s.txs[id])
  }

  predicate OrderTx(order: seq<nat>, id: nat, x: Tx) {
    && (x.began ==> x.pos < |order| && order[x.pos] == id)
    && (x.phase == Running ==> x.began && (x.writable ==> x.pos == |order| - 1))
  }

  predicate OrderAt(s: Sys, n: nat) {
    n < |s.order| && s.order[n] in s.txs && s.txs[s.order[n]].began && s.txs[s.order[n]].pos == n
  }

  ghost predicate OrderInv(s: Sys) {
    && (forall n: nat :: n < |s.order| ==> OrderAt(s, n))
    && (forall id :: id in s.txs ==> OrderTx(s.order, id, s.txs[id]))
  }

  /** A call that began has run alone on its predecessors' database, and a running one still stands on it. */
  predicate ViewTx(x: Tx, body: Body, base: Db, db: Db) {
    && Alone(true, body, base, x.history)
    && (x.phase == Running ==> db == base && !x.committed)
    && (x.phase != Running ==> body(x.history).Return?)
    && (x.committed ==> x.writable && body(x.history) == Return(true))
  }

  predicate ViewAt(s: Sys, bodies: nat -> Body, init: Db, n: nat) {
    n < |s.order| && s.order[n] in s.txs &&
    ViewTx(s.txs[s.order[n]], bodies(s.order[n]), SerialDb(s, init, n), s.db)
  }

  ghost predicate ViewInv(s: Sys, bodies: nat -> Body, init: Db) {
    && s.db == SerialDb(s, init, |s.order|)
    && forall n: nat :: n < |s.order| ==> ViewAt(s, bodies, init, n)
  }

  ghost predicate Inv(s: Sys, bodies: nat -> Body, init: Db) {
    LinkInv(s) && OrderInv(s) && ViewInv(s, bodies, init)
  }

  /** As long as the effects of the first `n` calls stay, so does the database after them. */
  lemma {:induction false} SerialDbUnchanged(s: Sys, t: Sys, init: Db, n: nat)
    requires n <= |s.order| <= |t.order| && s.order <= t.order
    requires forall i :: 0 <= i < n ==> EffectOf(t.txs, s.order[i]) == EffectOf(s.txs, s.order[i])
    ensures SerialDb(t, init, n) == SerialDb(s, init, n)
  {
    if n > 0 {
      SerialDbUnchanged(s, t, init, n - 1);
      assert t.order[n - 1] == s.order[n - 1];
    }
  }

  // ---- Each step keeps the invariant ----

  lemma OwnerStays(s: L.State, t: L.State, id: nat, l: L.Step)
    requires id in s.calls && L.CallInv(s.calls[id]) && s.calls[id].caller in {L.Owner, L.Released}
    requires L.Next(s, t, id, l) && l != L.CRelease
    ensures id in t.calls && t.calls[id].caller == s.calls[id].caller
  {
  }

  lemma LockStepKeepsTxs(s: Sys, t: Sys, id: nat, l: L.Step, x: nat)
    requires (forall c :: c in s.lock.calls ==> L.CallInv(s.lock.calls[c])) && L.Next(s.lock, t.lock, id, l) && l != L.CRelease
    requires x in s.txs && LinkTx(s.lock, x, s.txs[x])
    ensures LinkTx(t.lock, x, s.txs[x])
  {
    L.StepIsLocal(s.lock, t.lock, id, l);
    if x == id {
      OwnerStays(s.lock, t.lock, id, l);
    }
  }

  lemma LockStepKeepsLink(s: Sys, t: Sys, id: nat, l: L.Step)
    requires LinkInv(s) && L.Next(s.lock, t.lock, id, l)
    requires t.txs == s.txs && l != L.CRelease
    ensures LinkInv(t)
  {
    L.StepKeepsInv(s.lock, t.lock, id, l);
    forall x | x in t.txs
      ensures LinkTx(t.lock, x, t.txs[x])
    {
      LockStepKeepsTxs(s, t, id, l, x);
    }
  }

  lemma UnlockKeepsLink(s: Sys, t: Sys, id: nat)
    requires LinkInv(s) && Unlocked(s, t, id)
    ensures LinkInv(t)
  {
    L.StepKeepsInv(s.lock, t.lock, id, L.CRelease);
    L.StepIsLocal(s.lock, t.lock, id, L.CRelease);
    forall x | x in t.txs
      ensures LinkTx(t.lock, x, t.txs[x])
    {
      assert LinkTx(s.lock, x, s.txs[x]);
    }
  }

  /** While a writer holds the lock, nobody else does. */
  lemma WriterRunsAlone(s: Sys, w: nat, x: nat)
    requires LinkInv(s) && w in s.txs && s.txs[w].writable && s.txs[w].phase != Closed && x != w
    ensures !IsOwner(s.lock, x)
  {
    assert LinkTx(s.lock, w, s.txs[w]);
    if IsOwner(s.lock, x) {
      L.HoldersExclude(s.lock, w, x);
    }
  }

  /** Steps of a transaction leave the lock alone. */
  lemma TxStepKeepsLink(s: Sys, t: Sys, id: nat)
    requires LinkInv(s) && t.lock == s.lock && id in t.txs && t.txs == s.txs[id := t.txs[id]]
    requires LinkTx(s.lock, id, t.txs[id])
    ensures LinkInv(t)
  {
  }

  lemma BeginKeepsOrder(s: Sys, t: Sys, id: nat)
    requires OrderInv(s) && Began(s, t, id)
    requires forall x :: x in s.txs && s.txs[x].phase == Running ==> !s.txs[x].writable
    ensures OrderInv(t)
  {
    forall n: nat | n < |t.order|
      ensures OrderAt(t, n)
    {
      if n < |s.order| {
        assert OrderAt(s, n);
      }
    }
    forall x | x in t.txs
      ensures OrderTx(t.order, x, t.txs[x])
    {
      if x != id {
        assert OrderTx(s.order, x, s.txs[x]);
      }
    }
  }

  lemma NoWriterRuns(s: Sys, id: nat)
    requires LinkInv(s) && IsOwner(s.lock, id) && id !in s.txs
    ensures forall x :: x in s.txs && s.txs[x].phase == Running ==> !s.txs[x].writable
  {
    forall x | x in s.txs && s.txs[x].phase == Running && s.txs[x].writable
      ensures false
    {
      WriterRunsAlone(s, x, id);
    }
  }

  /** What a step may do to one transaction without moving it in the order. */
  predicate SamePlace(s: Sys, t: Sys, id: nat) {
    && t.order == s.order && id in t.txs && t.txs == s.txs[id := t.txs[id]]
    && (var x := t.txs[id];
        if id in s.txs then
          x.began == s.txs[id].began && x.pos == s.txs[id].pos && x.writable == s.txs[id].writable &&
          (x.phase == Running ==> s.txs[id].phase == Running)
        else !x.began && x.phase != Running)
  }

  lemma SamePlaceKeepsOrder(s: Sys, t: Sys, id: nat)
    requires OrderInv(s) && SamePlace(s, t, id)
    ensures OrderInv(t)
  {
    forall n: nat | n < |t.order|
      ensures OrderAt(t, n)
    {
      assert OrderAt(s, n);
    }
    forall x | x in t.txs
      ensures OrderTx(t.order, x, t.txs[x])
    {
      if x in s.txs {
        assert OrderTx(s.order, x, s.txs[x]);
      }
    }
  }

  /** The databases along the order stay when no effect of a call that began changes. */
  lemma SerialDbsUnchanged(s: Sys, t: Sys, init: Db, upTo: nat)
    requires s.order <= t.order && upTo <= |s.order|
    requires forall i :: 0 <= i < upTo ==> EffectOf(t.txs, s.order[i]) == EffectOf(s.txs, s.order[i])
    ensures forall n: nat :: n <= upTo ==> SerialDb(t, init, n) == SerialDb(s, init, n)
  {
    forall n: nat | n <= upTo
      ensures SerialDb(t, init, n) == SerialDb(s, init, n)
    {
      SerialDbUnchanged(s, t, init, n);
    }
  }

  lemma BeginKeepsView(s: Sys, t: Sys, bodies: nat -> Body, init: Db, id: nat)
    requires OrderInv(s) && ViewInv(s, bodies, init) && Began(s, t, id)
    ensures ViewInv(t, bodies, init)
  {
    forall n: nat | n < |s.order|
      ensures s.order[n] != id
    {
      assert OrderAt(s, n);
    }
    SerialDbsUnchanged(s, t, init, |s.order|);
    assert EffectOf(t.txs, id) == [];
    assert SerialDb(t, init, |t.order|) == Apply(SerialDb(t, init, |s.order|), []);
    forall n: nat | n < |t.order|
      ensures ViewAt(t, bodies, init, n)
    {
      if n < |s.order| {
        assert ViewAt(s, bodies, init, n) && t.order[n] == s.order[n];
      }
    }
  }

  /** Steps that neither change the database nor begin a transaction. */
  lemma QuietStepKeepsView(s: Sys, t: Sys, bodies: nat -> Body, init: Db, id: nat)
    requires OrderInv(s) && ViewInv(s, bodies, init) && SamePlace(s, t, id)
    requires t.db == s.db && EffectOf(t.txs, id) == EffectOf(s.txs, id)
    requires id in s.txs && s.txs[id].began && s.txs[id].pos < |s.order| ==>
      ViewTx(t.txs[id], bodies(id), SerialDb(s, init, s.txs[id].pos), s.db)
    ensures ViewInv(t, bodies, init)
  {
    SerialDbsUnchanged(s, t, init, |s.order|);
    forall n: nat | n < |t.order|
      ensures ViewAt(t, bodies, init, n)
    {
      assert ViewAt(s, bodies, init, n) && OrderAt(s, n);
    }
  }

  lemma ViewOf(s: Sys, bodies: nat -> Body, init: Db, id: nat)
    requires OrderInv(s) && ViewInv(s, bodies, init) && id in s.txs && s.txs[id].began
    ensures s.txs[id].pos < |s.order| && s.order[s.txs[id].pos] == id
    ensures ViewTx(s.txs[id], bodies(id), SerialDb(s, init, s.txs[id].pos), s.db)
  {
    assert OrderTx(s.order, id, s.txs[id]);
    assert ViewAt(s, bodies, init, s.txs[id].pos);
  }

  lemma ActKeepsView(s: Sys, t: Sys, bodies: nat -> Body, init: Db, id: nat, e: Event)
    requires OrderInv(s) && ViewInv(s, bodies, init) && Acted(s, t, bodies(id), id, e)
    ensures ViewInv(t, bodies, init) && SamePlace(s, t, id)
  {
    assert OrderTx(s.order, id, s.txs[id]);
    ViewOf(s, bodies, init, id);
    AloneExtends(true, bodies(id), s.db, s.txs[id].history, e);
    QuietStepKeepsView(s, t, bodies, init, id);
  }

  lemma RollbackKeepsView(s: Sys, t: Sys, bodies: nat -> Body, init: Db, id: nat, commits: bool)
    requires OrderInv(s) && ViewInv(s, bodies, init) && Finished(s, t, bodies(id), id, commits) && !t.txs[id].committed
    ensures ViewInv(t, bodies, init)
  {
    assert OrderTx(s.order, id, s.txs[id]);
    ViewOf(s, bodies, init, id);
    QuietStepKeepsView(s, t, bodies, init, id);
  }

  /** While a writer runs, every call before it in the order has finished its body. */
  lemma PredecessorsAreDone(s: Sys, id: nat)
    requires LinkInv(s) && OrderInv(s) && id in s.txs && s.txs[id].phase == Running && s.txs[id].writable
    ensures forall n: nat :: n < |s.order| && s.order[n] != id && s.order[n] in s.txs ==> s.txs[s.order[n]].phase != Running
  {
    forall n: nat | n < |s.order| && s.order[n] != id && s.order[n] in s.txs
      ensures s.txs[s.order[n]].phase != Running
    {
      assert LinkTx(s.lock, s.order[n], s.txs[s.order[n]]);
      WriterRunsAlone(s, id, s.order[n]);
    }
  }

  /** Only the last call in lock order can commit, so a commit rewrites no earlier database. */
  lemma CommitKeepsView(s: Sys, t: Sys, bodies: nat -> Body, init: Db, id: nat, commits: bool)
    requires OrderInv(s) && ViewInv(s, bodies, init) && Finished(s, t, bodies(id), id, commits) && t.txs[id].committed
    requires forall n: nat :: n < |s.order| && s.order[n] != id && s.order[n] in s.txs ==> s.txs[s.order[n]].phase != Running
    ensures ViewInv(t, bodies, init)
  {
    assert OrderTx(s.order, id, s.txs[id]);
    ViewOf(s, bodies, init, id);
    var pos := s.txs[id].pos;
    forall n: nat | n < pos
      ensures s.order[n] != id
    {
      assert OrderAt(s, n);
    }
    SerialDbsUnchanged(s, t, init, pos);
    forall n: nat | n < |t.order|
      ensures ViewAt(t, bodies, init, n)
    {
      assert ViewAt(s, bodies, init, n);
    }
  }

  lemma UnlockKeepsView(s: Sys, t: Sys, bodies: nat -> Body, init: Db, id: nat)
    requires OrderInv(s) && ViewInv(s, bodies, init) && SamePlace(s, t, id) && id in s.txs && s.txs[id].phase == Closing
    requires t.db == s.db && t.txs[id] == s.txs[id].(phase := Closed)
    ensures ViewInv(t, bodies, init)
  {
    if s.txs[id].began {
      ViewOf(s, bodies, init, id);
    }
    QuietStepKeepsView(s, t, bodies, init, id);
  }

  lemma LockStepKeepsRest(s: Sys, t: Sys, bodies: nat -> Body, init: Db)
    requires OrderInv(s) && ViewInv(s, bodies, init) && t == s.(lock := t.lock)
    ensures OrderInv(t) && ViewInv(t, bodies, init)
  {
    SerialDbsUnchanged(s, t, init, |s.order|);
    forall n: nat | n < |t.order|
      ensures OrderAt(t, n) && ViewAt(t, bodies, init, n)
    {
      assert OrderAt(s, n) && ViewAt(s, bodies, init, n);
    }
  }

  lemma StepKeepsLink(s: Sys, t: Sys, bodies: nat -> Body, id: nat, step: Step)
    requires LinkInv(s) && Next(s, t, bodies, id, step)
    ensures LinkInv(t)
  {
    match step
    case LockStep(l) => LockStepKeepsLink(s, t, id, l);
    case Begin => TxStepKeepsLink(s, t, id);
    case BeginFails => TxStepKeepsLink(s, t, id);
    case Act(e) => assert LinkTx(s.lock, id, s.txs[id]); TxStepKeepsLink(s, t, id);
    case Finish(commits) => assert LinkTx(s.lock, id, s.txs[id]); TxStepKeepsLink(s, t, id);
    case Unlock => UnlockKeepsLink(s, t, id);
  }

  lemma StepKeepsRest(s: Sys, t: Sys, bodies: nat -> Body, init: Db, id: nat, step: Step)
    requires LinkInv(s) && OrderInv(s) && ViewInv(s, bodies, init) && Next(s, t, bodies, id, step)
    ensures OrderInv(t) && ViewInv(t, bodies, init)
  {
    match step
    case LockStep(l) =>
      LockStepKeepsRest(s, t, bodies, init);
    case Begin =>
      NoWriterRuns(s, id);
      BeginKeepsOrder(s, t, id);
      BeginKeepsView(s, t, bodies, init, id);
    case BeginFails =>
      SamePlaceKeepsOrder(s, t, id);
      QuietStepKeepsView(s, t, bodies, init, id);
    case Act(e) =>
      ActKeepsView(s, t, bodies, init, id, e);
      SamePlaceKeepsOrder(s, t, id);
    case Finish(commits) =>
      SamePlaceKeepsOrder(s, t, id);
      if t.txs[id].committed {
        PredecessorsAreDone(s, id);
        CommitKeepsView(s, t, bodies, init, id, commits);
      } else {
        RollbackKeepsView(s, t, bodies, init, id, commits);
      }
    case Unlock =>
      SamePlaceKeepsOrder(s, t, id);
      UnlockKeepsView(s, t, bodies, init, id);
  }

  lemma {:induction false} RunKeepsInv(run: seq<Sys>, bodies: nat -> Body, init: Db, i: nat)
    requires IsRun(run, bodies, init) && i < |run|
    ensures Inv(run[i], bodies, init)
  {
    if i == 0 {
      assert L.Holders(run[0].lock.calls, L.Read) == {} && L.Holders(run[0].lock.calls, L.Write) == {};
    } else {
      RunKeepsInv(run, bodies, init, i - 1);
      assert StepAt(run, bodies, i);
      var id, step :| Next(run[i - 1], run[i], bodies, id, step);
      StepKeepsLink(run[i - 1], run[i], bodies, id, step);
      StepKeepsRest(run[i - 1], run[i], bodies, init, id, step);
    }
  }

  // ---- Main results ----

  /** Serialisability: in every state of every run, the database is the one left by running the calls one at a
      time in lock order, and every body (reader, writer, committed or not) has seen exactly what it sees when it
      runs alone on the database its predecessors leave. Only writers whose body returned success took effect. */
  lemma Serialisable(run: seq<Sys>, bodies: nat -> Body, init: Db, i: nat)
    requires IsRun(run, bodies, init) && i < |run|
    ensures run[i].db == SerialDb(run[i], init, |run[i].order|)
    ensures forall n: nat :: n < |run[i].order| ==> ViewAt(run[i], bodies, init, n)
    ensures forall m, n :: 0 <= m < n < |run[i].order| ==> run[i].order[m] != run[i].order[n]
  {
    RunKeepsInv(run, bodies, init, i);
    var s := run[i];
    forall m, n | 0 <= m < n < |s.order|
      ensures s.order[m] != s.order[n]
    {
      assert OrderAt(s, m) && OrderAt(s, n);
    }
  }

  lemma OrderGrows(run: seq<Sys>, bodies: nat -> Body, init: Db, i: nat, j: nat)
    requires IsRun(run, bodies, init) && i <= j < |run|
    ensures run[i].order <= run[j].order
  {
    var order := run[i].order;
    var grown := (s: Sys) => order <= s.order;
    forall k | i < k <= j && grown(run[k - 1])
      ensures grown(run[k])
    {
      assert StepAt(run, bodies, k);
    }
    Persists(run, grown, i, j);
  }

  lemma OrderedHaveCalled(s: Sys)
    requires LinkInv(s) && OrderInv(s)
    ensures forall n :: 0 <= n < |s.order| ==> s.order[n] in s.lock.calls
  {
    forall n: nat | n < |s.order|
      ensures s.order[n] in s.lock.calls
    {
      assert OrderAt(s, n);
      assert LinkTx(s.lock, s.order[n], s.txs[s.order[n]]);
    }
  }

  /** The serial order respects real time: a call that began before another one even asked for the lock precedes it. */
  lemma OrderIsRealTime(run: seq<Sys>, bodies: nat -> Body, init: Db, i: nat, j: nat, a: nat, b: nat, m: nat, n: nat)
    requires IsRun(run, bodies, init) && i <= j < |run|
    requires a in run[i].txs && run[i].txs[a].began && b !in run[i].lock.calls
    requires m < |run[j].order| && n < |run[j].order| && run[j].order[m] == a && run[j].order[n] == b
    ensures m < n
  {
    OrderGrows(run, bodies, init, i, j);
    RunKeepsInv(run, bodies, init, i);
    Serialisable(run, bodies, init, j);
    var s := run[i];
    assert OrderTx(s.order, a, s.txs[a]);
    var pos := s.txs[a].pos;
    assert run[j].order[pos] == a && m == pos;
    OrderedHaveCalled(s);
  }

  /** A finished call observed and buffered exactly what any finished solo run on the same database does. */
  lemma SameAsSoloRun(run: seq<Sys>, bodies: nat -> Body, init: Db, i: nat, n: nat, solo: History)
    requires IsRun(run, bodies, init) && i < |run| && n < |run[i].order|
    requires run[i].order[n] in run[i].txs && run[i].txs[run[i].order[n]].phase != Running
    requires Alone(true, bodies(run[i].order[n]), SerialDb(run[i], init, n), solo)
    requires bodies(run[i].order[n])(solo).Return?
    ensures run[i].txs[run[i].order[n]].history == solo
  {
    Serialisable(run, bodies, init, i);
    assert ViewAt(run[i], bodies, init, n);
    var id := run[i].order[n];
    FinishedAloneIsUnique(true, bodies(id), SerialDb(run[i], init, n), solo, run[i].txs[id].history);
  }

  // ---- What a commit does, and what a body sees, in terms of the databases of the run ----

  predicate Committed(s: Sys, id: nat) {
    id in s.txs && s.txs[id].committed
  }

  lemma StepOf(run: seq<Sys>, bodies: nat -> Body, init: Db, k: nat) returns (id: nat, step: Step)
    requires IsRun(run, bodies, init) && 0 < k < |run|
    ensures Inv(run[k - 1], bodies, init) && Next(run[k - 1], run[k], bodies, id, step)
  {
    RunKeepsInv(run, bodies, init, k - 1);
    assert StepAt(run, bodies, k);
    id, step :| Next(run[k - 1], run[k], bodies, id, step);
  }

  /** Only the end of a body can commit, and only its own call. */
  lemma CommitStep(s: Sys, t: Sys, bodies: nat -> Body, id: nat, step: Step)
    requires Next(s, t, bodies, id, step)
    ensures forall x :: x != id ==> (Committed(t, x) <==> Committed(s, x))
    ensures !step.Finish? ==> t.db == s.db && (Committed(t, id) <==> Committed(s, id))
    ensures step.Finish? ==> id in s.txs && s.txs[id].phase == Running && id in t.txs && t.txs[id].history == s.txs[id].history
    ensures step.Finish? ==> t.db == if Committed(t, id) then Apply(s.db, Writes(t.txs[id].history)) else s.db
  {
  }

  /** Every step leaves the database alone, or commits one call and carries out that call's history on it. */
  lemma CommitLands(run: seq<Sys>, bodies: nat -> Body, init: Db, k: nat)
    requires IsRun(run, bodies, init) && 0 < k < |run|
    ensures run[k].db == run[k - 1].db || exists id :: Committed(run[k], id) && !Committed(run[k - 1], id)
    ensures forall id :: Committed(run[k], id) && !Committed(run[k - 1], id) ==>
      Lands(run[k - 1].db, run[k].txs[id].history, run[k].db)
  {
    var id, step := StepOf(run, bodies, init, k);
    CommitStep(run[k - 1], run[k], bodies, id, step);
    if step.Finish? {
      WritesLand(run[k - 1].db, run[k].txs[id].history);
      UncommittedWhileRunning(run[k - 1], bodies, init, id);
    }
  }

  lemma UncommittedWhileRunning(s: Sys, bodies: nat -> Body, init: Db, id: nat)
    requires Inv(s, bodies, init) && id in s.txs && s.txs[id].phase == Running
    ensures !s.txs[id].committed && s.txs[id].pos < |s.order| && (s.txs[id].writable ==> s.txs[id].pos == |s.order| - 1)
  {
    assert OrderTx(s.order, id, s.txs[id]);
    ViewOf(s, bodies, init, id);
  }

  /** The place of a call that began and the database before it do not change any more. */
  predicate StandsOn(s: Sys, init: Db, id: nat, pos: nat, db: Db) {
    id in s.txs && s.txs[id].began && s.txs[id].pos == pos && pos < |s.order| && SerialDb(s, init, pos) == db
  }

  lemma StandsOnStays(s: Sys, t: Sys, bodies: nat -> Body, init: Db, other: nat, step: Step, id: nat, pos: nat, db: Db)
    requires Inv(s, bodies, init) && Next(s, t, bodies, other, step) && StandsOn(s, init, id, pos, db)
    ensures StandsOn(t, init, id, pos, db)
  {
    forall n | 0 <= n < pos
      ensures EffectOf(t.txs, s.order[n]) == EffectOf(s.txs, s.order[n])
    {
      assert OrderAt(s, n);
      EffectStays(s, t, bodies, init, other, step, n);
    }
    SerialDbUnchanged(s, t, init, pos);
  }

  lemma EffectStays(s: Sys, t: Sys, bodies: nat -> Body, init: Db, other: nat, step: Step, n: nat)
    requires Inv(s, bodies, init) && Next(s, t, bodies, other, step) && n < |s.order| - 1 && OrderAt(s, n)
    ensures EffectOf(t.txs, s.order[n]) == EffectOf(s.txs, s.order[n])
  {
    var id := s.order[n];
    if other == id && s.txs[id].phase == Running {
      UncommittedWhileRunning(s, bodies, init, id);
    }
  }

  lemma StandsFromBegin(run: seq<Sys>, bodies: nat -> Body, init: Db, i: nat, id: nat)
    requires IsRun(run, bodies, init) && 0 < i < |run| && Began(run[i - 1], run[i], id)
    ensures id in run[i].txs && StandsOn(run[i], init, id, run[i].txs[id].pos, run[i].db)
  {
    RunKeepsInv(run, bodies, init, i);
    ViewOf(run[i], bodies, init, id);
  }

  lemma StandsStep(run: seq<Sys>, bodies: nat -> Body, init: Db, k: nat, id: nat, pos: nat, db: Db)
    requires IsRun(run, bodies, init) && 0 < k < |run| && StandsOn(run[k - 1], init, id, pos, db)
    ensures StandsOn(run[k], init, id, pos, db)
  {
    var other, step := StepOf(run, bodies, init, k);
    StandsOnStays(run[k - 1], run[k], bodies, init, other, step, id, pos, db);
  }

  lemma AloneWhereItStands(run: seq<Sys>, bodies: nat -> Body, init: Db, j: nat, id: nat, pos: nat, db: Db)
    requires IsRun(run, bodies, init) && j < |run| && StandsOn(run[j], init, id, pos, db)
    ensures Alone(true, bodies(id), db, run[j].txs[id].history)
  {
    RunKeepsInv(run, bodies, init, j);
    ViewOf(run[j], bodies, init, id);
  }

  /** A body reads the database as it was when it began, with its own writes so far on top. */
  lemma BodyReads(run: seq<Sys>, bodies: nat -> Body, init: Db, i: nat, j: nat, id: nat)
    requires IsRun(run, bodies, init) && 0 < i <= j < |run| && Began(run[i - 1], run[i], id)
    ensures id in run[j].txs && ReadsFit(true, run[i].db, run[j].txs[id].history)
    ensures FollowsBody(bodies(id), run[j].txs[id].history)
  {
    StandsFromBegin(run, bodies, init, i, id);
    var pos, db := run[i].txs[id].pos, run[i].db;
    var stands := (s: Sys) => StandsOn(s, init, id, pos, db);
    forall k | i < k <= j && stands(run[k - 1])
      ensures stands(run[k])
    {
      StandsStep(run, bodies, init, k, id, pos, db);
    }
    Persists(run, stands, i, j);
    AloneWhereItStands(run, bodies, init, j, id, pos, db);
    AloneReads(true, bodies(id), db, run[j].txs[id].history);
    AloneFollowsBody(true, bodies(id), db, run[j].txs[id].history);
  }

  /** The end of a body commits iff the call may write, the body succeeded, and context and engine let it. */
  lemma FinishCommitsIff(s: Sys, t: Sys, body: Body, id: nat, commits: bool)
    requires Finished(s, t, body, id, commits)
    ensures Committed(t, id) <==> s.txs[id].writable && body(s.txs[id].history) == Return(true) && commits
    ensures t.txs[id].phase == Closing
  {
  }

  // ---- A run that commits ----

  lemma ExtendRun(run: seq<Sys>, bodies: nat -> Body, init: Db, t: Sys, id: nat, step: Step) returns (longer: seq<Sys>)
    requires IsRun(run, bodies, init) && Next(run[|run| - 1], t, bodies, id, step)
    ensures IsRun(longer, bodies, init) && |longer| == |run| + 1 && longer[|run|] == t
  {
    longer := run + [t];
    assert SomeStep(run[|run| - 1], t, bodies);
    forall i | 0 < i < |longer|
      ensures StepAt(longer, bodies, i)
    {
      if i < |run| {
        assert StepAt(run, bodies, i);
      }
    }
  }

  lemma LockOnce(run: seq<Sys>, bodies: nat -> Body, init: Db, l: L.Step) returns (longer: seq<Sys>)
    requires IsRun(run, bodies, init) && l != L.CRelease && L.Enabled(run[|run| - 1].lock, 0, l)
    ensures IsRun(longer, bodies, init) && |longer| == |run| + 1
    ensures longer[|run|] == run[|run| - 1].(lock := L.Do(run[|run| - 1].lock, 0, l))
  {
    var s := run[|run| - 1];
    var t := s.(lock := L.Do(s.lock, 0, l));
    assert LockStepped(s, t, 0, l);
    longer := ExtendRun(run, bodies, init, t, 0, LockStep(l));
  }

  /** The caller gets the write lock. */
  lemma WriterLocks(bodies: nat -> Body, init: Db) returns (run: seq<Sys>)
    ensures IsRun(run, bodies, init)
    ensures var s := run[|run| - 1];
      IsOwner(s.lock, 0) && s.lock.calls[0].mode == L.Write && s.lock.writer && s.db == init && s.txs == map[] && s.order == []
  {
    run := [Sys(L.State(false, false, 0, false, map[]), init, map[], [])];
    run := LockOnce(run, bodies, init, L.Start(L.Write));
    run := LockOnce(run, bodies, init, L.GAnnounce);
    run := LockOnce(run, bodies, init, L.GAcquire);
    run := LockOnce(run, bodies, init, L.GLockInner);
    run := LockOnce(run, bodies, init, L.GLoad);
    run := LockOnce(run, bodies, init, L.Rendezvous);
  }

  lemma WriterPuts(slot: Slot, val: Val, bodies: nat -> Body, start: seq<Sys>) returns (run: seq<Sys>)
    requires IsRun(start, bodies, map[]) && bodies(0) == PutOnce(slot, val)
    requires var s := start[|start| - 1];
      IsOwner(s.lock, 0) && s.lock.calls[0].mode == L.Write && s.db == map[] && s.txs == map[] && s.order == []
    ensures IsRun(run, bodies, map[])
    ensures run[|run| - 1] == Sys(start[|start| - 1].lock, map[], map[0 := Tx(true, Running, true, 0, [Wrote(Put(slot, val))], false)], [0])
  {
    var e := Wrote(Put(slot, val));
    var s0 := start[|start| - 1];
    var s1 := Sys(s0.lock, map[], map[0 := Tx(true, Running, true, 0, [], false)], [0]);
    assert Began(s0, s1, 0);
    run := ExtendRun(start, bodies, map[], s1, 0, Begin);
    assert [] + [e] == [e];
    var s2 := Sys(s0.lock, map[], map[0 := Tx(true, Running, true, 0, [e], false)], [0]);
    assert Acted(s1, s2, bodies(0), 0, e);
    run := ExtendRun(run, bodies, map[], s2, 0, Act(e));
  }

  lemma WriterCommits(slot: Slot, val: Val, bodies: nat -> Body, start: seq<Sys>, lock: L.State) returns (run: seq<Sys>)
    requires IsRun(start, bodies, map[]) && bodies(0) == PutOnce(slot, val)
    requires start[|start| - 1] == Sys(lock, map[], map[0 := Tx(true, Running, true, 0, [Wrote(Put(slot, val))], false)], [0])
    ensures IsRun(run, bodies, map[])
    ensures run[|run| - 1] == Sys(lock, map[slot := val], map[0 := Tx(true, Closing, true, 0, [Wrote(Put(slot, val))], true)], [0])
  {
    var e := Wrote(Put(slot, val));
    PutOnEmpty(slot, val);
    var s := Sys(lock, map[slot := val], map[0 := Tx(true, Closing, true, 0, [e], true)], [0]);
    assert Finished(start[|start| - 1], s, bodies(0), 0, true);
    run := ExtendRun(start, bodies, map[], s, 0, Finish(true));
  }

  lemma WriterUnlocks(bodies: nat -> Body, init: Db, start: seq<Sys>) returns (run: seq<Sys>)
    requires IsRun(start, bodies, init)
    requires var s := start[|start| - 1];
      IsOwner(s.lock, 0) && s.lock.calls[0].mode == L.Write && s.lock.writer && 0 in s.txs && s.txs[0].phase == Closing
    ensures IsRun(run, bodies, init)
    ensures var s, t := start[|start| - 1], run[|run| - 1];
      t.db == s.db && 0 in t.txs && t.txs[0] == s.txs[0].(phase := Closed) && !t.lock.writer
  {
    var s := start[|start| - 1];
    var t := s.(lock := L.Do(s.lock, 0, L.CRelease), txs := s.txs[0 := s.txs[0].(phase := Closed)]);
    assert Unlocked(s, t, 0);
    run := ExtendRun(start, bodies, init, t, 0, Unlock);
  }

  /** A write transaction can go through: it locks, begins, puts, commits and unlocks. */
  lemma CommitIsReachable(slot: Slot, val: Val) returns (run: seq<Sys>, bodies: nat -> Body)
    ensures IsRun(run, bodies, map[])
    ensures var s := run[|run| - 1];
      s.db == map[slot := val] && 0 in s.txs && s.txs[0].phase == Closed && s.txs[0].committed && !s.lock.writer
  {
    var body := PutOnce(slot, val);
    bodies := (id: nat) => body;
    run := WriterLocks(bodies, map[]);
    var lock := run[|run| - 1].lock;
    run := WriterPuts(slot, val, bodies, run);
    run := WriterCommits(slot, val, bodies, run, lock);
    run := WriterUnlocks(bodies, map[], run);
  }

  predicate CallOver(s: Sys, id: nat)
    requires id in s.lock.calls
  {
    s.lock.calls[id].goroutine == L.Ended &&
    (s.lock.calls[id].caller == L.Failed || (id in s.txs && s.txs[id].phase == Closed))
  }

  lemma NoneHeldIsFree(s: L.State)
    requires L.Inv(s) && forall id :: id in s.calls ==> !L.Holds(s.calls[id])
    ensures !s.writer && s.readers == 0
  {
    assert L.Holders(s.calls, L.Read) == {} && L.Holders(s.calls, L.Write) == {};
  }

  /** Every lock taken is given back exactly once: a closed call has taken it once and released it once, and when
      all calls are over and their goroutines have ended the lock is free. */
  lemma LockIsReturned(run: seq<Sys>, bodies: nat -> Body, init: Db, i: nat)
    requires IsRun(run, bodies, init) && i < |run|
    ensures forall id :: id in run[i].txs && run[i].txs[id].phase == Closed ==>
      id in run[i].lock.calls && run[i].lock.calls[id].acquired == 1 && run[i].lock.calls[id].released == 1
    ensures (forall id :: id in run[i].lock.calls ==> CallOver(run[i], id)) ==>
      !run[i].lock.writer && run[i].lock.readers == 0
  {
    RunKeepsInv(run, bodies, init, i);
    var s := run[i];
    forall id | id in s.txs && s.txs[id].phase == Closed
      ensures LinkTx(s.lock, id, s.txs[id]) && L.CallInv(s.lock.calls[id])
    {
    }
    if forall id :: id in s.lock.calls ==> CallOver(s, id) {
      NoneHeldIsFree(s.lock);
    }
  }
}
