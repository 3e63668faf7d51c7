/** Redis write transactions under the distributed lock, on one global clock. Reads go to the live database and
    writes are buffered until Exec. The lock has an owner token and expires by itself; the transaction's context
    ends at its deadline; a command batch is applied at most OFFSET after that deadline or never. */
module RedisTx {
  import opened Bodies
  import opened Wrappers

  /** lockExpiryOffset, in nanoseconds. */
  const OFFSET: nat := 5_000_000_000

  datatype Lease = Lease(owner: nat, expiry: int)

  datatype Phase =
    | Acquiring   // in txMutex.LockContext
    | Granted     // the server set the key, the client has not returned from LockContext
    | Running     // in the body
    | Sent        // in Exec
    | Closing     // about to call unlock
    | Closed

  /** `ttl` is the lock expiry computed before locking. `inFlight` says the batch may still be applied, `leased`
      that this call's token was granted and not taken back by it; `sent` that it got past the check before the commit.
      `grantedAt`, `sent`, `applied`, `place` are history. */
  datatype Tx = Tx(
    phase: Phase, started: int, deadline: int, ttl: int, cancelled: bool, history: History,
    leased: bool, grantedAt: nat, inFlight: bool, sent: bool, applied: bool, place: nat, acknowledged: bool)

  /** `commits` lists the calls whose batch the server has applied, in that order. */
  datatype Sys = Sys(now: int, lock: Option<Lease>, db: Db, txs: map<nat, Tx>, commits: seq<nat>)

  datatype Step =
    | Tick(to: int)
    | Start(deadline: int)
    | Grant               // the server sets the lock key for this call
    | GiveUp(undo: bool)  // LockContext fails; it may have deleted its own key again
    | Enter               // LockContext succeeds
    | Cancel              // the caller cancels the context before its deadline
    | Act(event: Event)
    | Discard             // the body failed, or the context ended before the commit
    | Send                // the context is alive at the check, the client goes into Exec
    | Applied             // the server executes the batch
    | ExecOk | ExecFails  // what the client learns
    | Unlock(ok: bool)    // the release reaches the server, or fails
    | SkipUnlock          // the deadline has passed: leave the lock to expire

  predicate Init(s: Sys, init: Db) {
    s.lock == None && s.db == init && s.txs == map[] && s.commits == []
  }

  predicate Alive(s: Sys, x: Tx) {
    !x.cancelled && s.now < x.deadline
  }

  predicate DeadlineExceeded(s: Sys, x: Tx) {
    !x.cancelled && s.now >= x.deadline
  }

  function Unlease(lock: Option<Lease>, id: nat): Option<Lease> {
    if lock.Some? && lock.value.owner == id then None else lock
  }

  predicate LockFree(s: Sys) {
    s.lock == None || s.now > s.lock.value.expiry
  }

  /** One call changes, and perhaps the lock. */
  predicate Updates(s: Sys, t: Sys, id: nat, x: Tx) {
    t == s.(lock := t.lock, txs := s.txs[id := x])
  }

  predicate Started(s: Sys, t: Sys, id: nat, deadline: int) {
    id !in s.txs && t.lock == s.lock &&
    Updates(s, t, id, Tx(Acquiring, s.now, deadline, deadline + OFFSET - s.now, false, [], false, 0, false, false, false, 0, false))
  }

  predicate GrantedTo(s: Sys, t: Sys, id: nat) {
    id in s.txs && s.txs[id].phase == Acquiring && LockFree(s) &&
    t.lock == Some(Lease(id, s.now + s.txs[id].ttl)) &&
    Updates(s, t, id, s.txs[id].(phase := Granted, leased := true, grantedAt := |s.commits|))
  }

  predicate GaveUp(s: Sys, t: Sys, id: nat, undo: bool) {
    id in s.txs && s.txs[id].phase in {Acquiring, Granted} &&
    t.lock == (if undo then Unlease(s.lock, id) else s.lock) &&
    Updates(s, t, id, s.txs[id].(phase := Closed, leased := s.txs[id].leased && !undo))
  }

  predicate Entered(s: Sys, t: Sys, id: nat) {
    id in s.txs && s.txs[id].phase == Granted && t.lock == s.lock && Updates(s, t, id, s.txs[id].(phase := Running))
  }

  predicate Cancelled(s: Sys, t: Sys, id: nat) {
    id in s.txs && Alive(s, s.txs[id]) && t.lock == s.lock && Updates(s, t, id, s.txs[id].(cancelled := true))
  }

  predicate Acted(s: Sys, t: Sys, body: Body, id: nat, e: Event) {
    id in s.txs && s.txs[id].phase == Running && EventFits(false, body, s.db, s.txs[id].history, e) &&
    t.lock == s.lock && Updates(s, t, id, s.txs[id].(history := s.txs[id].history + [e]))
  }

  predicate Discarded(s: Sys, t: Sys, body: Body, id: nat) {
    id in s.txs && s.txs[id].phase == Running && body(s.txs[id].history).Return? &&
    (body(s.txs[id].history) == Return(false) || !Alive(s, s.txs[id])) &&
    t.lock == s.lock && Updates(s, t, id, s.txs[id].(phase := Closing))
  }

  predicate SentOff(s: Sys, t: Sys, body: Body, id: nat) {
    id in s.txs && s.txs[id].phase == Running && body(s.txs[id].history) == Return(true) && Alive(s, s.txs[id]) &&
    t.lock == s.lock && Updates(s, t, id, s.txs[id].(phase := Sent, inFlight := true, sent := true))
  }

  /** The server may execute the batch long after the client has stopped waiting, but no later than OFFSET after the
      transaction's deadline. */
  predicate AppliedAt(s: Sys, t: Sys, id: nat) {
    id in s.txs && s.txs[id].inFlight && s.now <= s.txs[id].deadline + OFFSET &&
    t == s.(db := Apply(s.db, Writes(s.txs[id].history)), commits := s.commits + [id],
            txs := s.txs[id := s.txs[id].(inFlight := false, applied := true, place := |s.commits|)])
  }

  predicate ExecReturned(s: Sys, t: Sys, id: nat, ok: bool) {
    id in s.txs && s.txs[id].phase == Sent && (ok ==> s.txs[id].applied) &&
    t.lock == s.lock && Updates(s, t, id, s.txs[id].(phase := Closing, acknowledged := ok))
  }

  /** The release gets through only while the context is alive, and deletes the key only if it still carries this
      call's token; no batch is applied after it. */
  predicate UnlockedAt(s: Sys, t: Sys, id: nat, ok: bool) {
    id in s.txs && s.txs[id].phase == Closing && !DeadlineExceeded(s, s.txs[id]) && (ok ==> Alive(s, s.txs[id])) &&
    t.lock == (if ok then Unlease(s.lock, id) else s.lock) &&
    Updates(s, t, id, if ok then s.txs[id].(phase := Closed, leased := false, inFlight := false)
                      else s.txs[id].(phase := Closed))
  }

  predicate UnlockSkipped(s: Sys, t: Sys, id: nat) {
    id in s.txs && s.txs[id].phase == Closing && DeadlineExceeded(s, s.txs[id]) &&
    t.lock == s.lock && Updates(s, t, id, s.txs[id].(phase := Closed))
  }

  predicate Next(s: Sys, t: Sys, bodies: nat -> Body, id: nat, step: Step) {
    match step
    case Tick(to) => to > s.now && t == s.(now := to)
    case Start(deadline) => Started(s, t, id, deadline)
    case Grant => GrantedTo(s, t, id)
    case GiveUp(undo) => GaveUp(s, t, id, undo)
    case Enter => Entered(s, t, id)
    case Cancel => Cancelled(s, t, id)
    case Act(e) => Acted(s, t, bodies(id), id, e)
    case Discard => Discarded(s, t, bodies(id), id)
    case Send => SentOff(s, t, bodies(id), id)
    case Applied => AppliedAt(s, t, id)
    case ExecOk => ExecReturned(s, t, id, true)
    case ExecFails => ExecReturned(s, t, id, false)
    case Unlock(ok) => UnlockedAt(s, t, id, ok)
    case SkipUnlock => UnlockSkipped(s, t, id)
  }

  ghost predicate SomeStep(s: Sys, t: Sys, bodies: nat -> Body) {
    exists id, step :: Next(s, t, bodies, id, step)
  }

  ghost predicate StepAt(run: seq<Sys>, bodies: nat -> Body, k: int) {
    0 < k < |run| && SomeStep(run[k - 1], run[k], bodies)
  }

  ghost predicate IsRun(run: seq<Sys>, bodies: nat -> Body, init: Db) {
    run != [] && Init(run[0], init) && forall k :: 0 < k < |run| ==> StepAt(run, bodies, k)
  }

  // ---- Invariant ----

  function EffectOf(txs: map<nat, Tx>, id: nat): seq<Cmd> {
    if id in txs then Writes(txs[id].history) else []
  }

  /** The database after the first `n` commits, their bodies' buffers replayed one after the other. */
  function SerialDb(s: Sys, init: Db, n: nat): Db
    requires n <= |s.commits|
  {
    if n == 0 then init else Apply(SerialDb(s, init, n - 1), EffectOf(s.txs, s.commits[n - 1]))
  }

  /** The span in which nobody else can be granted the lock that this call holds. */
  predicate Protected(now: int, x: Tx) {
    x.leased && now <= x.deadline + OFFSET
  }

  /** While protected, the lock is this call's, and until its own commit nothing has been committed since. */
  predicate LeaseTx(now: int, lock: Option<Lease>, commits: nat, id: nat, x: Tx) {
    && x.started + x.ttl == x.deadline + OFFSET && x.started <= now
    && (Protected(now, x) ==> lock.Some? && lock.value.owner == id && lock.value.expiry >= x.deadline + OFFSET)
    && (Protected(now, x) && !x.applied ==> x.grantedAt == commits)
  }

  predicate PhaseTx(now: int, body: Body, x: Tx) {
    && (x.phase == Acquiring ==> !x.leased)
    && (x.phase in {Granted, Running, Sent, Closing} ==> x.leased)
    && (x.phase in {Acquiring, Granted} ==> x.history == [])
    && (x.phase in {Acquiring, Granted, Running} ==> !x.sent)
    && (x.inFlight || x.applied ==> x.sent)
    && (x.phase == Sent ==> x.inFlight || x.applied)
    && (x.sent ==> body(x.history) == Return(true))
    && (x.inFlight ==> x.leased && !x.applied)
    && (x.acknowledged ==> x.applied)
  }

  /** What the body saw is what it sees alone: for a protected call on today's database, for a batch in flight on
      the database of its grant, for a committed call on the database its predecessors left. */
  predicate ViewTx(s: Sys, body: Body, init: Db, id: nat, x: Tx) {
    && (Protected(s.now, x) && !x.applied ==> Alone(false, body, s.db, x.history))
    && (x.applied ==> x.place < |s.commits| && s.commits[x.place] == id && x.place == x.grantedAt &&
                      Alone(false, body, SerialDb(s, init, x.place), x.history))
  }

  ghost predicate Inv(s: Sys, bodies: nat -> Body, init: Db) {
    && (forall id :: id in s.txs ==> LeaseTx(s.now, s.lock, |s.commits|, id, s.txs[id]))
    && (forall id :: id in s.txs ==> PhaseTx(s.now, bodies(id), s.txs[id]))
    && (forall id :: id in s.txs ==> ViewTx(s, bodies(id), init, id, s.txs[id]))
    && (forall n: nat :: n < |s.commits| ==> CommitAt(s, n))
    && s.db == SerialDb(s, init, |s.commits|)
  }

  predicate CommitAt(s: Sys, n: nat) {
    n < |s.commits| && s.commits[n] in s.txs && s.txs[s.commits[n]].applied && s.txs[s.commits[n]].place == n
  }

  lemma {:induction false} SerialDbUnchanged(s: Sys, t: Sys, init: Db, n: nat)
    requires n <= |s.commits| && s.commits <= t.commits
    requires forall i :: 0 <= i < n ==> EffectOf(t.txs, s.commits[i]) == EffectOf(s.txs, s.commits[i])
    ensures SerialDb(t, init, n) == SerialDb(s, init, n)
  {
    if n > 0 {
      SerialDbUnchanged(s, t, init, n - 1);
      assert t.commits[n - 1] == s.commits[n - 1];
    }
  }

  lemma SerialDbsUnchanged(s: Sys, t: Sys, init: Db)
    requires s.commits <= t.commits
    requires forall i :: 0 <= i < |s.commits| ==> EffectOf(t.txs, s.commits[i]) == EffectOf(s.txs, s.commits[i])
    ensures forall n: nat :: n <= |s.commits| ==> SerialDb(t, init, n) == SerialDb(s, init, n)
  {
    forall n: nat | n <= |s.commits|
      ensures SerialDb(t, init, n) == SerialDb(s, init, n)
    {
      SerialDbUnchanged(s, t, init, n);
    }
  }

  // ---- Each step keeps the invariant ----

  lemma TickKeepsInv(s: Sys, t: Sys, bodies: nat -> Body, init: Db, to: int)
    requires Inv(s, bodies, init) && to > s.now && t == s.(now := to)
    ensures Inv(t, bodies, init)
  {
    SerialDbsUnchanged(s, t, init);
    forall id | id in t.txs
      ensures LeaseTx(t.now, t.lock, |t.commits|, id, t.txs[id]) && ViewTx(t, bodies(id), init, id, t.txs[id])
      ensures PhaseTx(t.now, bodies(id), t.txs[id])
    {
      assert LeaseTx(s.now, s.lock, |s.commits|, id, s.txs[id]) && ViewTx(s, bodies(id), init, id, s.txs[id]);
    }
    forall n: nat | n < |t.commits|
      ensures CommitAt(t, n)
    {
      assert CommitAt(s, n);
    }
  }

  /** Nobody else is protected while the lock can be granted, or is someone else's. */
  lemma OnlyOwnerIsProtected(s: Sys, bodies: nat -> Body, init: Db, id: nat)
    requires Inv(s, bodies, init) && id in s.txs && Protected(s.now, s.txs[id])
    ensures !LockFree(s)
    ensures forall x :: x in s.txs && x != id ==> !Protected(s.now, s.txs[x])
  {
    assert LeaseTx(s.now, s.lock, |s.commits|, id, s.txs[id]);
    forall x | x in s.txs && x != id
      ensures !Protected(s.now, s.txs[x])
    {
      assert LeaseTx(s.now, s.lock, |s.commits|, x, s.txs[x]);
    }
  }

  /** Calls that have committed keep their place and what they wrote. */
  predicate KeepsCommit(s: Sys, t: Sys, id: nat) {
    id in t.txs && t.commits == s.commits && t.txs == s.txs[id := t.txs[id]] &&
    if id in s.txs && s.txs[id].applied
    then t.txs[id].applied && t.txs[id].history == s.txs[id].history && t.txs[id].place == s.txs[id].place && t.txs[id].grantedAt == s.txs[id].grantedAt
    else !t.txs[id].applied
  }

  lemma OneCallKeepsCommits(s: Sys, t: Sys, init: Db, id: nat)
    requires KeepsCommit(s, t, id) && forall n: nat :: n < |s.commits| ==> CommitAt(s, n)
    ensures forall n: nat :: n < |s.commits| ==> CommitAt(t, n)
    ensures forall n: nat :: n <= |s.commits| ==> SerialDb(t, init, n) == SerialDb(s, init, n)
  {
    forall n: nat | n < |s.commits|
      ensures CommitAt(t, n) && EffectOf(t.txs, s.commits[n]) == EffectOf(s.txs, s.commits[n])
    {
      assert CommitAt(s, n);
    }
    SerialDbsUnchanged(s, t, init);
  }

  lemma OtherCallKeepsTx(s: Sys, t: Sys, body: Body, init: Db, x: nat)
    requires x in s.txs && x in t.txs && t.txs[x] == s.txs[x] && t.now == s.now && t.db == s.db && t.commits == s.commits
    requires t.lock == s.lock || !Protected(s.now, s.txs[x])
    requires forall n: nat :: n <= |s.commits| ==> SerialDb(t, init, n) == SerialDb(s, init, n)
    requires LeaseTx(s.now, s.lock, |s.commits|, x, s.txs[x]) && PhaseTx(s.now, body, s.txs[x]) && ViewTx(s, body, init, x, s.txs[x])
    ensures LeaseTx(t.now, t.lock, |t.commits|, x, t.txs[x]) && PhaseTx(t.now, body, t.txs[x]) && ViewTx(t, body, init, x, t.txs[x])
  {
  }

  /** A step of one call that leaves database and commit order alone. */
  lemma OneCallKeepsInv(s: Sys, t: Sys, bodies: nat -> Body, init: Db, id: nat)
    requires Inv(s, bodies, init) && id in t.txs && t == s.(lock := t.lock, txs := s.txs[id := t.txs[id]])
    requires t.lock == s.lock || forall x :: x in s.txs && x != id ==> !Protected(s.now, s.txs[x])
    requires LeaseTx(t.now, t.lock, |t.commits|, id, t.txs[id]) && PhaseTx(t.now, bodies(id), t.txs[id])
    requires KeepsCommit(s, t, id)
    requires !t.txs[id].applied && Protected(t.now, t.txs[id]) ==> Alone(false, bodies(id), t.db, t.txs[id].history)
    ensures Inv(t, bodies, init)
  {
    OneCallKeepsCommits(s, t, init, id);
    forall x | x in t.txs
      ensures LeaseTx(t.now, t.lock, |t.commits|, x, t.txs[x]) && ViewTx(t, bodies(x), init, x, t.txs[x])
      ensures PhaseTx(t.now, bodies(x), t.txs[x])
    {
      if x in s.txs {
        assert LeaseTx(s.now, s.lock, |s.commits|, x, s.txs[x]) && ViewTx(s, bodies(x), init, x, s.txs[x]);
      }
      if x != id {
        OtherCallKeepsTx(s, t, bodies(x), init, x);
      }
    }
  }

  lemma AcquisitionKeepsInv(s: Sys, t: Sys, bodies: nat -> Body, init: Db, id: nat, step: Step)
    requires Inv(s, bodies, init) && Next(s, t, bodies, id, step)
    requires step.Start? || step.Grant? || step.GiveUp? || step.Enter? || step.Cancel?
    ensures Inv(t, bodies, init)
  {
    if id in s.txs {
      assert LeaseTx(s.now, s.lock, |s.commits|, id, s.txs[id]) && ViewTx(s, bodies(id), init, id, s.txs[id]);
    }
    if t.lock != s.lock {
      forall x | x in s.txs && x != id
        ensures !Protected(s.now, s.txs[x])
      {
        assert LeaseTx(s.now, s.lock, |s.commits|, x, s.txs[x]);
      }
    }
    OneCallKeepsInv(s, t, bodies, init, id);
  }

  lemma ActKeepsInv(s: Sys, t: Sys, bodies: nat -> Body, init: Db, id: nat, e: Event)
    requires Inv(s, bodies, init) && Acted(s, t, bodies(id), id, e)
    ensures Inv(t, bodies, init)
  {
    var x := s.txs[id];
    assert LeaseTx(s.now, s.lock, |s.commits|, id, x) && ViewTx(s, bodies(id), init, id, x);
    if Protected(s.now, x) {
      AloneExtends(false, bodies(id), s.db, x.history, e);
    }
    OneCallKeepsInv(s, t, bodies, init, id);
  }

  predicate IsClosing(step: Step) {
    step.Discard? || step.Send? || step.ExecOk? || step.ExecFails? || step.Unlock? || step.SkipUnlock?
  }

  /** What such a step does to its own call. */
  lemma ClosingCall(s: Sys, t: Sys, bodies: nat -> Body, init: Db, id: nat, step: Step)
    requires Next(s, t, bodies, id, step) && IsClosing(step) && id in s.txs
    requires LeaseTx(s.now, s.lock, |s.commits|, id, s.txs[id]) && PhaseTx(s.now, bodies(id), s.txs[id]) && ViewTx(s, bodies(id), init, id, s.txs[id])
    ensures id in t.txs && t == s.(lock := t.lock, txs := s.txs[id := t.txs[id]]) && KeepsCommit(s, t, id)
    ensures t.lock != s.lock ==> s.lock.Some? && s.lock.value.owner == id
    ensures LeaseTx(t.now, t.lock, |t.commits|, id, t.txs[id]) && PhaseTx(t.now, bodies(id), t.txs[id])
    ensures !t.txs[id].applied && Protected(t.now, t.txs[id]) ==> Alone(false, bodies(id), t.db, t.txs[id].history)
  {
  }

  lemma ClosingKeepsInv(s: Sys, t: Sys, bodies: nat -> Body, init: Db, id: nat, step: Step)
    requires Inv(s, bodies, init) && Next(s, t, bodies, id, step) && IsClosing(step)
    ensures Inv(t, bodies, init)
  {
    assert LeaseTx(s.now, s.lock, |s.commits|, id, s.txs[id]) && ViewTx(s, bodies(id), init, id, s.txs[id]);
    assert PhaseTx(s.now, bodies(id), s.txs[id]);
    ClosingCall(s, t, bodies, init, id, step);
    if t.lock != s.lock {
      forall x | x in s.txs && x != id
        ensures !Protected(s.now, s.txs[x])
      {
        assert LeaseTx(s.now, s.lock, |s.commits|, x, s.txs[x]);
      }
    }
    OneCallKeepsInv(s, t, bodies, init, id);
  }

  /** The heart of the protocol: when the server applies a batch, the lock is still this call's. */
  lemma BatchIsProtected(s: Sys, bodies: nat -> Body, init: Db, id: nat)
    requires Inv(s, bodies, init) && id in s.txs && s.txs[id].inFlight && s.now <= s.txs[id].deadline + OFFSET
    ensures Protected(s.now, s.txs[id]) && s.txs[id].grantedAt == |s.commits|
    ensures s.lock.Some? && s.lock.value.owner == id
    ensures bodies(id)(s.txs[id].history) == Return(true) && Alone(false, bodies(id), s.db, s.txs[id].history)
  {
    assert LeaseTx(s.now, s.lock, |s.commits|, id, s.txs[id]) && ViewTx(s, bodies(id), init, id, s.txs[id]);
    assert PhaseTx(s.now, bodies(id), s.txs[id]);
  }

  /** The call that is applied was not committed before, so the databases of the earlier commits stay. */
  lemma ApplyKeepsOrder(s: Sys, t: Sys, id: nat)
    requires AppliedAt(s, t, id) && !s.txs[id].applied && forall n: nat :: n < |s.commits| ==> CommitAt(s, n)
    ensures forall n: nat :: n < |t.commits| ==> CommitAt(t, n)
    ensures forall n :: 0 <= n < |s.commits| ==> EffectOf(t.txs, s.commits[n]) == EffectOf(s.txs, s.commits[n])
  {
    forall n: nat | n < |t.commits|
      ensures CommitAt(t, n) && (n < |s.commits| ==> t.commits[n] == s.commits[n] != id)
    {
      if n < |s.commits| {
        assert CommitAt(s, n);
      }
    }
  }

  lemma ApplyKeepsCommits(s: Sys, t: Sys, init: Db, id: nat)
    requires AppliedAt(s, t, id) && !s.txs[id].applied
    requires (forall n: nat :: n < |s.commits| ==> CommitAt(s, n)) && s.db == SerialDb(s, init, |s.commits|)
    ensures forall n: nat :: n < |t.commits| ==> CommitAt(t, n)
    ensures forall n: nat :: n <= |s.commits| ==> SerialDb(t, init, n) == SerialDb(s, init, n)
    ensures t.db == SerialDb(t, init, |t.commits|)
  {
    ApplyKeepsOrder(s, t, id);
    SerialDbsUnchanged(s, t, init);
    var last := |s.commits|;
    assert t.commits[last] == id;
    assert SerialDb(t, init, last + 1) == Apply(SerialDb(t, init, last), EffectOf(t.txs, id));
  }

  lemma ApplyKeepsInv(s: Sys, t: Sys, bodies: nat -> Body, init: Db, id: nat)
    requires Inv(s, bodies, init) && AppliedAt(s, t, id)
    ensures Inv(t, bodies, init)
  {
    BatchIsProtected(s, bodies, init, id);
    OnlyOwnerIsProtected(s, bodies, init, id);
    assert PhaseTx(s.now, bodies(id), s.txs[id]);
    ApplyKeepsCommits(s, t, init, id);
    forall x | x in t.txs
      ensures LeaseTx(t.now, t.lock, |t.commits|, x, t.txs[x]) && PhaseTx(t.now, bodies(x), t.txs[x])
    {
      assert LeaseTx(s.now, s.lock, |s.commits|, x, s.txs[x]) && PhaseTx(s.now, bodies(x), s.txs[x]);
    }
    forall x | x in t.txs
      ensures ViewTx(t, bodies(x), init, x, t.txs[x])
    {
      assert ViewTx(s, bodies(x), init, x, s.txs[x]);
    }
  }

  lemma {:induction false} RunKeepsInv(run: seq<Sys>, bodies: nat -> Body, init: Db, i: nat)
    requires IsRun(run, bodies, init) && i < |run|
    ensures Inv(run[i], bodies, init)
  {
    if i > 0 {
      RunKeepsInv(run, bodies, init, i - 1);
      var s, t := run[i - 1], run[i];
      assert StepAt(run, bodies, i);
      var id, step :| Next(s, t, bodies, id, step);
      match step
      case Tick(to) => TickKeepsInv(s, t, bodies, init, to);
      case Start(_) => AcquisitionKeepsInv(s, t, bodies, init, id, step);
      case Grant => AcquisitionKeepsInv(s, t, bodies, init, id, step);
      case GiveUp(_) => AcquisitionKeepsInv(s, t, bodies, init, id, step);
      case Enter => AcquisitionKeepsInv(s, t, bodies, init, id, step);
      case Cancel => AcquisitionKeepsInv(s, t, bodies, init, id, step);
      case Act(e) => ActKeepsInv(s, t, bodies, init, id, e);
      case Applied => ApplyKeepsInv(s, t, bodies, init, id);
      case Discard => ClosingKeepsInv(s, t, bodies, init, id, step);
      case Send => ClosingKeepsInv(s, t, bodies, init, id, step);
      case ExecOk => ClosingKeepsInv(s, t, bodies, init, id, step);
      case ExecFails => ClosingKeepsInv(s, t, bodies, init, id, step);
      case Unlock(_) => ClosingKeepsInv(s, t, bodies, init, id, step);
      case SkipUnlock => ClosingKeepsInv(s, t, bodies, init, id, step);
    }
  }

  // ---- Main results ----

  /** Commits are serialisable in commit order: the database is the one left by replaying the committed bodies one
      at a time, each committed body has seen exactly what it sees alone on its predecessors' database, it returned
      success, it is committed once, and nothing was committed between its lock grant and its own commit. */
  lemma Serialisable(run: seq<Sys>, bodies: nat -> Body, init: Db, i: nat)
    requires IsRun(run, bodies, init) && i < |run|
    ensures run[i].db == SerialDb(run[i], init, |run[i].commits|)
    ensures forall n: nat :: n < |run[i].commits| ==> CommittedAlone(run[i], bodies, init, n)
    ensures forall m, n :: 0 <= m < n < |run[i].commits| ==> run[i].commits[m] != run[i].commits[n]
  {
    RunKeepsInv(run, bodies, init, i);
    var s := run[i];
    forall n: nat | n < |s.commits|
      ensures CommittedAlone(s, bodies, init, n)
    {
      assert CommitAt(s, n);
      var id := s.commits[n];
      assert PhaseTx(s.now, bodies(id), s.txs[id]) && ViewTx(s, bodies(id), init, id, s.txs[id]);
    }
    forall m, n | 0 <= m < n < |s.commits|
      ensures s.commits[m] != s.commits[n]
    {
      assert CommitAt(s, m) && CommitAt(s, n);
    }
  }

  predicate CommittedAlone(s: Sys, bodies: nat -> Body, init: Db, n: nat) {
    n < |s.commits| && s.commits[n] in s.txs &&
    (var x := s.txs[s.commits[n]];
     && x.grantedAt == n
     && bodies(s.commits[n])(x.history) == Return(true)
     && Alone(false, bodies(s.commits[n]), SerialDb(s, init, n), x.history))
  }

  /** Success means committed, and only calls whose body succeeded and whose context was alive after it commit. */
  lemma AcknowledgedIsCommitted(run: seq<Sys>, bodies: nat -> Body, init: Db, i: nat, id: nat)
    requires IsRun(run, bodies, init) && i < |run| && id in run[i].txs
    ensures run[i].txs[id].acknowledged ==> id in run[i].commits
    ensures id in run[i].commits ==> run[i].txs[id].sent && bodies(id)(run[i].txs[id].history) == Return(true)
  {
    RunKeepsInv(run, bodies, init, i);
    var s := run[i];
    assert PhaseTx(s.now, bodies(id), s.txs[id]) && ViewTx(s, bodies(id), init, id, s.txs[id]);
    if id in s.commits {
      var n :| 0 <= n < |s.commits| && s.commits[n] == id;
      assert CommitAt(s, n);
    }
  }
}
