/** What the timed Redis protocol comes to over whole runs: what is lost, what commits and in which order, what a
    commit does and its body saw, when the lock is given back, and what a failed Exec may still do. */
module RedisRuns {
  import opened Bodies
  import opened RedisTx
  import opened Runs
  import opened Wrappers

  /** A call that has ended without going into Exec, or that can no longer go there: its body has failed, or its
      context has ended too early. */
  predicate Lost(s: Sys, body: Body, x: Tx) {
    || (x.phase in {Closing, Closed} && !x.sent)
    || (x.phase == Running && body(x.history) == Return(false))
    || (x.phase in {Acquiring, Granted, Running} && !Alive(s, x))
  }

  lemma LostStep(s: Sys, t: Sys, bodies: nat -> Body, other: nat, step: Step, id: nat)
    requires Next(s, t, bodies, other, step) && id in s.txs && PhaseTx(s.now, bodies(id), s.txs[id])
    requires Lost(s, bodies(id), s.txs[id])
    ensures id in t.txs && Lost(t, bodies(id), t.txs[id])
  {
  }

  lemma PhaseHolds(run: seq<Sys>, bodies: nat -> Body, init: Db, i: nat, id: nat)
    requires IsRun(run, bodies, init) && i < |run| && id in run[i].txs
    ensures PhaseTx(run[i].now, bodies(id), run[i].txs[id])
  {
    RunKeepsInv(run, bodies, init, i);
  }

  lemma LostStays(run: seq<Sys>, bodies: nat -> Body, init: Db, i: nat, j: nat, id: nat)
    requires IsRun(run, bodies, init) && i <= j < |run| && id in run[i].txs && Lost(run[i], bodies(id), run[i].txs[id])
    ensures id in run[j].txs && Lost(run[j], bodies(id), run[j].txs[id])
  {
    var lost := (s: Sys) => id in s.txs && Lost(s, bodies(id), s.txs[id]);
    forall k | i < k <= j && lost(run[k - 1])
      ensures lost(run[k])
    {
      PhaseHolds(run, bodies, init, k - 1, id);
      var other, step := StepOf(run, bodies, init, k);
      LostStep(run[k - 1], run[k], bodies, other, step, id);
    }
    Persists(run, lost, i, j);
  }

  lemma LostIsUnsent(s: Sys, body: Body, x: Tx)
    requires PhaseTx(s.now, body, x) && Lost(s, body, x)
    ensures !x.sent
  {
  }

  /** What a call discards is never applied, and what it must discard neither, however long the run goes on. */
  lemma DiscardedStaysOut(run: seq<Sys>, bodies: nat -> Body, init: Db, i: nat, j: nat, id: nat)
    requires IsRun(run, bodies, init) && i <= j < |run| && id in run[i].txs && Lost(run[i], bodies(id), run[i].txs[id])
    ensures id in run[j].txs && !run[j].txs[id].sent && id !in run[j].commits
  {
    LostStays(run, bodies, init, i, j, id);
    PhaseHolds(run, bodies, init, j, id);
    LostIsUnsent(run[j], bodies(id), run[j].txs[id]);
    AcknowledgedIsCommitted(run, bodies, init, j, id);
  }

  // ---- The order of commits ----

  lemma StepOf(run: seq<Sys>, bodies: nat -> Body, init: Db, k: nat) returns (id: nat, step: Step)
    requires IsRun(run, bodies, init) && 0 < k < |run|
    ensures Next(run[k - 1], run[k], bodies, id, step)
  {
    assert StepAt(run, bodies, k);
    id, step :| Next(run[k - 1], run[k], bodies, id, step);
  }

  /** From its grant on, a call's deadline and place in line are fixed, and commits are only appended. */
  lemma GrantStep(s: Sys, t: Sys, bodies: nat -> Body, other: nat, step: Step, id: nat)
    requires Next(s, t, bodies, other, step)
    ensures s.commits <= t.commits && s.now <= t.now
    ensures id in s.txs ==> id in t.txs && t.txs[id].deadline == s.txs[id].deadline
    ensures id in s.txs && s.txs[id].phase != Acquiring ==> t.txs[id].phase != Acquiring && t.txs[id].grantedAt == s.txs[id].grantedAt
    ensures id in t.txs && (id in s.txs ==> s.txs[id].grantedAt <= |s.commits|) ==> t.txs[id].grantedAt <= |t.commits|
  {
  }

  lemma CommitsGrow(run: seq<Sys>, bodies: nat -> Body, init: Db, i: nat, j: nat)
    requires IsRun(run, bodies, init) && i <= j < |run|
    ensures run[i].commits <= run[j].commits
  {
    var commits := run[i].commits;
    var grown := (s: Sys) => commits <= s.commits;
    forall k | i < k <= j && grown(run[k - 1])
      ensures grown(run[k])
    {
      var other, step := StepOf(run, bodies, init, k);
      GrantStep(run[k - 1], run[k], bodies, other, step, other);
    }
    Persists(run, grown, i, j);
  }

  lemma GrantStays(run: seq<Sys>, bodies: nat -> Body, init: Db, i: nat, j: nat, id: nat)
    requires IsRun(run, bodies, init) && i <= j < |run| && id in run[i].txs && run[i].txs[id].phase != Acquiring
    ensures id in run[j].txs && run[j].txs[id].phase != Acquiring && run[j].txs[id].grantedAt == run[i].txs[id].grantedAt
  {
    var place := run[i].txs[id].grantedAt;
    var granted := (s: Sys) => id in s.txs && s.txs[id].phase != Acquiring && s.txs[id].grantedAt == place;
    forall k | i < k <= j && granted(run[k - 1])
      ensures granted(run[k])
    {
      var other, step := StepOf(run, bodies, init, k);
      GrantStep(run[k - 1], run[k], bodies, other, step, id);
    }
    Persists(run, granted, i, j);
  }

  lemma GrantIsPast(run: seq<Sys>, bodies: nat -> Body, init: Db, i: nat, id: nat)
    requires IsRun(run, bodies, init) && i < |run| && id in run[i].txs
    ensures run[i].txs[id].grantedAt <= |run[i].commits|
  {
    var past := (s: Sys) => id in s.txs ==> s.txs[id].grantedAt <= |s.commits|;
    forall k | 0 < k <= i && past(run[k - 1])
      ensures past(run[k])
    {
      var other, step := StepOf(run, bodies, init, k);
      GrantStep(run[k - 1], run[k], bodies, other, step, id);
    }
    Persists(run, past, 0, i);
  }

  /** The commit order respects real time: a call that was granted the lock before another one started precedes it,
      even if its batch was applied after it had closed. */
  lemma CommitsAreRealTime(run: seq<Sys>, bodies: nat -> Body, init: Db, i: nat, j: nat, a: nat, b: nat, m: nat, n: nat)
    requires IsRun(run, bodies, init) && i <= j < |run|
    requires a in run[i].txs && run[i].txs[a].phase != Acquiring && b !in run[i].txs
    requires m < |run[j].commits| && n < |run[j].commits| && run[j].commits[m] == a && run[j].commits[n] == b
    ensures m < n
  {
    CommitsGrow(run, bodies, init, i, j);
    GrantStays(run, bodies, init, i, j, a);
    GrantIsPast(run, bodies, init, i, a);
    Serialisable(run, bodies, init, j);
    assert CommittedAlone(run[j], bodies, init, m);
    CommittedHaveStarted(run, bodies, init, i);
    assert a != b;
  }

  lemma CommittedHaveStarted(run: seq<Sys>, bodies: nat -> Body, init: Db, i: nat)
    requires IsRun(run, bodies, init) && i < |run|
    ensures forall n :: 0 <= n < |run[i].commits| ==> run[i].commits[n] in run[i].txs
  {
    RunKeepsInv(run, bodies, init, i);
    forall n: nat | n < |run[i].commits|
      ensures run[i].commits[n] in run[i].txs
    {
      assert CommitAt(run[i], n);
    }
  }

  // ---- What a commit does, and what its body saw, in terms of the databases of the run ----

  /** Every step leaves the database alone, or commits one call and carries out that call's history on it. */
  lemma CommitLands(run: seq<Sys>, bodies: nat -> Body, init: Db, k: nat)
    requires IsRun(run, bodies, init) && 0 < k < |run|
    ensures run[k].commits == run[k - 1].commits ==> run[k].db == run[k - 1].db
    ensures run[k].commits != run[k - 1].commits ==>
      |run[k].commits| == |run[k - 1].commits| + 1 &&
      (var id := run[k].commits[|run[k - 1].commits|];
       id in run[k].txs && Lands(run[k - 1].db, run[k].txs[id].history, run[k].db))
  {
    var id, step := StepOf(run, bodies, init, k);
    if step.Applied? {
      WritesLand(run[k - 1].db, run[k - 1].txs[id].history);
    }
  }

  lemma SerialDbStays(s: Sys, t: Sys, bodies: nat -> Body, init: Db, id: nat, step: Step, n: nat)
    requires Inv(s, bodies, init) && Next(s, t, bodies, id, step) && n <= |s.commits|
    ensures n <= |t.commits| && SerialDb(t, init, n) == SerialDb(s, init, n)
  {
    GrantStep(s, t, bodies, id, step, id);
    forall m | 0 <= m < n
      ensures EffectOf(t.txs, s.commits[m]) == EffectOf(s.txs, s.commits[m])
    {
      assert CommitAt(s, m);
      AppliedKeepsHistory(s, t, bodies, id, step, s.commits[m]);
    }
    SerialDbUnchanged(s, t, init, n);
  }

  lemma AppliedKeepsHistory(s: Sys, t: Sys, bodies: nat -> Body, id: nat, step: Step, x: nat)
    requires Next(s, t, bodies, id, step) && x in s.txs && s.txs[x].applied && PhaseTx(s.now, bodies(x), s.txs[x])
    ensures x in t.txs && t.txs[x].history == s.txs[x].history
  {
  }

  lemma CurrentDb(run: seq<Sys>, bodies: nat -> Body, init: Db, i: nat)
    requires IsRun(run, bodies, init) && i < |run|
    ensures SerialDb(run[i], init, |run[i].commits|) == run[i].db
  {
    RunKeepsInv(run, bodies, init, i);
  }

  lemma SerialDbStep(run: seq<Sys>, bodies: nat -> Body, init: Db, k: nat, n: nat)
    requires IsRun(run, bodies, init) && 0 < k < |run| && n <= |run[k - 1].commits|
    ensures n <= |run[k].commits| && SerialDb(run[k], init, n) == SerialDb(run[k - 1], init, n)
  {
    RunKeepsInv(run, bodies, init, k - 1);
    var id, step := StepOf(run, bodies, init, k);
    SerialDbStays(run[k - 1], run[k], bodies, init, id, step, n);
  }

  ghost predicate HasSerialDb(s: Sys, init: Db, n: nat, db: Db) {
    n <= |s.commits| && SerialDb(s, init, n) == db
  }

  lemma SerialDbFrom(run: seq<Sys>, bodies: nat -> Body, init: Db, i: nat, j: nat)
    requires IsRun(run, bodies, init) && i <= j < |run|
    ensures HasSerialDb(run[j], init, |run[i].commits|, run[i].db)
  {
    var n, db := |run[i].commits|, run[i].db;
    var same := (s: Sys) => HasSerialDb(s, init, n, db);
    CurrentDb(run, bodies, init, i);
    forall k | i < k <= j && same(run[k - 1])
      ensures same(run[k])
    {
      SerialDbStep(run, bodies, init, k, n);
    }
    Persists(run, same, i, j);
  }

  /** A call goes into Exec only while its context is alive: before its deadline and not cancelled. */
  lemma SentInTime(run: seq<Sys>, bodies: nat -> Body, init: Db, k: nat, id: nat)
    requires IsRun(run, bodies, init) && 0 < k < |run| && id in run[k].txs && run[k].txs[id].sent
    requires id in run[k - 1].txs ==> !run[k - 1].txs[id].sent
    ensures id in run[k - 1].txs && run[k - 1].now < run[k - 1].txs[id].deadline && !run[k - 1].txs[id].cancelled
    ensures bodies(id)(run[k - 1].txs[id].history) == Return(true)
  {
    var other, step := StepOf(run, bodies, init, k);
    SendStep(run[k - 1], run[k], bodies, other, step, id);
  }

  lemma SendStep(s: Sys, t: Sys, bodies: nat -> Body, other: nat, step: Step, id: nat)
    requires Next(s, t, bodies, other, step) && id in t.txs && t.txs[id].sent && (id in s.txs ==> !s.txs[id].sent)
    ensures id in s.txs && s.now < s.txs[id].deadline && !s.txs[id].cancelled && bodies(id)(s.txs[id].history) == Return(true)
  {
  }

  /** A committed body has read the database as it was when the server granted it the lock, and none of its own writes. */
  lemma CommittedReads(run: seq<Sys>, bodies: nat -> Body, init: Db, i: nat, j: nat, id: nat)
    requires IsRun(run, bodies, init) && 0 < i <= j < |run| && GrantedTo(run[i - 1], run[i], id) && id in run[j].commits
    ensures id in run[j].txs && ReadsFit(false, run[i].db, run[j].txs[id].history)
    ensures FollowsBody(bodies(id), run[j].txs[id].history) && bodies(id)(run[j].txs[id].history) == Return(true)
  {
    var n: nat :| n < |run[j].commits| && run[j].commits[n] == id;
    Serialisable(run, bodies, init, j);
    assert CommittedAlone(run[j], bodies, init, n);
    GrantStays(run, bodies, init, i, j, id);
    SerialDbFrom(run, bodies, init, i, j);
    AloneReads(false, bodies(id), run[i].db, run[j].txs[id].history);
    AloneFollowsBody(false, bodies(id), run[i].db, run[j].txs[id].history);
  }

  // ---- The release ----

  /** A release that gets through: sent while the context is alive, and carried out. */
  predicate Released(s: Sys, t: Sys, id: nat) {
    UnlockedAt(s, t, id, true)
  }

  lemma ReleasedInTime(s: Sys, t: Sys, id: nat)
    requires Released(s, t, id)
    ensures s.now < s.txs[id].deadline && !s.txs[id].cancelled && s.txs[id].phase == Closing
    ensures t.lock == if s.lock.Some? && s.lock.value.owner == id then None else s.lock
  {
  }

  predicate HasEntered(x: Tx) {
    x.phase in {Running, Sent, Closing, Closed}
  }

  lemma LeaseStep(s: Sys, t: Sys, bodies: nat -> Body, other: nat, step: Step, id: nat)
    requires Next(s, t, bodies, other, step) && id in s.txs && HasEntered(s.txs[id]) && (s.txs[id].phase != Closed ==> s.txs[id].leased)
    ensures id in t.txs && HasEntered(t.txs[id]) && t.txs[id].deadline == s.txs[id].deadline
    ensures t.txs[id].leased == (s.txs[id].leased && !Released(s, t, id))
    ensures s.txs[id].phase == Closed ==> t.txs[id].phase == Closed && t.txs[id].leased == s.txs[id].leased
  {
  }

  lemma EnteredStep(run: seq<Sys>, bodies: nat -> Body, init: Db, k: nat, id: nat)
    requires IsRun(run, bodies, init) && 0 < k < |run| && id in run[k - 1].txs && HasEntered(run[k - 1].txs[id])
    ensures id in run[k].txs && HasEntered(run[k].txs[id])
    ensures run[k].txs[id].leased == (run[k - 1].txs[id].leased && !Released(run[k - 1], run[k], id))
  {
    PhaseHolds(run, bodies, init, k - 1, id);
    var other, step := StepOf(run, bodies, init, k);
    LeaseStep(run[k - 1], run[k], bodies, other, step, id);
  }

  /** Once a call has been in its body, the lock is given back iff a release has got through. */
  lemma GivenBackIff(run: seq<Sys>, bodies: nat -> Body, init: Db, i: nat, j: nat, id: nat)
    requires IsRun(run, bodies, init) && i <= j < |run| && id in run[i].txs && run[i].txs[id].phase == Running
    ensures id in run[j].txs && (!run[j].txs[id].leased <==> exists k :: i < k <= j && Released(run[k - 1], run[k], id))
  {
    var entered := (s: Sys) => id in s.txs && HasEntered(s.txs[id]);
    var leased := (s: Sys) => id in s.txs && s.txs[id].leased;
    var released := (s: Sys, t: Sys) => Released(s, t, id);
    forall k | i < k <= j && entered(run[k - 1])
      ensures entered(run[k]) && leased(run[k]) == (leased(run[k - 1]) && !released(run[k - 1], run[k]))
    {
      EnteredStep(run, bodies, init, k, id);
    }
    PhaseHolds(run, bodies, init, i, id);
    PersistsUpTo(run, entered, i, j);
    FallsIff(run, leased, released, i, j);
    assert (exists k :: i < k <= j && Released(run[k - 1], run[k], id)) <==> (exists k :: i < k <= j && released(run[k - 1], run[k]));
  }

  lemma LeaseStays(run: seq<Sys>, bodies: nat -> Body, init: Db, i: nat, j: nat, id: nat)
    requires IsRun(run, bodies, init) && i <= j < |run| && id in run[i].txs && run[i].txs[id].phase == Closed
    ensures id in run[j].txs && run[j].txs[id].phase == Closed
    ensures run[j].txs[id].leased == run[i].txs[id].leased && run[j].txs[id].deadline == run[i].txs[id].deadline
  {
    var x := run[i].txs[id];
    var same := (s: Sys) => id in s.txs && s.txs[id].phase == Closed && s.txs[id].leased == x.leased && s.txs[id].deadline == x.deadline;
    forall k | i < k <= j && same(run[k - 1])
      ensures same(run[k])
    {
      var other, step := StepOf(run, bodies, init, k);
      LeaseStep(run[k - 1], run[k], bodies, other, step, id);
    }
    Persists(run, same, i, j);
  }

  /** A closed call that has not given the lock back keeps everybody else out up to its deadline plus OFFSET. */
  lemma LeftLockKeepsOthersOut(run: seq<Sys>, bodies: nat -> Body, init: Db, i: nat, j: nat, id: nat)
    requires IsRun(run, bodies, init) && i <= j < |run| && id in run[i].txs && run[i].txs[id].phase == Closed && run[i].txs[id].leased
    requires run[j].now <= run[i].txs[id].deadline + OFFSET
    ensures !LockFree(run[j]) && run[j].lock.value.owner == id
  {
    LeaseStays(run, bodies, init, i, j, id);
    RunKeepsInv(run, bodies, init, j);
    OnlyOwnerIsProtected(run[j], bodies, init, id);
    assert LeaseTx(run[j].now, run[j].lock, |run[j].commits|, id, run[j].txs[id]);
  }

  // ---- Exec that fails ----

  predicate InWindow(s: Sys, id: nat) {
    id in s.txs && s.txs[id].inFlight && s.now <= s.txs[id].deadline + OFFSET
  }

  function Applying(s: Sys, id: nat): Sys
    requires id in s.txs
  {
    s.(db := Apply(s.db, Writes(s.txs[id].history)), commits := s.commits + [id],
       txs := s.txs[id := s.txs[id].(inFlight := false, applied := true, place := |s.commits|)])
  }

  lemma ExtendRun(run: seq<Sys>, bodies: nat -> Body, init: Db, t: Sys, id: nat, step: Step)
    requires IsRun(run, bodies, init) && Next(run[|run| - 1], t, bodies, id, step)
    ensures IsRun(run + [t], bodies, init)
  {
    assert SomeStep(run[|run| - 1], t, bodies);
    forall i | 0 < i < |run + [t]|
      ensures StepAt(run + [t], bodies, i)
    {
      if i < |run| {
        assert StepAt(run, bodies, i);
      }
    }
  }

  /** From every reachable state in which the client waits for Exec and the window is open: Exec fails, and the batch
      is committed all the same. */
  lemma FailedExecCommits(run: seq<Sys>, bodies: nat -> Body, init: Db, id: nat) returns (longer: seq<Sys>)
    requires IsRun(run, bodies, init) && InWindow(run[|run| - 1], id) && run[|run| - 1].txs[id].phase == Sent
    ensures |longer| == |run| + 2 && run <= longer && IsRun(longer, bodies, init)
    ensures var last := longer[|run| + 1];
      id in last.commits && id in last.txs && last.txs[id].phase == Closing && !last.txs[id].acknowledged
  {
    var s := run[|run| - 1];
    var t := s.(txs := s.txs[id := s.txs[id].(phase := Closing, acknowledged := false)]);
    assert ExecReturned(s, t, id, false);
    ExtendRun(run, bodies, init, t, id, ExecFails);
    assert AppliedAt(t, Applying(t, id), id);
    ExtendRun(run + [t], bodies, init, Applying(t, id), id, Applied);
    longer := run + [t] + [Applying(t, id)];
    assert id == Applying(t, id).commits[|t.commits|];
  }

  /** A batch that was sent, was not applied, and has lost its chance: released, or too late. */
  predicate Missed(s: Sys, x: Tx) {
    x.sent && !x.applied && x.phase in {Sent, Closing, Closed} && (!x.inFlight || s.now > x.deadline + OFFSET)
  }

  lemma MissedStep(s: Sys, t: Sys, bodies: nat -> Body, other: nat, step: Step, id: nat)
    requires Next(s, t, bodies, other, step) && id in s.txs && Missed(s, s.txs[id])
    ensures id in t.txs && Missed(t, t.txs[id])
  {
  }

  lemma MissedStaysOut(run: seq<Sys>, bodies: nat -> Body, init: Db, i: nat, j: nat, id: nat)
    requires IsRun(run, bodies, init) && i <= j < |run| && id in run[i].txs && Missed(run[i], run[i].txs[id])
    ensures id in run[j].txs && Missed(run[j], run[j].txs[id]) && id !in run[j].commits
  {
    var missed := (s: Sys) => id in s.txs && Missed(s, s.txs[id]);
    forall k | i < k <= j && missed(run[k - 1])
      ensures missed(run[k])
    {
      var other, step := StepOf(run, bodies, init, k);
      MissedStep(run[k - 1], run[k], bodies, other, step, id);
    }
    Persists(run, missed, i, j);
    AppliedIsCommitted(run, bodies, init, j, id);
  }

  lemma AppliedIsCommitted(run: seq<Sys>, bodies: nat -> Body, init: Db, i: nat, id: nat)
    requires IsRun(run, bodies, init) && i < |run| && id in run[i].txs
    ensures run[i].txs[id].applied <==> id in run[i].commits
  {
    RunKeepsInv(run, bodies, init, i);
    var s := run[i];
    assert ViewTx(s, bodies(id), init, id, s.txs[id]);
    if id in s.commits {
      var n :| 0 <= n < |s.commits| && s.commits[n] == id;
      assert CommitAt(s, n);
    }
  }

  /** Some continuation of the run commits the call. */
  ghost predicate CanCommit(run: seq<Sys>, bodies: nat -> Body, init: Db, id: nat) {
    exists longer: seq<Sys> :: run <= longer && IsRun(longer, bodies, init) && id in longer[|longer| - 1].commits
  }

  /** A batch that was sent and not yet applied can still commit iff the lock has not been given back and the window
      up to the deadline plus OFFSET is open. */
  lemma CanCommitIff(run: seq<Sys>, bodies: nat -> Body, init: Db, id: nat)
    requires IsRun(run, bodies, init) && id in run[|run| - 1].txs && run[|run| - 1].txs[id].sent && id !in run[|run| - 1].commits
    ensures CanCommit(run, bodies, init, id) <==> InWindow(run[|run| - 1], id)
  {
    var s, last := run[|run| - 1], |run| - 1;
    AppliedIsCommitted(run, bodies, init, last, id);
    RunKeepsInv(run, bodies, init, last);
    assert PhaseTx(s.now, bodies(id), s.txs[id]);
    if InWindow(s, id) {
      assert AppliedAt(s, Applying(s, id), id);
      ExtendRun(run, bodies, init, Applying(s, id), id, Applied);
      var longer := run + [Applying(s, id)];
      assert Applying(s, id).commits[|s.commits|] == id;
      assert run <= longer && id in longer[|longer| - 1].commits;
    } else {
      forall longer: seq<Sys> | run <= longer && IsRun(longer, bodies, init)
        ensures id !in longer[|longer| - 1].commits
      {
        assert longer[last] == s;
        MissedStaysOut(longer, bodies, init, last, |longer| - 1, id);
      }
    }
  }

  /** And such a state is reachable: a run from the start in which Exec reports an error and the batch is applied. */
  lemma FailedExecMayCommit(slot: Slot, val: Val) returns (run: seq<Sys>, bodies: nat -> Body)
    ensures IsRun(run, bodies, map[])
    ensures 0 in run[|run| - 1].txs && !run[|run| - 1].txs[0].acknowledged && run[|run| - 1].txs[0].phase == Closing
    ensures run[|run| - 1].db == map[slot := val]
  {
    var body := PutOnce(slot, val);
    bodies := (id: nat) => body;
    var x := Tx(Acquiring, 0, 10, 10 + OFFSET, false, [], false, 0, false, false, false, 0, false);
    var s0 := Sys(0, None, map[], map[], []);
    var s1 := s0.(txs := map[0 := x]);
    assert Started(s0, s1, 0, 10) && Next(s0, s1, bodies, 0, Start(10));
    var s2 := s1.(lock := Some(Lease(0, 10 + OFFSET)), txs := map[0 := x.(phase := Granted, leased := true)]);
    assert GrantedTo(s1, s2, 0) && Next(s1, s2, bodies, 0, Grant);
    var s3 := s2.(txs := map[0 := s2.txs[0].(phase := Running)]);
    assert Entered(s2, s3, 0) && Next(s2, s3, bodies, 0, Enter);
    assert SomeStep(s0, s1, bodies) && SomeStep(s1, s2, bodies) && SomeStep(s2, s3, bodies);
    var tail := FailedExecTail(slot, val, s3, bodies);
    run := [s0, s1, s2] + tail;
    forall i | 0 < i < |run|
      ensures StepAt(run, bodies, i)
    {
      if i > 3 {
        assert StepAt(tail, bodies, i - 3);
        assert run[i - 1] == tail[i - 4] && run[i] == tail[i - 3];
      }
    }
  }

  lemma FailedExecTail(slot: Slot, val: Val, s3: Sys, bodies: nat -> Body) returns (run: seq<Sys>)
    requires bodies(0) == PutOnce(slot, val) && s3.db == map[] && s3.commits == [] && s3.txs.Keys == {0}
    requires s3.txs[0].phase == Running && s3.txs[0].history == [] && Alive(s3, s3.txs[0]) && !s3.txs[0].acknowledged
    ensures |run| == 5 && run[0] == s3 && forall i :: 0 < i < |run| ==> StepAt(run, bodies, i)
    ensures 0 in run[4].txs && !run[4].txs[0].acknowledged && run[4].txs[0].phase == Closing
    ensures run[4].db == map[slot := val]
  {
    var s4 := PutIsBuffered(slot, val, s3, bodies);
    var s5 := BatchIsSent(slot, val, s4, bodies);
    var x6 := s5.txs[0].(phase := Closing, acknowledged := false);
    var s6 := s5.(txs := s5.txs[0 := x6]);
    assert ExecReturned(s5, s6, 0, false) && Next(s5, s6, bodies, 0, ExecFails);
    var s7 := BatchIsApplied(slot, val, s6, bodies);
    run := [s3, s4, s5, s6, s7];
    assert SomeStep(s5, s6, bodies);
  }

  lemma PutIsBuffered(slot: Slot, val: Val, s: Sys, bodies: nat -> Body) returns (t: Sys)
    requires bodies(0) == PutOnce(slot, val) && 0 in s.txs && s.txs[0].phase == Running && s.txs[0].history == [] && Alive(s, s.txs[0])
    ensures SomeStep(s, t, bodies) && t == s.(txs := s.txs[0 := s.txs[0].(history := [Wrote(Put(slot, val))])])
  {
    var e := Wrote(Put(slot, val));
    assert [] + [e] == [e];
    t := s.(txs := s.txs[0 := s.txs[0].(history := [e])]);
    assert Acted(s, t, bodies(0), 0, e) && Next(s, t, bodies, 0, Act(e));
  }

  lemma BatchIsSent(slot: Slot, val: Val, s: Sys, bodies: nat -> Body) returns (t: Sys)
    requires bodies(0) == PutOnce(slot, val) && 0 in s.txs && s.txs[0].phase == Running && Alive(s, s.txs[0])
    requires s.txs[0].history == [Wrote(Put(slot, val))]
    ensures SomeStep(s, t, bodies) && t == s.(txs := s.txs[0 := s.txs[0].(phase := Sent, inFlight := true, sent := true)])
  {
    t := s.(txs := s.txs[0 := s.txs[0].(phase := Sent, inFlight := true, sent := true)]);
    assert SentOff(s, t, bodies(0), 0) && Next(s, t, bodies, 0, Send);
  }

  lemma BatchIsApplied(slot: Slot, val: Val, s: Sys, bodies: nat -> Body) returns (t: Sys)
    requires s.db == map[] && 0 in s.txs && s.txs[0].inFlight && s.now <= s.txs[0].deadline + OFFSET && s.commits == []
    requires s.txs[0].history == [Wrote(Put(slot, val))]
    ensures SomeStep(s, t, bodies) && t.db == map[slot := val] && 0 in t.txs
    ensures t.txs[0].acknowledged == s.txs[0].acknowledged && t.txs[0].phase == s.txs[0].phase
  {
    PutOnEmpty(slot, val);
    t := s.(db := map[slot := val], commits := s.commits + [0],
            txs := s.txs[0 := s.txs[0].(inFlight := false, applied := true, place := 0)]);
    assert AppliedAt(s, t, 0) && Next(s, t, bodies, 0, Applied);
  }
}
