/** lockWithCancel as a step relation: any number of calls, each with its own background goroutine,
    inner mutex and expiry flag, over one reader/writer lock. Steps of different calls interleave freely. */
module LockProtocol {
  import opened Runs

  datatype Mode = Read | Write

  datatype Goroutine =
    | Locking       // in fnLock
    | Announced     // a writer in fnLock that keeps new readers out and waits for the present ones
    | Locked        // fnLock returned, inner mutex not yet taken
    | Checking      // holds the inner mutex, about to load the flag
    | Unlocking     // saw the flag set, about to call fnUnlock
    | Sending       // saw the flag unset, parked on the unbuffered send
    | Leaving       // deferred release of the inner mutex pending
    | Ended

  datatype Caller =
    | Selecting     // in the select
    | Cancelling    // took the ctx.Done branch, inner mutex not yet taken
    | Marking       // holds the inner mutex, about to set the flag
    | Returning     // flag set, deferred release of the inner mutex pending
    | Failed        // returned the context's error
    | Owner         // returned nil
    | Released      // returned nil and has called Unlock or RUnlock

  datatype InnerMutex = Free | ByGoroutine | ByCaller

  /** `acquired` and `released` are history: how often this call's lock functions took and gave back the lock. */
  datatype Call = Call(
    mode: Mode, goroutine: Goroutine, caller: Caller, inner: InnerMutex, expired: bool, cancelled: bool,
    acquired: nat, released: nat)

  /** The RWMutex keeps no owners, only a writer bit, a reader count, and whether a writer has announced itself;
      unlocking an unlocked one is fatal. */
  datatype State = State(writer: bool, pending: bool, readers: nat, fatal: bool, calls: map<nat, Call>)

  predicate Init(s: State) {
    !s.writer && !s.pending && s.readers == 0 && !s.fatal && s.calls == map[]
  }

  /** Nobody has the lock exclusively or is about to: readers may enter, and one writer may announce itself. */
  predicate Open(s: State) {
    !s.writer && !s.pending
  }

  function Acquire(s: State, m: Mode): State {
    if m == Write then s.(writer := true, pending := false) else s.(readers := s.readers + 1)
  }

  function Release(s: State, m: Mode): State {
    if m == Write then (if s.writer then s.(writer := false) else s.(fatal := true))
    else if s.readers > 0 then s.(readers := s.readers - 1) else s.(fatal := true)
  }

  datatype Step =
    | Start(mode: Mode)
    | Cancel
    | GAnnounce | GAcquire | GLockInner | GLoad | GUnlock | Rendezvous | GLeave
    | CChooseDone | CLockInner | CStore | CLeave
    | CRelease

  /** The call's own threads are where the step starts. */
  predicate Ready(c: Call, step: Step) {
    match step
    case Start(_) => false
    case Cancel => !c.cancelled
    case GAnnounce => c.goroutine == Locking && c.mode == Write
    case GAcquire => c.goroutine == (if c.mode == Write then Announced else Locking)
    case GLockInner => c.goroutine == Locked && c.inner == Free
    case GLoad => c.goroutine == Checking
    case GUnlock => c.goroutine == Unlocking
    case Rendezvous => c.goroutine == Sending && c.caller == Selecting
    case GLeave => c.goroutine == Leaving
    case CChooseDone => c.caller == Selecting && c.cancelled
    case CLockInner => c.caller == Cancelling && c.inner == Free
    case CStore => c.caller == Marking
    case CLeave => c.caller == Returning
    case CRelease => c.caller == Owner
  }

  /** What the step needs of the reader/writer lock. */
  predicate Allows(s: State, m: Mode, step: Step) {
    match step
    case GAnnounce => Open(s)
    case GAcquire => if m == Write then !s.writer && s.readers == 0 else Open(s)
    case _ => true
  }

  /** What the step does to the call. */
  function After(c: Call, step: Step): Call {
    match step
    case Start(_) => c
    case Cancel => c.(cancelled := true)
    case GAnnounce => c.(goroutine := Announced)
    case GAcquire => c.(goroutine := Locked, acquired := c.acquired + 1)
    case GLockInner => c.(goroutine := Checking, inner := ByGoroutine)
    case GLoad => c.(goroutine := if c.expired then Unlocking else Sending)
    case GUnlock => c.(goroutine := Leaving, released := c.released + 1)
    case Rendezvous => c.(goroutine := Leaving, caller := Owner)
    case GLeave => c.(goroutine := Ended, inner := Free)
    case CChooseDone => c.(caller := Cancelling)
    case CLockInner => c.(caller := Marking, inner := ByCaller)
    case CStore => c.(caller := Returning, expired := true)
    case CLeave => c.(caller := Failed, inner := Free)
    case CRelease => c.(caller := Released, released := c.released + 1)
  }

  /** What the step does to the reader/writer lock. */
  function LockAfter(s: State, m: Mode, step: Step): State {
    match step
    case GAnnounce => s.(pending := true)
    case GAcquire => Acquire(s, m)
    case GUnlock => Release(s, m)
    case CRelease => Release(s, m)
    case _ => s
  }

  predicate Enabled(s: State, id: nat, step: Step) {
    if step.Start? then id !in s.calls
    else id in s.calls && Ready(s.calls[id], step) && Allows(s, s.calls[id].mode, step)
  }

  function Do(s: State, id: nat, step: Step): State
    requires Enabled(s, id, step)
  {
    if step.Start? then s.(calls := s.calls[id := Call(step.mode, Locking, Selecting, Free, false, false, 0, 0)])
    else LockAfter(s, s.calls[id].mode, step).(calls := s.calls[id := After(s.calls[id], step)])
  }

  /** The lock lets this call's goroutine out of fnLock. */
  predicate Admits(s: State, c: Call) {
    Ready(c, GAcquire) && Allows(s, c.mode, GAcquire)
  }

  predicate Next(s: State, t: State, id: nat, step: Step) {
    Enabled(s, id, step) && t == Do(s, id, step)
  }

  ghost predicate SomeStep(s: State, t: State) {
    exists id, step :: Next(s, t, id, step)
  }

  ghost predicate StepAt(run: seq<State>, k: int) {
    0 < k < |run| && SomeStep(run[k - 1], run[k])
  }

  ghost predicate Steps(run: seq<State>) {
    forall k :: 0 < k < |run| ==> StepAt(run, k)
  }

  ghost predicate IsRun(run: seq<State>) {
    run != [] && Init(run[0]) && Steps(run)
  }

  // ---- Invariant ----

  /** The goroutine has the lock until it gives it back or hands it over; then the caller has it until it unlocks. */
  predicate Holds(c: Call) {
    c.goroutine in {Locked, Checking, Unlocking, Sending} || c.caller == Owner
  }

  predicate CallInv(c: Call) {
    && (c.inner == ByGoroutine <==> c.goroutine in {Checking, Unlocking, Sending, Leaving})
    && (c.inner == ByCaller <==> c.caller in {Marking, Returning})
    && (c.expired <==> c.caller in {Returning, Failed})
    && (c.caller in {Cancelling, Marking, Returning, Failed} ==> c.cancelled)
    && (c.goroutine == Sending ==> c.caller in {Selecting, Cancelling})
    && (c.goroutine == Unlocking ==> c.caller == Failed)
    && (c.goroutine in {Leaving, Ended} ==> c.caller in {Failed, Owner, Released})
    && (c.caller in {Owner, Released} ==> c.goroutine in {Leaving, Ended})
    && (c.goroutine == Announced ==> c.mode == Write)
    && c.acquired == (if c.goroutine in {Locking, Announced} then 0 else 1)
    && c.released == (if c.caller == Released || (c.caller == Failed && c.goroutine in {Leaving, Ended}) then 1 else 0)
  }

  ghost function Those(calls: map<nat, Call>, which: Call -> bool): set<nat> {
    set id | id in calls && which(calls[id])
  }

  function HoldsAs(m: Mode): Call -> bool {
    (c: Call) => c.mode == m && Holds(c)
  }

  function Announces(): Call -> bool {
    (c: Call) => c.goroutine == Announced
  }

  ghost function Holders(calls: map<nat, Call>, m: Mode): set<nat> {
    Those(calls, HoldsAs(m))
  }

  ghost predicate Inv(s: State) {
    && !s.fatal
    && (forall id :: id in s.calls ==> CallInv(s.calls[id]))
    && s.readers == |Holders(s.calls, Read)|
    && |Holders(s.calls, Write)| == (if s.writer then 1 else 0)
    && |Those(s.calls, Announces())| == (if s.pending then 1 else 0)
    && (s.writer ==> s.readers == 0 && !s.pending)
  }

  lemma CountAfterSet(calls: map<nat, Call>, id: nat, c: Call, which: Call -> bool)
    ensures |Those(calls[id := c], which)| == |Those(calls, which)|
      + (if which(c) then 1 else 0) - (if id in calls && which(calls[id]) then 1 else 0)
  {
    var before, after := Those(calls, which), Those(calls[id := c], which);
    assert after - {id} == before - {id};
    assert |before| == |before - {id}| + (if id in before then 1 else 0);
    assert |after| == |after - {id}| + (if id in after then 1 else 0);
  }

  /** What a call is to the lock. */
  datatype Role = Outside | Announcer | Holder

  function RoleOf(c: Call): Role {
    if Holds(c) then Holder else if c.goroutine == Announced then Announcer else Outside
  }

  function RoleIn(s: State, id: nat): Role {
    if id in s.calls then RoleOf(s.calls[id]) else Outside
  }

  /** The lock changes as the call's role does. */
  predicate LockFollows(s: State, t: State, id: nat)
    requires id in t.calls
  {
    var before, after, m := RoleIn(s, id), RoleOf(t.calls[id]), t.calls[id].mode;
    if before == after then t == s.(calls := t.calls)
    else if after == Announcer then before == Outside && m == Write && Open(s) && t == s.(pending := true, calls := t.calls)
    else if after == Holder then
      && before == (if m == Write then Announcer else Outside)
      && !s.writer && (if m == Write then s.readers == 0 else !s.pending)
      && t == Acquire(s, m).(calls := t.calls)
    else before == Holder && t == Release(s, m).(calls := t.calls)
  }

  lemma AfterKeepsCallInv(c: Call, step: Step)
    requires CallInv(c) && Ready(c, step)
    ensures CallInv(After(c, step)) && After(c, step).mode == c.mode
    ensures RoleOf(After(c, step)) == RoleOf(c) <==> !(step.GAnnounce? || step.GAcquire? || step.GUnlock? || step.CRelease?)
    ensures step.GAnnounce? ==> RoleOf(c) == Outside && RoleOf(After(c, step)) == Announcer
    ensures step.GAcquire? ==> RoleOf(c) == (if c.mode == Write then Announcer else Outside) && RoleOf(After(c, step)) == Holder
    ensures step.GUnlock? || step.CRelease? ==> RoleOf(c) == Holder && RoleOf(After(c, step)) == Outside
  {
  }

  /** A step changes one call, keeps that call's invariant, and touches the lock as that call's role changes. */
  lemma StepIsLocal(s: State, t: State, id: nat, step: Step)
    requires id in s.calls ==> CallInv(s.calls[id])
    requires Next(s, t, id, step)
    ensures id in t.calls && t.calls == s.calls[id := t.calls[id]] && CallInv(t.calls[id])
    ensures id in s.calls ==> t.calls[id].mode == s.calls[id].mode
    ensures LockFollows(s, t, id)
  {
    if id in s.calls {
      AfterKeepsCallInv(s.calls[id], step);
    }
  }

  lemma StepKeepsInv(s: State, t: State, id: nat, step: Step)
    requires Inv(s) && Next(s, t, id, step)
    ensures Inv(t)
  {
    StepIsLocal(s, t, id, step);
    LockCountsHolders(s, t, id);
  }

  /** What the counts were and are, as one call changes its role. */
  lemma RolesCounted(s: State, t: State, id: nat)
    requires id in t.calls && t.calls == s.calls[id := t.calls[id]]
    requires id in s.calls ==> t.calls[id].mode == s.calls[id].mode
    ensures var before, after, m := RoleIn(s, id), RoleOf(t.calls[id]), t.calls[id].mode;
      && (forall n: Mode :: |Holders(t.calls, n)| == |Holders(s.calls, n)| +
           (if n == m && after == Holder then 1 else 0) - (if n == m && before == Holder then 1 else 0))
      && (before == Holder ==> |Holders(s.calls, m)| > 0)
      && |Those(t.calls, Announces())| == |Those(s.calls, Announces())| +
           (if t.calls[id].goroutine == Announced then 1 else 0) - (if id in s.calls && s.calls[id].goroutine == Announced then 1 else 0)
  {
    var c := t.calls[id];
    CountAfterSet(s.calls, id, c, HoldsAs(Read));
    CountAfterSet(s.calls, id, c, HoldsAs(Write));
    CountAfterSet(s.calls, id, c, Announces());
    assert id in s.calls && Holds(s.calls[id]) ==> id in Holders(s.calls, c.mode);
  }

  lemma AnnouncerHoldsNothing(c: Call)
    requires CallInv(c)
    ensures RoleOf(c) == Announcer <==> c.goroutine == Announced
  {
  }

  lemma LockCountsHolders(s: State, t: State, id: nat)
    requires Inv(s) && id in t.calls && t.calls == s.calls[id := t.calls[id]] && CallInv(t.calls[id])
    requires id in s.calls ==> t.calls[id].mode == s.calls[id].mode
    requires LockFollows(s, t, id)
    ensures Inv(t)
  {
    RolesCounted(s, t, id);
    AnnouncerHoldsNothing(t.calls[id]);
    if id in s.calls {
      AnnouncerHoldsNothing(s.calls[id]);
    }
    assert forall i :: i in t.calls && i != id ==> i in s.calls && t.calls[i] == s.calls[i];
  }

  lemma {:induction false} RunKeepsInv(run: seq<State>, i: nat)
    requires IsRun(run) && i < |run|
    ensures Inv(run[i])
  {
    if i == 0 {
      assert Holders(run[0].calls, Read) == {} && Holders(run[0].calls, Write) == {} && Those(run[0].calls, Announces()) == {};
    } else {
      RunKeepsInv(run, i - 1);
      assert StepAt(run, i);
      var id, step :| Next(run[i - 1], run[i], id, step);
      StepKeepsInv(run[i - 1], run[i], id, step);
    }
  }

  // ---- Safety over whole runs ----

  /** In every state of every run the lock's bits count its holders exactly, no unlock was fatal, a writer
      excludes everyone else, and each call's history is one acquisition and at most one release. */
  lemma LockSafety(run: seq<State>, i: nat)
    requires IsRun(run) && i < |run|
    ensures !run[i].fatal
    ensures run[i].readers == |Holders(run[i].calls, Read)|
    ensures run[i].writer <==> Holders(run[i].calls, Write) != {}
    ensures forall a, b ::
      (a in run[i].calls && b in run[i].calls && a != b && Holds(run[i].calls[a]) && Holds(run[i].calls[b]))
      ==> run[i].calls[a].mode == Read && run[i].calls[b].mode == Read
    ensures forall a :: a in run[i].calls ==> var c := run[i].calls[a];
      c.released <= c.acquired <= 1 && (Holds(c) <==> c.acquired == 1 && c.released == 0)
  {
    RunKeepsInv(run, i);
    var s := run[i];
    forall a, b | a in s.calls && b in s.calls && a != b && Holds(s.calls[a]) && Holds(s.calls[b])
      ensures s.calls[a].mode == Read && s.calls[b].mode == Read
    {
      HoldersExclude(s, a, b);
    }
  }

  lemma HoldersExclude(s: State, a: nat, b: nat)
    requires Inv(s) && a in s.calls && b in s.calls && a != b && Holds(s.calls[a]) && Holds(s.calls[b])
    ensures s.calls[a].mode == Read && s.calls[b].mode == Read
  {
    var ws, rs := Holders(s.calls, Write), Holders(s.calls, Read);
    if s.calls[a].mode == Write && s.calls[b].mode == Write {
      assert {a, b} <= ws;
      SubsetSize({a, b}, ws);
    }
    assert forall x :: x in {a, b} ==> x in (if s.calls[x].mode == Write then ws else rs);
    assert s.writer ==> rs == {};
  }

  lemma {:induction false} SubsetSize(a: set<nat>, b: set<nat>)
    requires a <= b
    ensures |a| <= |b|
  {
    if a != {} {
      var x :| x in a;
      SubsetSize(a - {x}, b - {x});
    }
  }

  /** What a return tells the caller: with nil it holds the lock, with an error it does not and once the
      goroutine has ended the lock was taken and given back exactly once. */
  lemma ReturnMeaning(run: seq<State>, i: nat, id: nat)
    requires IsRun(run) && i < |run| && id in run[i].calls
    ensures var c := run[i].calls[id];
      && (c.caller == Owner ==> Holds(c) && c.goroutine in {Leaving, Ended} && !c.expired)
      && (c.caller == Failed ==> c.cancelled && (Holds(c) ==> c.goroutine in {Locked, Checking, Unlocking}))
      && (c.caller == Failed && c.goroutine == Ended ==> !Holds(c) && c.acquired == 1 && c.released == 1)
  {
    RunKeepsInv(run, i);
  }

  /** Once every call has returned, been unlocked and lost its goroutine, the lock is free. */
  lemma QuiescentIsFree(run: seq<State>, i: nat)
    requires IsRun(run) && i < |run|
    requires forall id :: id in run[i].calls ==>
      run[i].calls[id].goroutine == Ended && run[i].calls[id].caller in {Failed, Released}
    ensures !run[i].writer && !run[i].pending && run[i].readers == 0
  {
    RunKeepsInv(run, i);
    var s := run[i];
    assert Holders(s.calls, Read) == {} && Holders(s.calls, Write) == {} && Those(s.calls, Announces()) == {};
  }

  // ---- Progress ----

  predicate Finished(c: Call) {
    c.goroutine == Ended && c.caller in {Failed, Owner, Released}
  }

  /** Both sides of the call are stuck on each other. */
  predicate Blocked(c: Call) {
    c.goroutine == Sending && c.caller == Cancelling
  }

  /** In fnLock, behind a holder or, writers having precedence, behind a writer that waits itself. */
  predicate WaitsForLock(s: State, c: Call) {
    && (c.goroutine == Locking || c.goroutine == Announced) && !Admits(s, c)
    && (c.goroutine == Locking && c.mode == Write ==> !Open(s))
    && (c.caller == Failed || (c.caller == Selecting && !c.cancelled))
  }

  /** A step that the call's own two threads can take; cancelling and unlocking are the environment's. */
  predicate Internal(step: Step) {
    !step.Start? && step != Cancel && step != CRelease
  }

  ghost predicate HasStep(s: State, id: nat) {
    exists step :: Internal(step) && Enabled(s, id, step)
  }

  lemma StuckImplies(s: State, id: nat)
    requires id in s.calls && CallInv(s.calls[id]) && !HasStep(s, id)
    ensures Finished(s.calls[id]) || WaitsForLock(s, s.calls[id]) || Blocked(s.calls[id])
  {
    assert !Enabled(s, id, GAnnounce) && !Enabled(s, id, GAcquire) && !Enabled(s, id, GLockInner) && !Enabled(s, id, GLoad);
    assert !Enabled(s, id, GUnlock) && !Enabled(s, id, Rendezvous) && !Enabled(s, id, GLeave);
    assert !Enabled(s, id, CChooseDone) && !Enabled(s, id, CLockInner) && !Enabled(s, id, CStore) && !Enabled(s, id, CLeave);
  }

  /** A call of a reachable state has no internal step exactly when it is finished, waits for the lock, or is in
      the one blocked configuration, which holds both the inner mutex and the reader/writer lock. */
  lemma StuckExactlyWhen(run: seq<State>, i: nat, id: nat)
    requires IsRun(run) && i < |run| && id in run[i].calls
    ensures !HasStep(run[i], id) <==>
      Finished(run[i].calls[id]) || WaitsForLock(run[i], run[i].calls[id]) || Blocked(run[i].calls[id])
    ensures Blocked(run[i].calls[id]) ==> Holds(run[i].calls[id]) && run[i].calls[id].inner == ByGoroutine
  {
    RunKeepsInv(run, i);
    if !HasStep(run[i], id) {
      StuckImplies(run[i], id);
    }
  }

  lemma BlockedStep(s: State, t: State, id: nat, other: nat, step: Step)
    requires Inv(s) && Next(s, t, other, step) && id in s.calls && Blocked(s.calls[id])
    ensures id in t.calls && Blocked(t.calls[id]) && t.calls[id].mode == s.calls[id].mode
    ensures s.pending ==> t.pending
  {
    StepIsLocal(s, t, other, step);
    assert id in Holders(s.calls, s.calls[id].mode);
  }

  /** The lock admits no writer, or nobody at all. */
  ghost predicate ShutsOut(s: State, everybody: bool) {
    forall c: Call :: everybody || c.mode == Write ==> !Admits(s, c)
  }

  lemma BlockedShutsOut(s: State, id: nat)
    requires Inv(s) && id in s.calls && Blocked(s.calls[id])
    ensures ShutsOut(s, s.calls[id].mode == Write || s.pending)
  {
    assert id in Holders(s.calls, s.calls[id].mode);
  }

  lemma StepOf(run: seq<State>, k: nat) returns (id: nat, step: Step)
    requires IsRun(run) && 0 < k < |run|
    ensures Inv(run[k - 1]) && Next(run[k - 1], run[k], id, step)
  {
    RunKeepsInv(run, k - 1);
    assert StepAt(run, k);
    id, step :| Next(run[k - 1], run[k], id, step);
  }

  lemma BlockStays(run: seq<State>, i: nat, j: nat, id: nat)
    requires IsRun(run) && i <= j < |run| && id in run[i].calls && Blocked(run[i].calls[id])
    ensures id in run[j].calls && Blocked(run[j].calls[id]) && run[j].calls[id].mode == run[i].calls[id].mode
    ensures run[i].pending ==> run[j].pending
  {
    var m, pending := run[i].calls[id].mode, run[i].pending;
    var blocked := (s: State) => id in s.calls && Blocked(s.calls[id]) && s.calls[id].mode == m && (pending ==> s.pending);
    forall k | i < k <= j && blocked(run[k - 1])
      ensures blocked(run[k])
    {
      var other, step := StepOf(run, k);
      BlockedStep(run[k - 1], run[k], id, other, step);
    }
    Persists(run, blocked, i, j);
  }

  /** The blocked configuration is permanent: no writer is ever admitted again, and once one has announced itself, or
      if the blocked call is a writer, nobody is. */
  lemma BlockedForever(run: seq<State>, i: nat, j: nat, id: nat)
    requires IsRun(run) && i <= j < |run| && id in run[i].calls && Blocked(run[i].calls[id])
    ensures id in run[j].calls && Blocked(run[j].calls[id])
    ensures ShutsOut(run[j], run[i].calls[id].mode == Write || run[i].pending)
  {
    BlockStays(run, i, j, id);
    RunKeepsInv(run, j);
    BlockedShutsOut(run[j], id);
  }

  /** The block is reachable: cancellation lands while the goroutine is between its check and its send. */
  lemma BlockedIsReachable(m: Mode) returns (run: seq<State>)
    ensures IsRun(run) && 0 in run[|run| - 1].calls && Blocked(run[|run| - 1].calls[0])
    ensures run[|run| - 1].calls[0].mode == m
  {
    var s0 := State(false, false, 0, false, map[]);
    var s1 := Do(s0, 0, Start(m));
    assert Next(s0, s1, 0, Start(m));
    if m == Write {
      var s2 := Do(s1, 0, GAnnounce);
      assert Next(s1, s2, 0, GAnnounce);
      var tail := BlockingTail(s2);
      assert SomeStep(s0, s1) && SomeStep(s1, s2);
      run := [s0, s1] + tail;
      RunJoins([s0, s1], tail);
    } else {
      var tail := BlockingTail(s1);
      assert SomeStep(s0, s1);
      run := [s0] + tail;
      RunJoins([s0], tail);
    }
  }

  lemma RunJoins(a: seq<State>, b: seq<State>)
    requires a != [] && b != [] && SomeStep(a[|a| - 1], b[0]) && Steps(a) && Steps(b)
    ensures Steps(a + b)
  {
    forall k | 0 < k < |a + b|
      ensures StepAt(a + b, k)
    {
      if k < |a| {
        assert StepAt(a, k);
      } else if k > |a| {
        assert StepAt(b, k - |a|);
      }
    }
  }

  lemma BlockingTail(s1: State) returns (run: seq<State>)
    requires 0 in s1.calls && Admits(s1, s1.calls[0])
    requires s1.calls[0].inner == Free && !s1.calls[0].expired && !s1.calls[0].cancelled && s1.calls[0].caller == Selecting
    ensures |run| == 6 && run[0] == s1 && Steps(run)
    ensures 0 in run[5].calls && Blocked(run[5].calls[0]) && run[5].calls[0].mode == s1.calls[0].mode
  {
    var s2 := Do(s1, 0, GAcquire);
    var s3 := Do(s2, 0, GLockInner);
    var s4 := Do(s3, 0, Cancel);
    var s5 := Do(s4, 0, CChooseDone);
    var s6 := Do(s5, 0, GLoad);
    run := [s1, s2, s3, s4, s5, s6];
    assert Next(s1, s2, 0, GAcquire) && Next(s2, s3, 0, GLockInner) && Next(s3, s4, 0, Cancel);
    assert Next(s4, s5, 0, CChooseDone) && Next(s5, s6, 0, GLoad);
  }

  // ---- The whole system ----

  /** A thread of some call can step, or some caller has the lock and can unlock it. */
  ghost predicate CanGoOn(s: State) {
    exists id :: id in s.calls && (HasStep(s, id) || s.calls[id].caller == Owner)
  }

  lemma HolderGoesOn(s: State, id: nat)
    requires Inv(s) && id in s.calls && Holds(s.calls[id]) && !DoomedIn(s, id)
    ensures CanGoOn(s)
  {
    if !HasStep(s, id) {
      StuckImplies(s, id);
    }
  }

  lemma AnnouncerGoesOn(s: State, id: nat)
    requires Inv(s) && id in s.calls && s.calls[id].goroutine == Announced && !s.writer && s.readers == 0
    ensures CanGoOn(s)
  {
    assert Internal(GAcquire) && Enabled(s, id, GAcquire);
  }

  lemma SomeHolder(s: State, m: Mode) returns (id: nat)
    requires |Holders(s.calls, m)| > 0
    ensures id in s.calls && Holds(s.calls[id])
  {
    assert Holders(s.calls, m) != {};
    id :| id in Holders(s.calls, m);
  }

  lemma SomeAnnouncer(s: State) returns (id: nat)
    requires |Those(s.calls, Announces())| > 0
    ensures id in s.calls && s.calls[id].goroutine == Announced
  {
    assert Those(s.calls, Announces()) != {};
    id :| id in Those(s.calls, Announces());
  }

  /** Only doom can stop the system: as long as a call is not through and none is doomed, something can go on. */
  lemma NoDeadlock(run: seq<State>, i: nat, id: nat)
    requires IsRun(run) && i < |run| && id in run[i].calls && !Finished(run[i].calls[id])
    requires forall x :: x in run[i].calls ==> !DoomedIn(run[i], x)
    ensures CanGoOn(run[i])
  {
    RunKeepsInv(run, i);
    var s := run[i];
    if s.readers > 0 {
      var h := SomeHolder(s, Read);
      HolderGoesOn(s, h);
    } else if s.writer {
      var h := SomeHolder(s, Write);
      HolderGoesOn(s, h);
    } else if s.pending {
      var a := SomeAnnouncer(s);
      AnnouncerGoesOn(s, a);
    } else if !HasStep(s, id) {
      StuckImplies(s, id);
      assert s.calls[id].goroutine == Announced;
      AnnouncerGoesOn(s, id);
    }
  }

  // ---- Termination, and the cause of the block ----

  function GoroutineRank(g: Goroutine): nat {
    match g
    case Locking => 6
    case Announced => 5
    case Locked => 4
    case Checking => 3
    case Unlocking => 2
    case Sending => 2
    case Leaving => 1
    case Ended => 0
  }

  /** How many steps the two threads of a call can still take. */
  function Rank(c: Call): nat {
    GoroutineRank(c.goroutine) +
    match c.caller
    case Selecting => 4
    case Cancelling => 3
    case Marking => 2
    case Returning => 1
    case _ => 0
  }

  lemma RankAfter(c: Call, step: Step)
    requires Ready(c, step)
    ensures Rank(c) <= 10
    ensures if Internal(step) then Rank(After(c, step)) < Rank(c) else Rank(After(c, step)) == Rank(c)
  {
  }

  /** A call runs out of own steps: each one lowers its rank, and nothing else changes it. */
  lemma StepsRunOut(s: State, t: State, id: nat, other: nat, step: Step)
    requires Next(s, t, other, step) && id in s.calls
    ensures id in t.calls && Rank(s.calls[id]) <= 10
    ensures if other == id && Internal(step) then Rank(t.calls[id]) < Rank(s.calls[id]) else Rank(t.calls[id]) == Rank(s.calls[id])
  {
    if other == id {
      RankAfter(s.calls[id], step);
    }
  }

  /** The caller has turned to the ctx.Done branch while its goroutine holds the inner mutex and has not seen a flag. */
  predicate Doomed(c: Call) {
    c.caller == Cancelling && c.goroutine in {Checking, Sending}
  }

  /** The two ways into that: the caller turns while the goroutine holds the inner mutex, or the goroutine takes the
      inner mutex before the caller that has turned. */
  predicate Dooms(s: State, t: State, id: nat) {
    id in s.calls &&
    ((Next(s, t, id, CChooseDone) && s.calls[id].goroutine in {Checking, Sending}) ||
     (Next(s, t, id, GLockInner) && s.calls[id].caller == Cancelling))
  }

  lemma DoomAfter(c: Call, step: Step)
    requires CallInv(c) && Ready(c, step)
    ensures Doomed(After(c, step)) <==>
      Doomed(c) || (step.CChooseDone? && c.goroutine in {Checking, Sending}) || (step.GLockInner? && c.caller == Cancelling)
    ensures Doomed(c) ==> step == GLoad && Blocked(After(c, step))
  {
  }

  predicate DoomedIn(s: State, id: nat) {
    id in s.calls && Doomed(s.calls[id])
  }

  lemma DoomStep(s: State, t: State, id: nat, other: nat, step: Step)
    requires Inv(s) && Next(s, t, other, step)
    ensures DoomedIn(t, id) <==> DoomedIn(s, id) || Dooms(s, t, id)
  {
    if other == id && id in s.calls {
      DoomAfter(s.calls[id], step);
    }
    if Dooms(s, t, id) && !DoomedIn(s, id) {
      DoomAfter(s.calls[id], if Next(s, t, id, CChooseDone) && s.calls[id].goroutine in {Checking, Sending} then CChooseDone else GLockInner);
    }
  }

  lemma DoomStays(run: seq<State>, i: nat, j: nat, id: nat)
    requires IsRun(run) && i <= j < |run| && DoomedIn(run[i], id)
    ensures DoomedIn(run[j], id)
  {
    var doomed := (s: State) => DoomedIn(s, id);
    forall k | i < k <= j && doomed(run[k - 1])
      ensures doomed(run[k])
    {
      var other, step := StepOf(run, k);
      DoomStep(run[k - 1], run[k], id, other, step);
    }
    Persists(run, doomed, i, j);
  }

  /** The only step left to the call is the one that blocks it. */
  ghost predicate OnlyBlocks(c: Call) {
    forall step :: Internal(step) && Ready(c, step) ==> step == GLoad && Blocked(After(c, step))
  }

  /** Doom is for ever, and the only step left to a doomed call is the one that blocks it. */
  lemma DoomedForever(run: seq<State>, i: nat, j: nat, id: nat)
    requires IsRun(run) && i <= j < |run| && DoomedIn(run[i], id)
    ensures DoomedIn(run[j], id) && OnlyBlocks(run[j].calls[id])
  {
    DoomStays(run, i, j, id);
    RunKeepsInv(run, j);
    forall step | Internal(step) && Ready(run[j].calls[id], step)
      ensures step == GLoad && Blocked(After(run[j].calls[id], step))
    {
      DoomAfter(run[j].calls[id], step);
    }
  }

  /** So a call blocks exactly when one of the two steps has happened to it. */
  lemma DoomedIffCaused(run: seq<State>, i: nat, id: nat)
    requires IsRun(run) && i < |run|
    ensures DoomedIn(run[i], id) <==> exists j :: 0 < j <= i && Dooms(run[j - 1], run[j], id)
  {
    var free := (s: State) => !DoomedIn(s, id);
    var dooms := (s: State, t: State) => Dooms(s, t, id);
    forall k | 0 < k <= i
      ensures free(run[k]) == (free(run[k - 1]) && !dooms(run[k - 1], run[k]))
    {
      var other, step := StepOf(run, k);
      DoomStep(run[k - 1], run[k], id, other, step);
    }
    FallsIff(run, free, dooms, 0, i);
    assert (exists j :: 0 < j <= i && Dooms(run[j - 1], run[j], id)) <==> (exists j :: 0 < j <= i && dooms(run[j - 1], run[j]));
  }

  /** A call without a step is finished or waits for the lock, unless it is doomed, and then it is blocked. */
  lemma StuckIffNotDoomed(run: seq<State>, i: nat, id: nat)
    requires IsRun(run) && i < |run| && id in run[i].calls && !HasStep(run[i], id)
    ensures Blocked(run[i].calls[id]) <==> DoomedIn(run[i], id)
    ensures !DoomedIn(run[i], id) <==> Finished(run[i].calls[id]) || WaitsForLock(run[i], run[i].calls[id])
  {
    StuckExactlyWhen(run, i, id);
  }
}
