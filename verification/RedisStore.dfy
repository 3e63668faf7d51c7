/** doTX of the Redis store as one call runs it: reads go to the server, writes into a pipeline. */
module RedisStore {
  import opened Bodies
  import opened Counting
  import opened Hooks
  import opened Lasts
  import opened Wrappers

  /** What Exec comes to: the client may see a failure although the server has applied the batch. */
  datatype ExecReply = Acknowledged | FailedUnapplied | FailedApplied

  /** `open` says whether Put still finds the store open, `answered` whether the server answers the Get. */
  datatype Op = Put(slot: Slot, val: Val, open: bool) | Delete(slot: Slot) | Get(slot: Slot, answered: bool)
  datatype GetReply = Value(val: Val) | NotFound | Failed

  datatype Context = Active | CancelledByCaller | PastDeadline

  /** What the outside world answers during one call: `atBody` and `atRelease` are the context right after the body
      and at the release of the lock, `serverReleases` says whether the server carries out a release sent to it. */
  datatype Answers = Answers(lock: bool, ops: seq<Op>, bodyOk: bool, atBody: Context, exec: ExecReply,
                             atRelease: Context, serverReleases: bool)

  datatype Error = NoError | StoreIsClosed | LockNotObtained | ApplicationError | ContextError | CommitFailed | CloseFailed

  /** A context that has ended keeps its error. */
  function ReleaseContext(a: Answers): Context {
    if a.atBody != Active then a.atBody else a.atRelease
  }

  /** The lock is given back. Past the deadline nothing is sent; a release under a cancelled context fails at once. */
  predicate GivesBack(a: Answers) {
    ReleaseContext(a) == Active && a.serverReleases
  }

  /** The commands that the body buffers. */
  function Buffered(ops: seq<Op>): seq<Cmd> {
    if ops == [] then []
    else
      Buffered(ops[..|ops| - 1]) +
      (match ops[|ops| - 1]
       case Put(slot, val, open) => if open then [Cmd.Put(slot, val)] else []
       case Delete(slot) => [Cmd.Delete(slot)]
       case Get(_, _) => [])
  }

  /** What its Gets find in one database. */
  function Found(db: Db, ops: seq<Op>): seq<GetReply> {
    if ops == [] then []
    else
      Found(db, ops[..|ops| - 1]) +
      (match ops[|ops| - 1]
       case Get(slot, answered) => [ReplyTo(db, slot, answered)]
       case _ => [])
  }

  function ReplyTo(db: Db, slot: Slot, answered: bool): GetReply {
    if !answered then Failed else if slot in db then Value(db[slot]) else NotFound
  }

  function IsGet(): Op -> bool {
    (op: Op) => op.Get?
  }

  /** There is one reply to each Get, in order: Failed iff the server does not answer, else the stored value or
      NotFound, whatever the body has written before. */
  ghost predicate RepliesFit(db: Db, ops: seq<Op>, seen: seq<GetReply>) {
    Picked(ops, IsGet(), seen, ReplyFits(db, ops))
  }

  function ReplyFits(db: Db, ops: seq<Op>): (nat, GetReply) -> bool {
    (i: nat, reply: GetReply) =>
      i < |ops| && ops[i].Get? &&
      if !ops[i].answered then reply == Failed
      else (ops[i].slot in db ==> reply == Value(db[ops[i].slot])) && (ops[i].slot !in db ==> reply == NotFound)
  }

  lemma {:induction false} FoundFits(db: Db, ops: seq<Op>)
    ensures RepliesFit(db, ops, Found(db, ops))
  {
    if ops == [] {
      PickedNone(ops, IsGet(), ReplyFits(db, ops));
    } else {
      var n := |ops| - 1;
      FoundFits(db, ops[..n]);
      PickedWider(ops[..n], IsGet(), Found(db, ops[..n]), ReplyFits(db, ops[..n]), ReplyFits(db, ops));
      PickedSnoc(ops, IsGet(), Found(db, ops[..n]), ReplyFits(db, ops),
        if ops[n].Get? then [ReplyTo(db, ops[n].slot, ops[n].answered)] else []);
    }
  }

  /** What the body writes to a slot: the last of its operations that gets through decides. */
  function Writes(slot: Slot): Op -> bool {
    (op: Op) => ((op.Put? && op.open) || op.Delete?) && op.slot == slot
  }

  function Leaves(): Op -> Option<Val> {
    (op: Op) => if op.Put? then Some(op.val) else None
  }

  /** The body's writes, all of them and in order, have been carried out on `before`. */
  ghost predicate OpsLand(before: Db, ops: seq<Op>, after: Db) {
    forall slot :: Decided(Lookup(before, slot), ops, Writes(slot), Leaves(), |ops|, Lookup(after, slot))
  }

  predicate Runs(open: bool, a: Answers, opts: seq<TxOption>) {
    open && (WriteLock in opts ==> a.lock)
  }

  predicate Sends(open: bool, a: Answers, opts: seq<TxOption>) {
    Runs(open, a, opts) && a.bodyOk && a.atBody == Active
  }

  function Release(a: Answers, opts: seq<TxOption>): seq<TxEvent> {
    if WriteLock !in opts then [] else if GivesBack(a) then [Unlocked] else [Left]
  }

  function EndStep(a: Answers): TxEvent {
    if a.bodyOk && a.atBody == Active then CommitTried(a.exec == Acknowledged) else RolledBack
  }

  function Steps(open: bool, a: Answers, opts: seq<TxOption>): seq<TxEvent> {
    if !Runs(open, a, opts) then []
    else (if WriteLock in opts then [Locked] else []) + BodySteps(a, opts)
  }

  function BodySteps(a: Answers, opts: seq<TxOption>): seq<TxEvent> {
    [BodyRan, EndStep(a)] + Release(a, opts)
  }

  function HooksDue(open: bool, a: Answers, opts: seq<TxOption>): seq<nat> {
    if !Runs(open, a, opts) then []
    else if Sends(open, a, opts) && a.exec == Acknowledged then AfterCommits(opts) else OnRollbacks(opts)
  }

  function BodyHooks(a: Answers, opts: seq<TxOption>): seq<nat> {
    if a.bodyOk && a.atBody == Active && a.exec == Acknowledged then AfterCommits(opts) else OnRollbacks(opts)
  }

  /** The journal of a call that runs its body, put together: `before` it, with the lock, and at the end. */
  lemma StepsAddUp(before: seq<TxEvent>, locked: seq<TxEvent>, end: seq<TxEvent>, a: Answers, opts: seq<TxOption>)
    requires Runs(true, a, opts) && locked == (if WriteLock in opts then before + [Locked] else before)
    requires end == locked + BodySteps(a, opts) + Calls(BodyHooks(a, opts))
    ensures end == before + Steps(true, a, opts) + Calls(HooksDue(true, a, opts))
  {
    assert HooksDue(true, a, opts) == BodyHooks(a, opts);
  }

  lemma BodyStepsAddUp(before: seq<TxEvent>, end: seq<TxEvent>, a: Answers, opts: seq<TxOption>, calls: seq<TxEvent>)
    requires end == before + [BodyRan] + [EndStep(a)] + Release(a, opts) + calls
    ensures end == before + BodySteps(a, opts) + calls
  {
  }

  lemma NothingRuns(before: seq<TxEvent>, open: bool, a: Answers, opts: seq<TxOption>)
    requires !Runs(open, a, opts)
    ensures before + Steps(open, a, opts) + Calls(HooksDue(open, a, opts)) == before
  {
  }

  /** redis.Pipeliner: commands wait in a buffer until Exec sends them as one atomic batch. */
  class Pipeline {
    var cmds: seq<Cmd>

    constructor ()
      ensures cmds == []
    {
      cmds := [];
    }

    method Add(cmd: Cmd)
      modifies this
      ensures cmds == old(cmds) + [cmd]
    {
      cmds := cmds + [cmd];
    }

    method Discard()
      modifies this
      ensures cmds == []
    {
      cmds := [];
    }
  }

  class Store {
    var db: Db
    var open: bool
    const journal: Journal

    constructor (init: Db)
      ensures db == init && open && fresh(journal) && journal.events == []
    {
      db, open := init, true;
      journal := new Journal();
    }

    /** Close: `closes` says whether the client closes without an error. */
    method Close(closes: bool) returns (err: Error)
      modifies this`open
      ensures !open && (err == NoError <==> !old(open) || closes)
    {
      if !open {
        return NoError;
      }
      open := false;
      return if closes then NoError else CloseFailed;
    }

    /** The body, one operation after the other: Get asks the server, Put and Delete only fill the buffer. */
    method RunBody(pl: Pipeline, ops: seq<Op>) returns (seen: seq<GetReply>)
      requires pl.cmds == []
      modifies pl
      ensures pl.cmds == Buffered(ops) && seen == Found(db, ops) && RepliesFit(db, ops, seen)
    {
      seen := [];
      for i := 0 to |ops|
        invariant pl.cmds == Buffered(ops[..i]) && seen == Found(db, ops[..i])
      {
        assert ops[..i + 1][..i] == ops[..i];
        match ops[i]
        case Put(slot, val, open) =>
          if open {
            pl.Add(Cmd.Put(slot, val));
          }
        case Delete(slot) => pl.Add(Cmd.Delete(slot));
        case Get(slot, answered) => seen := seen + [ReplyTo(db, slot, answered)];
      }
      assert ops[..|ops|] == ops;
      FoundFits(db, ops);
    }

    /** The unlock function that doTX builds: a no-op without the lock option. */
    method Unlock(locked: bool, ctx: Context, serverReleases: bool)
      modifies journal
      ensures journal.events == old(journal.events) +
        (if !locked then [] else if ctx == Active && serverReleases then [Unlocked] else [Left])
    {
      if locked {
        if ctx == PastDeadline {
          journal.Note(Left);
        } else {
          var released := ctx == Active && serverReleases;
          journal.Note(if released then Unlocked else Left);
        }
      }
    }

    method DoTX(a: Answers, opts: seq<TxOption>) returns (err: Error, seen: seq<GetReply>)
      modifies this`db, journal
      ensures db == if Sends(open, a, opts) && a.exec != FailedUnapplied then Apply(old(db), Buffered(a.ops)) else old(db)
      ensures err == NoError <==> Sends(open, a, opts) && a.exec == Acknowledged
      ensures err == StoreIsClosed <==> !open
      ensures err == LockNotObtained <==> open && WriteLock in opts && !a.lock
      ensures err == ApplicationError <==> Runs(open, a, opts) && !a.bodyOk
      ensures err == ContextError <==> Runs(open, a, opts) && a.bodyOk && a.atBody != Active
      ensures err == CommitFailed <==> Sends(open, a, opts) && a.exec != Acknowledged
      ensures if err in {StoreIsClosed, LockNotObtained} then seen == [] else RepliesFit(old(db), a.ops, seen)
      ensures err == NoError || (err == CommitFailed && a.exec == FailedApplied) ==> OpsLand(old(db), a.ops, db)
      ensures err !in {NoError, CommitFailed} || (err == CommitFailed && a.exec == FailedUnapplied) ==> db == old(db)
      ensures journal.events == old(journal.events) + Steps(open, a, opts) + Calls(HooksDue(open, a, opts))
    {
      if !open {
        NothingRuns(journal.events, open, a, opts);
        return StoreIsClosed, [];
      }
      err, seen := RunOpen(a, opts);
      CommitIsLastWriterWins(old(db), a.ops);
      FoundFits(old(db), a.ops);
    }

    /** doTX of an open store. */
    method RunOpen(a: Answers, opts: seq<TxOption>) returns (err: Error, seen: seq<GetReply>)
      requires open
      modifies this`db, journal
      ensures db == if Sends(true, a, opts) && a.exec != FailedUnapplied then Apply(old(db), Buffered(a.ops)) else old(db)
      ensures err == NoError <==> Sends(true, a, opts) && a.exec == Acknowledged
      ensures err == LockNotObtained <==> WriteLock in opts && !a.lock
      ensures err == ApplicationError <==> Runs(true, a, opts) && !a.bodyOk
      ensures err == ContextError <==> Runs(true, a, opts) && a.bodyOk && a.atBody != Active
      ensures err == CommitFailed <==> Sends(true, a, opts) && a.exec != Acknowledged
      ensures err !in {StoreIsClosed, CloseFailed}
      ensures seen == if Runs(true, a, opts) then Found(old(db), a.ops) else []
      ensures journal.events == old(journal.events) + Steps(true, a, opts) + Calls(HooksDue(true, a, opts))
    {
      var locked := WriteLockEnabled(opts);
      if locked {
        if !a.lock {
          NothingRuns(journal.events, true, a, opts);
          return LockNotObtained, [];
        }
        journal.Note(Locked);
      }
      ghost var withLock := journal.events;
      err, seen := RunInPipeline(a, locked, opts);
      StepsAddUp(old(journal.events), withLock, journal.events, a, opts);
    }

    /** doTX once the lock is held, if it was asked for. */
    method RunInPipeline(a: Answers, locked: bool, opts: seq<TxOption>) returns (err: Error, seen: seq<GetReply>)
      requires locked <==> WriteLock in opts
      modifies this`db, journal
      ensures db == if a.bodyOk && a.atBody == Active && a.exec != FailedUnapplied then Apply(old(db), Buffered(a.ops)) else old(db)
      ensures seen == Found(old(db), a.ops)
      ensures err == NoError <==> a.bodyOk && a.atBody == Active && a.exec == Acknowledged
      ensures err == ApplicationError <==> !a.bodyOk
      ensures err == ContextError <==> a.bodyOk && a.atBody != Active
      ensures err == CommitFailed <==> a.bodyOk && a.atBody == Active && a.exec != Acknowledged
      ensures err !in {StoreIsClosed, LockNotObtained, CloseFailed}
      ensures journal.events == old(journal.events) + BodySteps(a, opts) + Calls(BodyHooks(a, opts))
    {
      var pl := new Pipeline();
      seen := RunBody(pl, a.ops);
      journal.Note(BodyRan);
      err := Settle(pl, a, locked, opts);
      BodyStepsAddUp(old(journal.events), journal.events, a, opts, Calls(BodyHooks(a, opts)));
    }

    /** doTX after the body. */
    method Settle(pl: Pipeline, a: Answers, locked: bool, opts: seq<TxOption>) returns (err: Error)
      requires locked <==> WriteLock in opts
      modifies this`db, journal, pl
      ensures db == if a.bodyOk && a.atBody == Active && a.exec != FailedUnapplied then Apply(old(db), old(pl.cmds)) else old(db)
      ensures err == NoError <==> a.bodyOk && a.atBody == Active && a.exec == Acknowledged
      ensures err == ApplicationError <==> !a.bodyOk
      ensures err == ContextError <==> a.bodyOk && a.atBody != Active
      ensures err == CommitFailed <==> a.bodyOk && a.atBody == Active && a.exec != Acknowledged
      ensures err !in {StoreIsClosed, LockNotObtained, CloseFailed}
      ensures journal.events == old(journal.events) + [EndStep(a)] + Release(a, opts) + Calls(BodyHooks(a, opts))
    {
      if !a.bodyOk {
        pl.Discard();
        journal.Note(RolledBack);
        Unlock(locked, ReleaseContext(a), a.serverReleases);
        journal.InvokeOnRollback(opts);
        return ApplicationError;
      }
      if a.atBody != Active {
        pl.Discard();
        journal.Note(RolledBack);
        Unlock(locked, ReleaseContext(a), a.serverReleases);
        journal.InvokeOnRollback(opts);
        return ContextError;
      }
      if a.exec != FailedUnapplied {
        db := Apply(db, pl.cmds);
      }
      journal.Note(CommitTried(a.exec == Acknowledged));
      if a.exec != Acknowledged {
        Unlock(locked, ReleaseContext(a), a.serverReleases);
        journal.InvokeOnRollback(opts);
        return CommitFailed;
      }
      Unlock(locked, ReleaseContext(a), a.serverReleases);
      journal.InvokeAfterCommit(opts);
      return NoError;
    }
  }

  /** Close may be called again: the second time it succeeds and does nothing, and no transaction starts any more. */
  method ClosedForGood(s: Store, first: bool, second: bool, a: Answers, opts: seq<TxOption>) returns (again: Error, err: Error)
    modifies s, s.journal
    ensures again == NoError && err == StoreIsClosed && !s.open
    ensures s.db == old(s.db) && s.journal.events == old(s.journal.events)
  {
    var _ := s.Close(first);
    again := s.Close(second);
    var seen;
    err, seen := s.DoTX(a, opts);
    assert Steps(false, a, opts) == [] && Calls([]) == [];
  }

  // ---- Laws ----

  /** The write lock is given back exactly when the context was active after the body and still is at the release, and
      the server carries the release out; in every other case it is left to expire. */
  lemma LockGivenBackIff(a: Answers, opts: seq<TxOption>)
    requires Runs(true, a, opts) && WriteLock in opts
    ensures Unlocked in Steps(true, a, opts) <==> a.atBody == Active && a.atRelease == Active && a.serverReleases
    ensures Left in Steps(true, a, opts) <==> !(a.atBody == Active && a.atRelease == Active && a.serverReleases)
  {
    ShapeOfSteps(true, a, opts);
    var steps := Steps(true, a, opts);
    assert steps[3] == if GivesBack(a) then Unlocked else Left;
  }

  /** So a lock can outlive its transaction although the deadline has not passed and the server would release it. */
  lemma CancelledCallLeavesLock() returns (a: Answers)
    ensures a.lock && a.bodyOk && a.serverReleases && a.atBody == a.atRelease == CancelledByCaller
    ensures Runs(true, a, [WriteLock]) && Left in Steps(true, a, [WriteLock]) && Unlocked !in Steps(true, a, [WriteLock])
  {
    a := Answers(true, [], true, CancelledByCaller, FailedUnapplied, CancelledByCaller, true);
    LockGivenBackIff(a, [WriteLock]);
  }

  lemma LockedSteps(end: TxEvent, last: TxEvent)
    requires !end.Called? && end !in {Locked, Unlocked, Left} && last in {Unlocked, Left}
    ensures var steps := [Locked, BodyRan, end, last];
      NoHooks(steps) && multiset(steps)[Locked] == 1 && multiset(steps)[Unlocked] + multiset(steps)[Left] == 1
  {
    assert multiset([Locked, BodyRan, end, last]) == multiset{Locked, BodyRan, end, last};
  }

  lemma UnlockedSteps(end: TxEvent)
    requires !end.Called? && end !in {Locked, Unlocked, Left}
    ensures var steps := [BodyRan, end];
      NoHooks(steps) && multiset(steps)[Locked] == 0 && multiset(steps)[Unlocked] + multiset(steps)[Left] == 0
  {
    assert multiset([BodyRan, end]) == multiset{BodyRan, end};
  }

  lemma ShapeOfSteps(open: bool, a: Answers, opts: seq<TxOption>)
    requires Runs(open, a, opts)
    ensures Steps(open, a, opts) ==
      if WriteLock in opts then [Locked, BodyRan, EndStep(a), if GivesBack(a) then Unlocked else Left]
      else [BodyRan, EndStep(a)]
  {
  }

  /** The journal of one call: nothing unless the body runs; the lock, if asked for, is taken first and dealt with last,
      and the body and the end of the transaction lie between the two, once each. */
  lemma StepsInOrder(open: bool, a: Answers, opts: seq<TxOption>)
    ensures var steps, end := Steps(open, a, opts), if a.bodyOk && a.atBody == Active then CommitTried(a.exec == Acknowledged) else RolledBack;
      if !open || (WriteLock in opts && !a.lock) then steps == []
      else if WriteLock !in opts then steps == [BodyRan, end]
      else |steps| == 4 && steps[0] == Locked && steps[1] == BodyRan && steps[2] == end && (steps[3] == Unlocked || steps[3] == Left)
  {
  }

  lemma StepsAreBalanced(open: bool, a: Answers, opts: seq<TxOption>)
    ensures var steps := Steps(open, a, opts);
      NoHooks(steps) && multiset(steps)[Locked] == multiset(steps)[Unlocked] + multiset(steps)[Left] <= 1
  {
    if Runs(open, a, opts) {
      ShapeOfSteps(open, a, opts);
      LockedSteps(EndStep(a), if GivesBack(a) then Unlocked else Left);
      UnlockedSteps(EndStep(a));
    }
  }

  lemma HooksAreDue(open: bool, a: Answers, opts: seq<TxOption>)
    ensures Due(Steps(open, a, opts), opts, true) == HooksDue(open, a, opts)
  {
    var steps := Steps(open, a, opts);
    if Runs(open, a, opts) {
      var at := if WriteLock in opts then 1 else 0;
      assert steps[at] == BodyRan && steps[at + 1] == EndStep(a);
      assert BodyRan in steps;
      assert CommitTried(true) in steps <==> EndStep(a) == CommitTried(true);
    }
  }

  /** On every path Redis honours the options. */
  lemma RedisHonoursOptions(open: bool, a: Answers, opts: seq<TxOption>)
    ensures Honours(Steps(open, a, opts) + Calls(HooksDue(open, a, opts)), opts, true)
  {
    StepsAreBalanced(open, a, opts);
    HooksAreDue(open, a, opts);
    DueHooksHonour(Steps(open, a, opts), opts, true);
  }

  lemma BufferedSnoc(before: Db, ops: seq<Op>, slot: Slot, k: nat)
    requires k < |ops|
    ensures Lookup(Apply(before, Buffered(ops[..k + 1])), slot) ==
      if Writes(slot)(ops[k]) then Leaves()(ops[k]) else Lookup(Apply(before, Buffered(ops[..k])), slot)
  {
    assert ops[..k + 1][..k] == ops[..k];
    var init, more := Buffered(ops[..k]), Buffered(ops[..k + 1]);
    match ops[k]
    case Put(s, val, open) =>
      if open {
        ApplyOneMore(before, init, Cmd.Put(s, val));
      } else {
        assert more == init;
      }
    case Delete(s) => ApplyOneMore(before, init, Cmd.Delete(s));
    case Get(_, _) => assert more == init;
  }

  /** All or nothing, slot by slot: after a commit every slot holds what the body's last write to it says, and slots
      that the body did not write are as before. */
  lemma CommitIsLastWriterWins(before: Db, ops: seq<Op>)
    ensures OpsLand(before, ops, Apply(before, Buffered(ops)))
  {
    forall slot
      ensures Decided(Lookup(before, slot), ops, Writes(slot), Leaves(), |ops|, Lookup(Apply(before, Buffered(ops)), slot))
    {
      SlotIsDecided(before, ops, slot);
    }
  }

  lemma SlotIsDecided(before: Db, ops: seq<Op>, slot: Slot)
    ensures Decided(Lookup(before, slot), ops, Writes(slot), Leaves(), |ops|, Lookup(Apply(before, Buffered(ops)), slot))
  {
    var state := (k: nat) => if k <= |ops| then Lookup(Apply(before, Buffered(ops[..k])), slot) else None;
    forall k: nat
      ensures GoesThrough(state, ops, Writes(slot), Leaves(), k)
    {
      if k < |ops| {
        BufferedSnoc(before, ops, slot, k);
      }
    }
    LastDecides(state, ops, Writes(slot), Leaves(), |ops|);
    assert ops[..0] == [] && ops[..|ops|] == ops;
  }
}
