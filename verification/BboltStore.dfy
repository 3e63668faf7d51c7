/** doTX of the bbolt store as one call runs it, under the oracle answers of lock, engine, body and context. */
module BboltStore {
  import opened Bodies
  import opened Hooks

  datatype Error = NoError | LockNotObtained | StoreIsClosed | DatabaseError | ApplicationError | CommitFailed
  datatype BeginReply = Begun | NotOpen | BeginFailed

  /** What the outside world answers during one call; `cmds` is what the body writes. */
  datatype Answers = Answers(lock: bool, begin: BeginReply, cmds: seq<Cmd>, bodyOk: bool, alive: bool, commit: bool)

  /** The commit is acknowledged. */
  predicate Commits(a: Answers, writable: bool) {
    writable && a.lock && a.begin == Begun && a.bodyOk && a.alive && a.commit
  }

  function Steps(a: Answers, writable: bool): seq<TxEvent> {
    if !a.lock then []
    else if a.begin != Begun then [Locked, Unlocked]
    else if writable && a.bodyOk && a.alive then [Locked, BodyRan, CommitTried(a.commit), Unlocked]
    else [Locked, BodyRan, RolledBack, Unlocked]
  }

  function HooksDue(a: Answers, writable: bool, opts: seq<TxOption>): seq<nat> {
    if !writable || !a.lock || a.begin != Begun then []
    else if Commits(a, writable) then AfterCommits(opts) else OnRollbacks(opts)
  }

  lemma EndsAddUp(before: seq<TxEvent>, end: TxEvent, calls: seq<TxEvent>)
    ensures before + [end] + [Unlocked] + calls == before + [end, Unlocked] + calls
  {
    assert [end] + [Unlocked] == [end, Unlocked];
  }

  class Store {
    var db: Db
    const journal: Journal

    constructor (init: Db)
      ensures db == init && fresh(journal) && journal.events == []
    {
      db := init;
      journal := new Journal();
    }

    method DoTX(a: Answers, writable: bool, opts: seq<TxOption>) returns (err: Error)
      modifies this`db, journal
      ensures db == if Commits(a, writable) then Apply(old(db), a.cmds) else old(db)
      ensures journal.events == old(journal.events) + Steps(a, writable) + Calls(HooksDue(a, writable, opts))
      ensures err == NoError <==> a.lock && a.begin == Begun && a.bodyOk && (writable ==> a.alive && a.commit)
      ensures if writable && err == NoError then CmdsLand(old(db), a.cmds, db) else db == old(db)
      ensures err == ApplicationError <==> a.lock && a.begin == Begun && !a.bodyOk
      ensures err == StoreIsClosed <==> a.lock && a.begin == NotOpen
      ensures err == LockNotObtained <==> !a.lock
      ensures err == DatabaseError <==> a.lock && a.begin == BeginFailed
      ensures err == CommitFailed <==> writable && a.lock && a.begin == Begun && a.bodyOk && !(a.alive && a.commit)
    {
      ApplyLands(db, a.cmds);
      if !a.lock {
        return LockNotObtained;
      }
      journal.Note(Locked);
      if a.begin != Begun {
        journal.Note(Unlocked);
        if a.begin == NotOpen {
          return StoreIsClosed;
        }
        return DatabaseError;
      }
      journal.Note(BodyRan);
      if !writable {
        journal.Note(RolledBack);
        journal.Note(Unlocked);
        return if a.bodyOk then NoError else ApplicationError;
      }
      err := Settle(a, opts);
    }

    /** doTX after the body of a writable transaction. */
    method Settle(a: Answers, opts: seq<TxOption>) returns (err: Error)
      modifies this`db, journal
      ensures db == if a.bodyOk && a.alive && a.commit then Apply(old(db), a.cmds) else old(db)
      ensures journal.events == old(journal.events) +
        [if a.bodyOk && a.alive then CommitTried(a.commit) else RolledBack, Unlocked] +
        Calls(if a.bodyOk && a.alive && a.commit then AfterCommits(opts) else OnRollbacks(opts))
      ensures err == if !a.bodyOk then ApplicationError else if a.alive && a.commit then NoError else CommitFailed
    {
      if !a.bodyOk {
        journal.Note(RolledBack);
        journal.Note(Unlocked);
        journal.InvokeOnRollback(opts);
        EndsAddUp(old(journal.events), RolledBack, Calls(OnRollbacks(opts)));
        return ApplicationError;
      }
      var failed := true;
      if !a.alive {
        journal.Note(RolledBack);
      } else {
        journal.Note(CommitTried(a.commit));
        if a.commit {
          db := Apply(db, a.cmds);
          failed := false;
        }
      }
      if failed {
        journal.Note(Unlocked);
        journal.InvokeOnRollback(opts);
        EndsAddUp(old(journal.events), if a.alive then CommitTried(a.commit) else RolledBack, Calls(OnRollbacks(opts)));
        return CommitFailed;
      }
      journal.Note(Unlocked);
      journal.InvokeAfterCommit(opts);
      EndsAddUp(old(journal.events), CommitTried(true), Calls(AfterCommits(opts)));
      return NoError;
    }
  }

  /** The journal of one call: nothing without the lock; the lock is taken first and given back last, the body and
      the end of the transaction lie between the two, once each, and the body runs iff the transaction begins. */
  lemma StepsInOrder(a: Answers, writable: bool)
    ensures var steps := Steps(a, writable);
      if !a.lock then steps == []
      else
        && |steps| == (if a.begin == Begun then 4 else 2)
        && steps[0] == Locked && steps[|steps| - 1] == Unlocked
        && (a.begin == Begun ==> steps[1] == BodyRan)
        && (a.begin == Begun ==> steps[2] == if writable && a.bodyOk && a.alive then CommitTried(a.commit) else RolledBack)
  {
  }

  lemma StepsAreBalanced(a: Answers, writable: bool)
    ensures NoHooks(Steps(a, writable)) && multiset(Steps(a, writable))[Locked] == multiset(Steps(a, writable))[Unlocked] <= 1
    ensures multiset(Steps(a, writable))[Left] == 0
  {
    var steps := Steps(a, writable);
    if a.lock && a.begin == Begun {
      assert multiset(steps) == multiset{Locked, BodyRan, steps[2], Unlocked};
    } else if a.lock {
      assert multiset(steps) == multiset{Locked, Unlocked};
    }
  }

  lemma HooksAreDue(a: Answers, writable: bool, opts: seq<TxOption>)
    ensures Due(Steps(a, writable), opts, writable) == HooksDue(a, writable, opts)
  {
    var steps := Steps(a, writable);
    assert BodyRan in steps <==> a.lock && a.begin == Begun by {
      if a.lock && a.begin == Begun {
        assert steps[1] == BodyRan;
      }
    }
    assert CommitTried(true) in steps <==> Commits(a, writable) by {
      if Commits(a, writable) {
        assert steps[2] == CommitTried(true);
      }
    }
  }

  /** On every path bbolt honours the options. */
  lemma BboltHonoursOptions(a: Answers, writable: bool, opts: seq<TxOption>)
    ensures Honours(Steps(a, writable) + Calls(HooksDue(a, writable, opts)), opts, writable)
  {
    StepsAreBalanced(a, writable);
    HooksAreDue(a, writable, opts);
    DueHooksHonour(Steps(a, writable), opts, writable);
  }
}
