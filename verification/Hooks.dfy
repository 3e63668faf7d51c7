/** Transaction options, and what a transaction does in the order in which it does it. */
module Hooks {
  import opened Counting

  /** A hook is known by a number; registering one twice is allowed. */
  datatype TxOption = WriteLock | AfterCommit(fn: nat) | OnRollback(fn: nat)

  /** `IteratorOpened` and `IteratorClosed` occur in Badger only, where `RolledBack` is the engine's Discard. `Left` is a lock that is not given back but left to expire. */
  datatype TxEvent =
    | Locked | Unlocked | Left
    | BodyRan
    | IteratorOpened(it: nat) | IteratorClosed(it: nat)
    | CommitTried(acknowledged: bool) | RolledBack
    | Called(fn: nat)

  function AfterCommits(opts: seq<TxOption>): seq<nat> {
    if opts == [] then []
    else AfterCommits(opts[..|opts| - 1]) + (if opts[|opts| - 1].AfterCommit? then [opts[|opts| - 1].fn] else [])
  }

  function OnRollbacks(opts: seq<TxOption>): seq<nat> {
    if opts == [] then []
    else OnRollbacks(opts[..|opts| - 1]) + (if opts[|opts| - 1].OnRollback? then [opts[|opts| - 1].fn] else [])
  }

  function IsAfterCommit(): TxOption -> bool {
    (o: TxOption) => o.AfterCommit?
  }

  function IsOnRollback(): TxOption -> bool {
    (o: TxOption) => o.OnRollback?
  }

  /** `fns` are the functions of the picked options, each once and in the order in which they were registered. */
  ghost predicate InOrder(fns: seq<nat>, opts: seq<TxOption>, pick: TxOption -> bool) {
    Picked(opts, pick, fns, (i: nat, fn: nat) => i < |opts| && !opts[i].WriteLock? && opts[i].fn == fn)
  }

  lemma {:induction false} AfterCommitsInOrder(opts: seq<TxOption>)
    ensures InOrder(AfterCommits(opts), opts, IsAfterCommit())
  {
    var fits := (i: nat, fn: nat) => i < |opts| && !opts[i].WriteLock? && opts[i].fn == fn;
    if opts == [] {
      PickedNone(opts, IsAfterCommit(), fits);
    } else {
      var n := |opts| - 1;
      AfterCommitsInOrder(opts[..n]);
      assert Picked(opts[..n], IsAfterCommit(), AfterCommits(opts[..n]), fits);
      PickedSnoc(opts, IsAfterCommit(), AfterCommits(opts[..n]), fits, if opts[n].AfterCommit? then [opts[n].fn] else []);
    }
  }

  lemma {:induction false} OnRollbacksInOrder(opts: seq<TxOption>)
    ensures InOrder(OnRollbacks(opts), opts, IsOnRollback())
  {
    var fits := (i: nat, fn: nat) => i < |opts| && !opts[i].WriteLock? && opts[i].fn == fn;
    if opts == [] {
      PickedNone(opts, IsOnRollback(), fits);
    } else {
      var n := |opts| - 1;
      OnRollbacksInOrder(opts[..n]);
      assert Picked(opts[..n], IsOnRollback(), OnRollbacks(opts[..n]), fits);
      PickedSnoc(opts, IsOnRollback(), OnRollbacks(opts[..n]), fits, if opts[n].OnRollback? then [opts[n].fn] else []);
    }
  }

  function Calls(fns: seq<nat>): seq<TxEvent> {
    seq(|fns|, i requires 0 <= i < |fns| => Called(fns[i]))
  }

  /** WriteLockOption.Enabled. */
  method WriteLockEnabled(opts: seq<TxOption>) returns (enabled: bool)
    ensures enabled <==> WriteLock in opts
  {
    for i := 0 to |opts|
      invariant WriteLock !in opts[..i]
    {
      if opts[i] == WriteLock {
        return true;
      }
    }
    return false;
  }

  /** What has happened so far. */
  class Journal {
    var events: seq<TxEvent>

    constructor ()
      ensures events == []
    {
      events := [];
    }

    method Note(e: TxEvent)
      modifies this
      ensures events == old(events) + [e]
    {
      events := events + [e];
    }

    /** AfterCommitOption.Invoke. */
    method InvokeAfterCommit(opts: seq<TxOption>)
      modifies this
      ensures events == old(events) + Calls(AfterCommits(opts)) && InOrder(AfterCommits(opts), opts, IsAfterCommit())
    {
      for i := 0 to |opts|
        invariant events == old(events) + Calls(AfterCommits(opts[..i]))
      {
        assert opts[..i + 1][..i] == opts[..i];
        if opts[i].AfterCommit? {
          events := events + [Called(opts[i].fn)];
        }
      }
      assert opts[..|opts|] == opts;
      AfterCommitsInOrder(opts);
    }

    /** OnRollbackOption.Invoke. */
    method InvokeOnRollback(opts: seq<TxOption>)
      modifies this
      ensures events == old(events) + Calls(OnRollbacks(opts)) && InOrder(OnRollbacks(opts), opts, IsOnRollback())
    {
      for i := 0 to |opts|
        invariant events == old(events) + Calls(OnRollbacks(opts[..i]))
      {
        assert opts[..i + 1][..i] == opts[..i];
        if opts[i].OnRollback? {
          events := events + [Called(opts[i].fn)];
        }
      }
      assert opts[..|opts|] == opts;
      OnRollbacksInOrder(opts);
    }
  }

  // ---- Reading a journal ----

  /** The hooks called, in order. */
  function HooksOf(es: seq<TxEvent>): seq<nat> {
    if es == [] then []
    else HooksOf(es[..|es| - 1]) + (if es[|es| - 1].Called? then [es[|es| - 1].fn] else [])
  }

  function IsCall(): TxEvent -> bool {
    (e: TxEvent) => e.Called?
  }

  ghost predicate ReadsCalls(es: seq<TxEvent>, fns: seq<nat>) {
    Picked(es, IsCall(), fns, (i: nat, fn: nat) => i < |es| && es[i] == Called(fn))
  }

  lemma {:induction false} HooksAreRead(es: seq<TxEvent>)
    ensures ReadsCalls(es, HooksOf(es))
  {
    var fits := (i: nat, fn: nat) => i < |es| && es[i] == Called(fn);
    if es == [] {
      PickedNone(es, IsCall(), fits);
    } else {
      var n := |es| - 1;
      HooksAreRead(es[..n]);
      PickedWider(es[..n], IsCall(), HooksOf(es[..n]), (i: nat, fn: nat) => i < |es[..n]| && es[..n][i] == Called(fn), fits);
      PickedSnoc(es, IsCall(), HooksOf(es[..n]), fits, if es[n].Called? then [es[n].fn] else []);
    }
  }

  /** No step of the transaction, the lock release included, comes after a hook. */
  ghost predicate HooksComeLast(es: seq<TxEvent>) {
    forall i, j :: 0 <= i < j < |es| && es[i].Called? ==> es[j].Called?
  }

  /** What every back end owes the options: after a writable body exactly one of the two lists is called, in full and
      in registration order, AfterCommit iff the engine acknowledged the commit; otherwise no hook is called. The
      lock is released, or left to expire, as often as it was taken, before any hook. */
  ghost predicate Honours(es: seq<TxEvent>, opts: seq<TxOption>, writable: bool) {
    && (if !writable || BodyRan !in es then HooksOf(es) == []
        else InOrder(HooksOf(es), opts, if CommitTried(true) in es then IsAfterCommit() else IsOnRollback()))
    && multiset(es)[Locked] == multiset(es)[Unlocked] + multiset(es)[Left] <= 1
    && HooksComeLast(es) && ReadsCalls(es, HooksOf(es))
  }

  predicate NoHooks(es: seq<TxEvent>) {
    forall i :: 0 <= i < |es| ==> !es[i].Called?
  }

  /** Steps without hooks followed by one list of hooks. */
  lemma StepsThenHooks(steps: seq<TxEvent>, fns: seq<nat>)
    requires NoHooks(steps)
    ensures HooksOf(steps + Calls(fns)) == fns && HooksComeLast(steps + Calls(fns))
    ensures forall e: TxEvent :: !e.Called? ==> multiset(steps + Calls(fns))[e] == multiset(steps)[e]
    ensures forall e: TxEvent :: !e.Called? ==> (e in steps + Calls(fns) <==> e in steps)
  {
    HooksOfConcat(steps, fns);
    forall e: TxEvent | !e.Called?
      ensures multiset(steps + Calls(fns))[e] == multiset(steps)[e]
    {
      assert e !in Calls(fns);
      assert e !in multiset(Calls(fns));
    }
  }

  /** The list that is due after the given steps. */
  function Due(steps: seq<TxEvent>, opts: seq<TxOption>, writable: bool): seq<nat> {
    if !writable || BodyRan !in steps then []
    else if CommitTried(true) in steps then AfterCommits(opts) else OnRollbacks(opts)
  }

  lemma DueHooksHonour(steps: seq<TxEvent>, opts: seq<TxOption>, writable: bool)
    requires NoHooks(steps) && multiset(steps)[Locked] == multiset(steps)[Unlocked] + multiset(steps)[Left] <= 1
    ensures Honours(steps + Calls(Due(steps, opts, writable)), opts, writable)
  {
    var due := Due(steps, opts, writable);
    AfterCommitsInOrder(opts);
    OnRollbacksInOrder(opts);
    StepsThenHooks(steps, due);
    var all := steps + Calls(due);
    HooksAreRead(all);
    assert (BodyRan in all <==> BodyRan in steps) && (CommitTried(true) in all <==> CommitTried(true) in steps);
    assert multiset(all)[Locked] == multiset(steps)[Locked] && multiset(all)[Unlocked] == multiset(steps)[Unlocked];
    assert multiset(all)[Left] == multiset(steps)[Left];
  }

  lemma {:induction false} HooksOfConcat(steps: seq<TxEvent>, fns: seq<nat>)
    requires NoHooks(steps)
    ensures HooksOf(steps + Calls(fns)) == fns
    decreases |fns|, |steps|
  {
    var all := steps + Calls(fns);
    if fns != [] {
      var n := |fns| - 1;
      HooksOfConcat(steps, fns[..n]);
      assert all[..|all| - 1] == steps + Calls(fns[..n]);
      assert fns == fns[..n] + [fns[n]];
    } else if steps != [] {
      HooksOfConcat(steps[..|steps| - 1], []);
      assert all == steps && all[..|all| - 1] == steps[..|steps| - 1] + Calls([]);
    }
  }
}
