/** Badger transactions: shelves in one flat store, iterators that must be closed before the end, and doTX. */
module BadgerStore {
  import opened ByteStrings
  import opened Counting
  import opened FlatShelves
  import opened Hooks
  import opened Keys
  import opened Lasts
  import opened SortedStore
  import opened Wrappers

  /** What the body does: single-key operations on named shelves, and opening an iterator (Iterate, Range, Empty).
      `accepted` says whether the engine takes the write: it refuses an empty key, say, or too large a transaction. */
  datatype Op =
    | Put(name: bytes, key: Key, value: bytes, accepted: bool)
    | Delete(name: bytes, key: Key, accepted: bool)
    | Get(name: bytes, key: Key)
    | Iterator

  function After(flat: Pairs, ops: seq<Op>): Pairs {
    if ops == [] then flat
    else
      var before := After(flat, ops[..|ops| - 1]);
      match ops[|ops| - 1]
      case Put(name, key, value, accepted) => if accepted then Insert(before, name + key.Bytes(), value) else before
      case Delete(name, key, accepted) => if accepted then Remove(before, name + key.Bytes()) else before
      case _ => before
  }

  /** The answers to the body's Gets: each sees the shelf as the writes before it have left it. */
  function Reads(flat: Pairs, ops: seq<Op>): seq<Option<bytes>> {
    if ops == [] then []
    else
      var n := |ops| - 1;
      Reads(flat, ops[..n]) +
        (if ops[n].Get? then [Find(ShelfOf(After(flat, ops[..n]), ops[n].name), ops[n].key.Bytes())] else [])
  }

  function Iterators(ops: seq<Op>): nat {
    if ops == [] then 0 else Iterators(ops[..|ops| - 1]) + (if ops[|ops| - 1].Iterator? then 1 else 0)
  }

  function Opens(n: nat): seq<TxEvent> {
    seq(n, i requires 0 <= i < n => IteratorOpened(i))
  }

  function Closes(n: nat): seq<TxEvent> {
    seq(n, i requires 0 <= i < n => IteratorClosed(i))
  }

  lemma {:induction false} AfterIsSorted(flat: Pairs, ops: seq<Op>)
    requires Sorted(flat)
    ensures Sorted(After(flat, ops))
  {
    if ops != [] {
      var n := |ops| - 1;
      AfterIsSorted(flat, ops[..n]);
      match ops[n]
      case Put(name, key, value, _) => InsertLaws(After(flat, ops[..n]), name + key.Bytes(), value, []);
      case Delete(name, key, _) => RemoveLaws(After(flat, ops[..n]), name + key.Bytes(), []);
      case _ =>
    }
  }

  // ---- What a transaction reads and leaves ----

  /** The operation writes this flat key and the engine takes it. */
  function WritesKey(k: bytes): Op -> bool {
    (op: Op) => (op.Put? || op.Delete?) && op.accepted && op.name + op.key.Bytes() == k
  }

  function LeavesValue(): Op -> Option<bytes> {
    (op: Op) => if op.Put? then Some(op.value) else None
  }

  /** The writes, all of those taken and in order, have been carried out on `flat`. */
  ghost predicate OpsLand(flat: Pairs, ops: seq<Op>, after: Pairs) {
    forall k: bytes :: Decided(Find(flat, k), ops, WritesKey(k), LeavesValue(), |ops|, Find(after, k))
  }

  function IsGet(): Op -> bool {
    (op: Op) => op.Get?
  }

  /** There is one answer to each Get, in order: what the last write before it to that key says, or else what the
      shelf held at the start. */
  ghost predicate AnswersFit(flat: Pairs, ops: seq<Op>, seen: seq<Option<bytes>>) {
    Picked(ops, IsGet(), seen, AnswerFits(flat, ops))
  }

  ghost function AnswerFits(flat: Pairs, ops: seq<Op>): (nat, Option<bytes>) -> bool {
    (i: nat, answer: Option<bytes>) =>
      i < |ops| && ops[i].Get? &&
      Decided(Find(ShelfOf(flat, ops[i].name), ops[i].key.Bytes()), ops, WritesKey(ops[i].name + ops[i].key.Bytes()), LeavesValue(), i, answer)
  }

  lemma AfterSnoc(flat: Pairs, ops: seq<Op>, k: bytes)
    requires Sorted(flat) && ops != []
    ensures var n := |ops| - 1;
      Find(After(flat, ops), k) == if WritesKey(k)(ops[n]) then LeavesValue()(ops[n]) else Find(After(flat, ops[..n]), k)
  {
    var n := |ops| - 1;
    AfterIsSorted(flat, ops[..n]);
    match ops[n]
    case Put(name, key, value, _) => InsertLaws(After(flat, ops[..n]), name + key.Bytes(), value, k);
    case Delete(name, key, _) => RemoveLaws(After(flat, ops[..n]), name + key.Bytes(), k);
    case _ =>
  }

  lemma KeyIsDecided(flat: Pairs, ops: seq<Op>, n: nat, k: bytes)
    requires Sorted(flat) && n <= |ops|
    ensures Decided(Find(flat, k), ops, WritesKey(k), LeavesValue(), n, Find(After(flat, ops[..n]), k))
  {
    var state := (m: nat) => if m <= |ops| then Find(After(flat, ops[..m]), k) else None;
    forall m: nat
      ensures GoesThrough(state, ops, WritesKey(k), LeavesValue(), m)
    {
      if m < |ops| {
        AfterSnoc(flat, ops[..m + 1], k);
        assert ops[..m + 1][..m] == ops[..m];
      }
    }
    LastDecides(state, ops, WritesKey(k), LeavesValue(), n);
    assert ops[..0] == [];
  }

  /** A transaction leaves in every key what its last write to it says. */
  lemma TransactionLands(flat: Pairs, ops: seq<Op>)
    requires Sorted(flat)
    ensures OpsLand(flat, ops, After(flat, ops))
  {
    forall k: bytes
      ensures Decided(Find(flat, k), ops, WritesKey(k), LeavesValue(), |ops|, Find(After(flat, ops), k))
    {
      KeyIsDecided(flat, ops, |ops|, k);
      assert ops[..|ops|] == ops;
    }
  }

  lemma AnswerIsDecided(flat: Pairs, ops: seq<Op>, i: nat)
    requires Sorted(flat) && i < |ops| && ops[i].Get?
    ensures AnswerFits(flat, ops)(i, Find(ShelfOf(After(flat, ops[..i]), ops[i].name), ops[i].key.Bytes()))
  {
    KeyIsDecided(flat, ops, i, ops[i].name + ops[i].key.Bytes());
    ShelfFind(flat, ops[i].name, ops[i].key.Bytes());
    ShelfFind(After(flat, ops[..i]), ops[i].name, ops[i].key.Bytes());
  }

  /** The answers to the first `n` operations. */
  lemma {:induction false} ReadsFit(flat: Pairs, ops: seq<Op>, n: nat)
    requires Sorted(flat) && n <= |ops|
    ensures Picked(ops[..n], IsGet(), Reads(flat, ops[..n]), AnswerFits(flat, ops))
  {
    if n == 0 {
      PickedNone(ops[..0], IsGet(), AnswerFits(flat, ops));
    } else {
      var m := n - 1;
      ReadsFit(flat, ops, m);
      assert ops[..n][..m] == ops[..m];
      if ops[m].Get? {
        AnswerIsDecided(flat, ops, m);
      }
      PickedSnoc(ops[..n], IsGet(), Reads(flat, ops[..m]), AnswerFits(flat, ops),
        if ops[m].Get? then [Find(ShelfOf(After(flat, ops[..m]), ops[m].name), ops[m].key.Bytes())] else []);
    }
  }

  function IsIterator(): Op -> bool {
    (op: Op) => op.Iterator?
  }

  /** One iterator for each operation that opens one. */
  lemma {:induction false} IteratorsCounted(ops: seq<Op>)
    ensures Iterators(ops) == Before(ops, IsIterator(), |ops|)
  {
    if ops == [] {
      assert Places(ops, IsIterator(), 0) == {};
    } else {
      var n := |ops| - 1;
      IteratorsCounted(ops[..n]);
      BeforeStep(ops, IsIterator(), n);
      BeforePrefix(ops, IsIterator(), n, n);
    }
  }

  // ---- Shelves over whole transactions ----

  /** The operations on shelf `m`, folded over that shelf alone. */
  function OnShelf(shelf: Pairs, ops: seq<Op>, m: bytes): Pairs {
    if ops == [] then shelf
    else
      var before := OnShelf(shelf, ops[..|ops| - 1], m);
      match ops[|ops| - 1]
      case Put(name, key, value, accepted) => if accepted && name == m then Insert(before, key.Bytes(), value) else before
      case Delete(name, key, accepted) => if accepted && name == m then Remove(before, key.Bytes()) else before
      case _ => before
  }

  /** Every shelf that is written is `m` itself or lies apart from it. */
  predicate WritesApart(ops: seq<Op>, m: bytes) {
    forall i :: 0 <= i < |ops| && (ops[i].Put? || ops[i].Delete?) ==> ops[i].name == m || Apart(m, ops[i].name)
  }

  /** The flat store is a map of shelves: a whole transaction leaves in shelf `m` what its operations on `m` alone,
      in their order, make of it. */
  lemma {:induction false} TransactionOnShelf(flat: Pairs, ops: seq<Op>, m: bytes)
    requires Sorted(flat) && WritesApart(ops, m)
    ensures ShelfOf(After(flat, ops), m) == OnShelf(ShelfOf(flat, m), ops, m)
  {
    if ops != [] {
      var n := |ops| - 1;
      var before := After(flat, ops[..n]);
      AfterIsSorted(flat, ops[..n]);
      TransactionOnShelf(flat, ops[..n], m);
      match ops[n]
      case Put(name, key, value, _) => PutOnShelf(before, name, key.Bytes(), value, m);
      case Delete(name, key, _) => DeleteOnShelf(before, name, key.Bytes(), m);
      case _ =>
    }
  }

  lemma PutOnShelf(flat: Pairs, name: bytes, k: bytes, v: bytes, m: bytes)
    requires Sorted(flat) && (name == m || Apart(m, name))
    ensures ShelfOf(Insert(flat, name + k, v), m) == if name == m then Insert(ShelfOf(flat, m), k, v) else ShelfOf(flat, m)
  {
    if name == m {
      ShelfInsert(flat, name, k, v);
    } else {
      ApartKeys(m, name, k);
      OtherInsert(flat, m, name + k, v);
    }
  }

  lemma DeleteOnShelf(flat: Pairs, name: bytes, k: bytes, m: bytes)
    requires name == m || Apart(m, name)
    ensures ShelfOf(Remove(flat, name + k), m) == if name == m then Remove(ShelfOf(flat, m), k) else ShelfOf(flat, m)
  {
    if name == m {
      ShelfRemove(flat, name, k);
    } else {
      ApartKeys(m, name, k);
      OtherRemove(flat, m, name + k);
    }
  }

  // ---- Transactions ----

  /** A transaction: its view of the flat store, and its iterators, numbered in order of opening. */
  class Tx {
    var flat: Pairs
    var iterators: seq<nat>
    var open: set<nat>
    const journal: Journal

    ghost predicate Valid()
      reads this
    {
      && Sorted(flat)
      && (forall i :: 0 <= i < |iterators| ==> iterators[i] == i)
      && (forall it :: it in open ==> 0 <= it < |iterators|)
    }

    constructor (snapshot: Pairs, journal: Journal)
      requires Sorted(snapshot)
      ensures Valid() && flat == snapshot && iterators == [] && open == {} && this.journal == journal
    {
      flat, iterators, open, this.journal := snapshot, [], {}, journal;
    }

    /** badgerShelf.Put: if the engine takes it, one shelf changes, and no shelf apart from it. */
    method Put(name: bytes, key: Key, value: bytes, accepted: bool) returns (ok: bool)
      requires Valid()
      modifies this`flat
      ensures Valid() && ok == accepted
      ensures flat == if ok then Insert(old(flat), name + key.Bytes(), value) else old(flat)
      ensures ok ==> ShelfOf(flat, name) == Insert(old(ShelfOf(flat, name)), key.Bytes(), value)
      ensures forall m: bytes :: Apart(m, name) ==> ShelfOf(flat, m) == old(ShelfOf(flat, m))
    {
      if !accepted {
        return false;
      }
      InsertLaws(flat, name + key.Bytes(), value, []);
      ShelfInsert(flat, name, key.Bytes(), value);
      forall m: bytes | Apart(m, name)
        ensures ShelfOf(Insert(flat, name + key.Bytes(), value), m) == ShelfOf(flat, m)
      {
        PutOnShelf(flat, name, key.Bytes(), value, m);
      }
      flat := Insert(flat, name + key.Bytes(), value);
      return true;
    }

    /** badgerShelf.Delete. */
    method Delete(name: bytes, key: Key, accepted: bool) returns (ok: bool)
      requires Valid()
      modifies this`flat
      ensures Valid() && ok == accepted
      ensures flat == if ok then Remove(old(flat), name + key.Bytes()) else old(flat)
      ensures ok ==> ShelfOf(flat, name) == Remove(old(ShelfOf(flat, name)), key.Bytes())
      ensures forall m: bytes :: Apart(m, name) ==> ShelfOf(flat, m) == old(ShelfOf(flat, m))
    {
      if !accepted {
        return false;
      }
      RemoveLaws(flat, name + key.Bytes(), []);
      ShelfRemove(flat, name, key.Bytes());
      forall m: bytes | Apart(m, name)
        ensures ShelfOf(Remove(flat, name + key.Bytes()), m) == ShelfOf(flat, m)
      {
        DeleteOnShelf(flat, name, key.Bytes(), m);
      }
      flat := Remove(flat, name + key.Bytes());
      return true;
    }

    /** badgerShelf.Get: None is ErrKeyNotFound. */
    method Get(name: bytes, key: Key) returns (value: Option<bytes>)
      ensures value == Find(ShelfOf(flat, name), key.Bytes())
    {
      value := Find(flat, name + key.Bytes());
      ShelfFind(flat, name, key.Bytes());
    }

    method NewIterator()
      requires Valid()
      modifies this`iterators, this`open, journal
      ensures Valid() && |iterators| == |old(iterators)| + 1
      ensures journal.events == old(journal.events) + [IteratorOpened(|old(iterators)|)]
    {
      var it := |iterators|;
      iterators := iterators + [it];
      open := open + {it};
      journal.Note(IteratorOpened(it));
    }

    /** The loop that rollback and commit share. Closing a closed iterator does nothing in Badger. */
    method CloseAll()
      requires Valid()
      modifies this`open, journal
      ensures Valid() && open == {} && journal.events == old(journal.events) + Closes(|iterators|)
    {
      for i := 0 to |iterators|
        invariant Valid() && journal.events == old(journal.events) + Closes(i)
        invariant forall it :: it in open ==> i <= it
      {
        open := open - {iterators[i]};
        journal.Note(IteratorClosed(iterators[i]));
      }
    }

    /** Txn.Discard and Txn.Commit panic on an open iterator. */
    method End(e: TxEvent)
      requires Valid() && open == {} && IsEnd(e)
      modifies journal
      ensures journal.events == old(journal.events) + [e]
    {
      journal.Note(e);
    }

    method Rollback()
      requires Valid()
      modifies this`open, journal
      ensures Valid() && open == {} && journal.events == old(journal.events) + Closes(|iterators|) + [RolledBack]
    {
      CloseAll();
      End(RolledBack);
    }

    method Commit(ok: bool)
      requires Valid()
      modifies this`open, journal
      ensures Valid() && open == {} && journal.events == old(journal.events) + Closes(|iterators|) + [CommitTried(ok)]
    {
      CloseAll();
      End(CommitTried(ok));
    }

    method RunBody(ops: seq<Op>) returns (seen: seq<Option<bytes>>)
      requires Valid() && iterators == []
      modifies this, journal
      ensures Valid() && flat == After(old(flat), ops) && OpsLand(old(flat), ops, flat)
      ensures seen == Reads(old(flat), ops) && AnswersFit(old(flat), ops, seen)
      ensures Iterators(ops) == Before(ops, IsIterator(), |ops|)
      ensures |iterators| == Iterators(ops) && journal.events == old(journal.events) + Opens(Iterators(ops))
    {
      seen := [];
      for i := 0 to |ops|
        invariant Valid() && flat == After(old(flat), ops[..i]) && seen == Reads(old(flat), ops[..i])
        invariant |iterators| == Iterators(ops[..i]) && journal.events == old(journal.events) + Opens(|iterators|)
      {
        assert ops[..i + 1][..i] == ops[..i];
        match ops[i]
        case Put(name, key, value, accepted) =>
          var _ := this.Put(name, key, value, accepted);
        case Delete(name, key, accepted) =>
          var _ := this.Delete(name, key, accepted);
        case Get(name, key) =>
          var value := this.Get(name, key);
          seen := seen + [value];
        case Iterator => NewIterator();
      }
      assert ops[..|ops|] == ops;
      TransactionLands(old(flat), ops);
      ReadsFit(old(flat), ops, |ops|);
      IteratorsCounted(ops);
    }
  }

  predicate IsEnd(e: TxEvent) {
    e.RolledBack? || e.CommitTried?
  }

  datatype Error = NoError | ApplicationError | CommitFailed

  datatype Answers = Answers(ops: seq<Op>, bodyOk: bool, alive: bool, commit: bool)

  predicate Commits(a: Answers, writable: bool) {
    writable && a.bodyOk && a.alive && a.commit
  }

  function EndStep(a: Answers, writable: bool): TxEvent {
    if writable && a.bodyOk && a.alive then CommitTried(a.commit) else RolledBack
  }

  /** Up to the first end of the transaction. */
  function Steps(a: Answers, writable: bool): seq<TxEvent> {
    Opens(Iterators(a.ops)) + [BodyRan] + Closes(Iterators(a.ops)) + [EndStep(a, writable)]
  }

  function HooksDue(a: Answers, writable: bool, opts: seq<TxOption>): seq<nat> {
    if !writable then [] else if Commits(a, writable) then AfterCommits(opts) else OnRollbacks(opts)
  }

  /** What the deferred rollback adds: Badger ignores both a closed iterator's Close and a second Discard. */
  function Deferred(a: Answers): seq<TxEvent> {
    Closes(Iterators(a.ops)) + [RolledBack]
  }

  /** All of one doTX: its steps, its hooks, and the deferred second rollback. */
  function Story(a: Answers, writable: bool, opts: seq<TxOption>): seq<TxEvent> {
    Steps(a, writable) + Calls(HooksDue(a, writable, opts)) + Deferred(a)
  }

  lemma StoryAddsUp(before: seq<TxEvent>, a: Answers, writable: bool, opts: seq<TxOption>)
    ensures before + Story(a, writable, opts) ==
      before + Opens(Iterators(a.ops)) + [BodyRan] + Closes(Iterators(a.ops)) + [EndStep(a, writable)] +
      Calls(HooksDue(a, writable, opts)) + Closes(Iterators(a.ops)) + [RolledBack]
  {
  }

  class Store {
    var flat: Pairs
    const journal: Journal

    constructor (init: Pairs)
      requires Sorted(init)
      ensures Sorted(flat) && flat == init && fresh(journal) && journal.events == []
    {
      flat := init;
      journal := new Journal();
    }

    method DoTX(a: Answers, writable: bool, opts: seq<TxOption>) returns (err: Error, tx: Tx, seen: seq<Option<bytes>>)
      requires Sorted(flat)
      modifies this`flat, journal
      ensures Sorted(flat) && flat == if Commits(a, writable) then After(old(flat), a.ops) else old(flat)
      ensures if writable && err == NoError then OpsLand(old(flat), a.ops, flat) else flat == old(flat)
      ensures AnswersFit(old(flat), a.ops, seen)
      ensures journal.events == old(journal.events) + Story(a, writable, opts) && tx.open == {}
      ensures err == NoError <==> a.bodyOk && (writable ==> a.alive && a.commit)
      ensures err == ApplicationError <==> !a.bodyOk
      ensures err == CommitFailed <==> writable && a.bodyOk && !(a.alive && a.commit)
    {
      AfterIsSorted(flat, a.ops);
      tx := new Tx(flat, journal);
      seen := tx.RunBody(a.ops);
      journal.Note(BodyRan);
      err := Settle(tx, a, writable, opts);
      tx.Rollback();
      StoryAddsUp(old(journal.events), a, writable, opts);
    }

    /** doTX after the body, up to its return; the deferred rollback comes after it. */
    method Settle(tx: Tx, a: Answers, writable: bool, opts: seq<TxOption>) returns (err: Error)
      requires tx.Valid() && tx.journal == journal
      modifies this`flat, journal, tx`open
      ensures tx.Valid() && tx.open == {}
      ensures flat == if Commits(a, writable) then tx.flat else old(flat)
      ensures journal.events == old(journal.events) + Closes(|tx.iterators|) + [EndStep(a, writable)] + Calls(HooksDue(a, writable, opts))
      ensures err == NoError <==> a.bodyOk && (writable ==> a.alive && a.commit)
      ensures err == ApplicationError <==> !a.bodyOk
      ensures err == CommitFailed <==> writable && a.bodyOk && !(a.alive && a.commit)
    {
      if !writable {
        tx.Rollback();
        return if a.bodyOk then NoError else ApplicationError;
      }
      if a.bodyOk {
        var failed := true;
        if !a.alive {
          tx.Rollback();
        } else {
          tx.Commit(a.commit);
          if a.commit {
            flat := tx.flat;
            failed := false;
          }
        }
        if failed {
          journal.InvokeOnRollback(opts);
          return CommitFailed;
        }
        journal.InvokeAfterCommit(opts);
        return NoError;
      }
      tx.Rollback();
      journal.InvokeOnRollback(opts);
      return ApplicationError;
    }
  }

  // ---- Laws ----

  /** On every path Badger honours the options. */
  lemma BadgerHonoursOptions(a: Answers, writable: bool, opts: seq<TxOption>)
    ensures Honours(Steps(a, writable) + Calls(HooksDue(a, writable, opts)), opts, writable)
  {
    var steps := Steps(a, writable);
    StepsAreClean(a, writable);
    DueIsDue(steps, a, writable, opts);
    DueHooksHonour(steps, opts, writable);
  }

  lemma DueIsDue(steps: seq<TxEvent>, a: Answers, writable: bool, opts: seq<TxOption>)
    requires BodyRan in steps && (CommitTried(true) in steps <==> Commits(a, writable))
    ensures Due(steps, opts, writable) == HooksDue(a, writable, opts)
  {
  }

  lemma DeferredIsClean(a: Answers)
    ensures NoHooks(Deferred(a))
  {
  }

  lemma HooksInBetween(before: seq<TxEvent>, fns: seq<nat>, after: seq<TxEvent>)
    requires NoHooks(before) && NoHooks(after)
    ensures HooksOf(before + Calls(fns) + after) == fns
  {
    HooksOfConcat(before, fns);
    NoHooksAfter(before + Calls(fns), after);
  }

  /** The deferred rollback calls no hook again. */
  lemma StoryCallsHooksOnce(a: Answers, writable: bool, opts: seq<TxOption>)
    ensures HooksOf(Story(a, writable, opts)) == HooksDue(a, writable, opts)
  {
    StepsAreClean(a, writable);
    DeferredIsClean(a);
    HooksInBetween(Steps(a, writable), HooksDue(a, writable, opts), Deferred(a));
  }

  lemma StepsAt(a: Answers, writable: bool)
    ensures var steps, n := Steps(a, writable), Iterators(a.ops);
      && |steps| == 2 * n + 2 && steps[n] == BodyRan && steps[2 * n + 1] == EndStep(a, writable)
      && forall i :: 0 <= i < |steps| && i != n && i != 2 * n + 1 ==> steps[i].IteratorOpened? || steps[i].IteratorClosed?
  {
  }

  lemma NoneOf(es: seq<TxEvent>, e: TxEvent)
    requires e !in es
    ensures multiset(es)[e] == 0
  {
    assert e !in multiset(es);
  }

  /** Badger has no lock of its own, and its steps call no hook. */
  lemma StepsAreClean(a: Answers, writable: bool)
    ensures NoHooks(Steps(a, writable)) && BodyRan in Steps(a, writable)
    ensures CommitTried(true) in Steps(a, writable) <==> Commits(a, writable)
    ensures multiset(Steps(a, writable))[Locked] == multiset(Steps(a, writable))[Unlocked] == multiset(Steps(a, writable))[Left] == 0
  {
    var steps := Steps(a, writable);
    StepsAt(a, writable);
    NoneOf(steps, Locked);
    NoneOf(steps, Unlocked);
    NoneOf(steps, Left);
  }

  lemma {:induction false} NoHooksAfter(before: seq<TxEvent>, after: seq<TxEvent>)
    requires NoHooks(after)
    ensures HooksOf(before + after) == HooksOf(before)
  {
    if after == [] {
      assert before + after == before;
    } else {
      NoHooksAfter(before, after[..|after| - 1]);
      assert (before + after)[..|before + after| - 1] == before + after[..|after| - 1];
    }
  }

  /** Before the transaction ends for the first time, and so before every end, each iterator opened has been closed;
      nothing is opened afterwards. */
  lemma IteratorsClosedBeforeEnd(a: Answers, writable: bool, opts: seq<TxOption>, i: nat, j: nat)
    requires i < |Story(a, writable, opts)| && j < |Story(a, writable, opts)|
    requires Story(a, writable, opts)[i].IteratorOpened? && IsEnd(Story(a, writable, opts)[j])
    ensures i < j && exists k :: i < k < j && Story(a, writable, opts)[k] == IteratorClosed(Story(a, writable, opts)[i].it)
  {
    var n, story := Iterators(a.ops), Story(a, writable, opts);
    StoryParts(a, writable, opts);
    assert i < n && j > 2 * n;
    assert story[n + 1 + i] == IteratorClosed(i);
  }

  /** Where things stand in the story. */
  lemma StoryParts(a: Answers, writable: bool, opts: seq<TxOption>)
    ensures var n, h, s := Iterators(a.ops), |HooksDue(a, writable, opts)|, Story(a, writable, opts);
      && |s| == 3 * n + 3 + h
      && (forall i :: 0 <= i < n ==> s[i] == IteratorOpened(i))
      && s[n] == BodyRan
      && (forall i :: n < i <= 2 * n ==> s[i] == IteratorClosed(i - n - 1))
      && s[2 * n + 1] == (if writable && a.bodyOk && a.alive then CommitTried(a.commit) else RolledBack)
      && (forall i :: 2 * n + 1 < i < 2 * n + 2 + h ==> s[i].Called?)
      && (forall i :: 2 * n + 2 + h <= i < 3 * n + 2 + h ==> s[i].IteratorClosed?)
      && s[3 * n + 2 + h] == RolledBack
  {
  }

  /** Hooks run after the transaction's own end and before the deferred rollback. */
  lemma HooksBetweenEnds(a: Answers, writable: bool, opts: seq<TxOption>, i: nat, j: nat)
    requires i < |Story(a, writable, opts)| && j < |Story(a, writable, opts)|
    requires Story(a, writable, opts)[i].Called? && IsEnd(Story(a, writable, opts)[j])
    ensures j < i <==> j < |Story(a, writable, opts)| - 1
    ensures j < i ==> Story(a, writable, opts)[j] == EndStep(a, writable)
  {
    StoryParts(a, writable, opts);
  }
}
