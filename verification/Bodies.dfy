/** Transaction bodies as deterministic programs, and what it means to run them one at a time. */
module Bodies {
  import opened Wrappers

  /** A slot is a shelf and a key; nothing here depends on how either is spelt. */
  type Slot(==, !new)
  type Val(==, !new)
  type Db = map<Slot, Val>

  datatype Cmd = Put(slot: Slot, val: Val) | Delete(slot: Slot)

  /** What the body does next, given everything it has seen so far. */
  datatype Action = Get(slot: Slot) | Do(cmd: Cmd) | Return(ok: bool)
  datatype Event = Read(slot: Slot, result: Option<Val>) | Wrote(cmd: Cmd)
  type History = seq<Event>
  type Body = History -> Action

  function Lookup(db: Db, slot: Slot): Option<Val> {
    if slot in db then Some(db[slot]) else None
  }

  function Apply(db: Db, cmds: seq<Cmd>): Db {
    if cmds == [] then db
    else
      var before := Apply(db, cmds[..|cmds| - 1]);
      match cmds[|cmds| - 1]
      case Put(slot, val) => before[slot := val]
      case Delete(slot) => before - {slot}
  }

  function Writes(h: History): seq<Cmd> {
    if h == [] then []
    else Writes(h[..|h| - 1]) + (match h[|h| - 1] case Wrote(cmd) => [cmd] case Read(_, _) => [])
  }

  /** The database as the body sees it: with its own writes (bbolt) or without them (Redis). */
  function View(ownWrites: bool, base: Db, h: History): Db {
    if ownWrites then Apply(base, Writes(h)) else base
  }

  predicate EventFits(ownWrites: bool, body: Body, base: Db, h: History, e: Event) {
    match e
    case Read(slot, result) => body(h) == Get(slot) && result == Lookup(View(ownWrites, base, h), slot)
    case Wrote(cmd) => body(h) == Do(cmd)
  }

  /** `h` is what the body does and sees when it runs alone on `base`. */
  predicate Alone(ownWrites: bool, body: Body, base: Db, h: History) {
    h == [] ||
    (Alone(ownWrites, body, base, h[..|h| - 1]) && EventFits(ownWrites, body, base, h[..|h| - 1], h[|h| - 1]))
  }

  // ---- Laws ----

  /** What a body has seen decides what it sees next. */
  lemma OneNextEvent(ownWrites: bool, body: Body, base: Db, h: History, e: Event, f: Event)
    requires EventFits(ownWrites, body, base, h, e) && EventFits(ownWrites, body, base, h, f)
    ensures e == f
  {
  }

  lemma {:induction false} AloneAt(ownWrites: bool, body: Body, base: Db, h: History, n: nat)
    requires Alone(ownWrites, body, base, h) && n < |h|
    ensures EventFits(ownWrites, body, base, h[..n], h[n])
  {
    if n < |h| - 1 {
      var init := h[..|h| - 1];
      AloneAt(ownWrites, body, base, init, n);
      assert init[..n] == h[..n] && init[n] == h[n];
    }
  }

  /** Running alone is deterministic: one database gives one history. */
  lemma {:induction false} AloneIsDeterministic(ownWrites: bool, body: Body, base: Db, g: History, h: History)
    requires Alone(ownWrites, body, base, g) && Alone(ownWrites, body, base, h) && |g| <= |h|
    ensures g == h[..|g|]
  {
    if g != [] {
      var n := |g| - 1;
      AloneIsDeterministic(ownWrites, body, base, g[..n], h);
      AloneAt(ownWrites, body, base, g, n);
      AloneAt(ownWrites, body, base, h, n);
      OneNextEvent(ownWrites, body, base, g[..n], g[n], h[n]);
      assert g == g[..n] + [g[n]] && h[..|g|] == h[..n] + [h[n]];
    }
  }

  lemma {:induction false} AlonePrefix(ownWrites: bool, body: Body, base: Db, h: History, n: nat)
    requires Alone(ownWrites, body, base, h) && n <= |h|
    ensures Alone(ownWrites, body, base, h[..n])
  {
    if n == |h| {
      assert h[..n] == h;
    } else {
      AlonePrefix(ownWrites, body, base, h[..|h| - 1], n);
      assert h[..|h| - 1][..n] == h[..n];
    }
  }

  /** Two finished histories of one body on one database are the same. */
  lemma FinishedAloneIsUnique(ownWrites: bool, body: Body, base: Db, g: History, h: History)
    requires Alone(ownWrites, body, base, g) && Alone(ownWrites, body, base, h)
    requires body(g).Return? && body(h).Return?
    ensures g == h
  {
    var s, l := if |g| <= |h| then g else h, if |g| <= |h| then h else g;
    AloneIsDeterministic(ownWrites, body, base, s, l);
    if |s| < |l| {
      NotFinishedBefore(ownWrites, body, base, l, |s|);
    } else {
      assert l[..|s|] == l;
    }
  }

  /** A history only goes on where the body has not returned. */
  lemma NotFinishedBefore(ownWrites: bool, body: Body, base: Db, h: History, n: nat)
    requires Alone(ownWrites, body, base, h) && n < |h|
    ensures !body(h[..n]).Return?
  {
    AlonePrefix(ownWrites, body, base, h, n + 1);
    assert h[..n + 1][..n] == h[..n];
  }

  lemma AloneExtends(ownWrites: bool, body: Body, base: Db, h: History, e: Event)
    requires Alone(ownWrites, body, base, h) && EventFits(ownWrites, body, base, h, e)
    ensures Alone(ownWrites, body, base, h + [e])
  {
    assert (h + [e])[..|h + [e]| - 1] == h;
  }

  function SlotOf(c: Cmd): Slot {
    c.slot
  }

  predicate LastWrite(cmds: seq<Cmd>, slot: Slot, i: int) {
    0 <= i < |cmds| && SlotOf(cmds[i]) == slot && forall j :: i < j < |cmds| ==> SlotOf(cmds[j]) != slot
  }

  function Effect(c: Cmd): Option<Val> {
    if c.Put? then Some(c.val) else None
  }

  lemma ApplyLast(db: Db, cmds: seq<Cmd>, slot: Slot)
    requires cmds != []
    ensures var n := |cmds| - 1;
      Lookup(Apply(db, cmds), slot) == if SlotOf(cmds[n]) == slot then Effect(cmds[n]) else Lookup(Apply(db, cmds[..n]), slot)
  {
  }

  lemma {:induction false} UnwrittenStays(db: Db, cmds: seq<Cmd>, slot: Slot)
    requires forall i :: 0 <= i < |cmds| ==> SlotOf(cmds[i]) != slot
    ensures Lookup(Apply(db, cmds), slot) == Lookup(db, slot)
  {
    if cmds != [] {
      var init := cmds[..|cmds| - 1];
      assert forall i :: 0 <= i < |init| ==> init[i] == cmds[i];
      ApplyLast(db, cmds, slot);
      UnwrittenStays(db, init, slot);
    }
  }

  /** Replaying a buffer is last-writer-wins, slot by slot: UnwrittenStays is the other half. */
  lemma {:induction false} ApplyIsLastWriterWins(db: Db, cmds: seq<Cmd>, slot: Slot, i: nat)
    requires LastWrite(cmds, slot, i)
    ensures Lookup(Apply(db, cmds), slot) == Effect(cmds[i])
  {
    var n := |cmds| - 1;
    ApplyLast(db, cmds, slot);
    if i < n {
      var init := cmds[..n];
      assert forall j :: 0 <= j < |init| ==> init[j] == cmds[j];
      assert LastWrite(init, slot, i);
      ApplyIsLastWriterWins(db, init, slot, i);
    }
  }

  /** The commands, all of them and in order, have been carried out on `before`. */
  ghost predicate CmdsLand(before: Db, cmds: seq<Cmd>, after: Db) {
    forall slot ::
      && ((forall i :: 0 <= i < |cmds| ==> SlotOf(cmds[i]) != slot) ==> Lookup(after, slot) == Lookup(before, slot))
      && (forall i :: LastWrite(cmds, slot, i) ==> Lookup(after, slot) == if cmds[i].Put? then Some(cmds[i].val) else None)
  }

  lemma ApplyLands(before: Db, cmds: seq<Cmd>)
    ensures CmdsLand(before, cmds, Apply(before, cmds))
  {
    forall slot
      ensures (forall i :: 0 <= i < |cmds| ==> SlotOf(cmds[i]) != slot) ==> Lookup(Apply(before, cmds), slot) == Lookup(before, slot)
      ensures forall i :: LastWrite(cmds, slot, i) ==> Lookup(Apply(before, cmds), slot) == if cmds[i].Put? then Some(cmds[i].val) else None
    {
      if forall i :: 0 <= i < |cmds| ==> SlotOf(cmds[i]) != slot {
        UnwrittenStays(before, cmds, slot);
      }
      forall i | LastWrite(cmds, slot, i)
        ensures Lookup(Apply(before, cmds), slot) == if cmds[i].Put? then Some(cmds[i].val) else None
      {
        ApplyIsLastWriterWins(before, cmds, slot, i);
      }
    }
  }

  // ---- What a history means for a database ----

  predicate WroteTo(e: Event, slot: Slot) {
    e.Wrote? && e.cmd.slot == slot
  }

  /** Among the first `n` events none writes the slot. */
  predicate Untouched(h: History, slot: Slot, n: nat) {
    n <= |h| && forall j :: 0 <= j < n ==> !WroteTo(h[j], slot)
  }

  /** Among the first `n` events the i-th is the last one that writes the slot. */
  predicate LastWrote(h: History, slot: Slot, n: nat, i: int) {
    0 <= i < n <= |h| && WroteTo(h[i], slot) && forall j :: i < j < n ==> !WroteTo(h[j], slot)
  }

  /** What the first `n` events make of a slot: its last write's value or absence, or what was there before. */
  ghost predicate Holds(before: Option<Val>, h: History, slot: Slot, n: nat, after: Option<Val>) {
    && (Untouched(h, slot, n) ==> after == before)
    && (forall i :: LastWrote(h, slot, n, i) ==> after == if h[i].cmd.Put? then Some(h[i].cmd.val) else None)
  }

  /** The whole history has been carried out on `before`, slot by slot. */
  ghost predicate Lands(before: Db, h: History, after: Db) {
    forall slot :: Holds(Lookup(before, slot), h, slot, |h|, Lookup(after, slot))
  }

  lemma ApplyOneMore(db: Db, cmds: seq<Cmd>, cmd: Cmd)
    ensures Apply(db, cmds + [cmd]) == if cmd.Put? then Apply(db, cmds)[cmd.slot := cmd.val] else Apply(db, cmds) - {cmd.slot}
  {
    assert (cmds + [cmd])[..|cmds|] == cmds;
  }

  lemma OneEventMore(base: Db, h: History, slot: Slot)
    requires h != []
    ensures var n := |h| - 1;
      Lookup(Apply(base, Writes(h)), slot) ==
        if !WroteTo(h[n], slot) then Lookup(Apply(base, Writes(h[..n])), slot)
        else if h[n].cmd.Put? then Some(h[n].cmd.val) else None
  {
    var n := |h| - 1;
    if h[n].Wrote? {
      assert Writes(h) == Writes(h[..n]) + [h[n].cmd];
      ApplyOneMore(base, Writes(h[..n]), h[n].cmd);
    } else {
      assert Writes(h) == Writes(h[..n]);
    }
  }

  lemma HoldsWritten(before: Option<Val>, h: History, slot: Slot, after: Option<Val>)
    requires h != [] && WroteTo(h[|h| - 1], slot)
    requires after == if h[|h| - 1].cmd.Put? then Some(h[|h| - 1].cmd.val) else None
    ensures Holds(before, h, slot, |h|, after)
  {
    var n := |h| - 1;
    assert WroteTo(h[n], slot);
    assert forall i :: LastWrote(h, slot, |h|, i) ==> i == n;
  }

  lemma LastWroteInit(h: History, slot: Slot, i: int)
    requires h != [] && !WroteTo(h[|h| - 1], slot) && LastWrote(h, slot, |h|, i)
    ensures 0 <= i < |h| - 1 && LastWrote(h[..|h| - 1], slot, |h| - 1, i)
  {
    var n := |h| - 1;
    var init := h[..n];
    assert i != n;
    assert forall j :: 0 <= j < n ==> init[j] == h[j];
  }

  lemma UntouchedInit(h: History, slot: Slot)
    requires h != [] && Untouched(h, slot, |h|)
    ensures Untouched(h[..|h| - 1], slot, |h| - 1)
  {
  }

  lemma HoldsUnwritten(before: Option<Val>, h: History, slot: Slot, after: Option<Val>)
    requires h != [] && !WroteTo(h[|h| - 1], slot) && Holds(before, h[..|h| - 1], slot, |h| - 1, after)
    ensures Holds(before, h, slot, |h|, after)
  {
    if Untouched(h, slot, |h|) {
      UntouchedInit(h, slot);
    }
    forall i | LastWrote(h, slot, |h|, i)
      ensures after == if h[i].cmd.Put? then Some(h[i].cmd.val) else None
    {
      LastWroteInit(h, slot, i);
      assert h[..|h| - 1][i] == h[i];
    }
  }

  lemma {:induction false} WritesLandAt(base: Db, h: History, slot: Slot)
    ensures Holds(Lookup(base, slot), h, slot, |h|, Lookup(Apply(base, Writes(h)), slot))
  {
    if h != [] {
      var n := |h| - 1;
      OneEventMore(base, h, slot);
      if WroteTo(h[n], slot) {
        HoldsWritten(Lookup(base, slot), h, slot, Lookup(Apply(base, Writes(h)), slot));
      } else {
        WritesLandAt(base, h[..n], slot);
        HoldsUnwritten(Lookup(base, slot), h, slot, Lookup(Apply(base, Writes(h)), slot));
      }
    }
  }

  /** Replaying what a history wrote carries the history out. */
  lemma WritesLand(base: Db, h: History)
    ensures Lands(base, h, Apply(base, Writes(h)))
  {
    forall slot
      ensures Holds(Lookup(base, slot), h, slot, |h|, Lookup(Apply(base, Writes(h)), slot))
    {
      WritesLandAt(base, h, slot);
    }
  }

  /** A read answers from the database that the body was given, or where own writes count with what the writes before
      it in the history have made of that. */
  ghost predicate ReadFits(ownWrites: bool, base: Db, h: History, n: nat) {
    n < |h| && h[n].Read? ==>
      if ownWrites then Holds(Lookup(base, h[n].slot), h, h[n].slot, n, h[n].result) else h[n].result == Lookup(base, h[n].slot)
  }

  ghost predicate ReadsFit(ownWrites: bool, base: Db, h: History) {
    forall n: nat :: n < |h| ==> ReadFits(ownWrites, base, h, n)
  }

  lemma HoldsInPrefix(before: Option<Val>, h: History, slot: Slot, n: nat, after: Option<Val>)
    requires n <= |h| && Holds(before, h[..n], slot, n, after)
    ensures Holds(before, h, slot, n, after)
  {
    assert Untouched(h, slot, n) ==> Untouched(h[..n], slot, n);
    assert forall i :: LastWrote(h, slot, n, i) ==> LastWrote(h[..n], slot, n, i);
  }

  /** Every event is the one that the body asked for at that point. */
  predicate FollowsBody(body: Body, h: History) {
    forall n :: 0 <= n < |h| ==> body(h[..n]) == if h[n].Wrote? then Do(h[n].cmd) else Get(h[n].slot)
  }

  lemma AloneFollowsBody(ownWrites: bool, body: Body, base: Db, h: History)
    requires Alone(ownWrites, body, base, h)
    ensures FollowsBody(body, h)
  {
    forall n | 0 <= n < |h|
      ensures body(h[..n]) == if h[n].Wrote? then Do(h[n].cmd) else Get(h[n].slot)
    {
      AloneAt(ownWrites, body, base, h, n);
    }
  }

  lemma AloneReads(ownWrites: bool, body: Body, base: Db, h: History)
    requires Alone(ownWrites, body, base, h)
    ensures ReadsFit(ownWrites, base, h)
  {
    forall n: nat | n < |h|
      ensures ReadFits(ownWrites, base, h, n)
    {
      if h[n].Read? {
        AloneAt(ownWrites, body, base, h, n);
        if ownWrites {
          WritesLandAt(base, h[..n], h[n].slot);
          HoldsInPrefix(Lookup(base, h[n].slot), h, h[n].slot, n, h[n].result);
        }
      }
    }
  }

  // ---- The simplest writer ----

  function PutOnce(slot: Slot, val: Val): Body {
    h => if h == [] then Do(Put(slot, val)) else Return(true)
  }

  lemma PutOnEmpty(slot: Slot, val: Val)
    ensures Apply(map[], Writes([Wrote(Put(slot, val))])) == map[slot := val]
  {
    var e := Wrote(Put(slot, val));
    assert [e][..0] == [] && Writes([e]) == [Put(slot, val)] && [Put(slot, val)][..0] == [];
    assert Apply(map[], [Put(slot, val)]) == map[slot := val];
  }
}
