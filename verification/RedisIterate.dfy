/** Iterate over Redis: a SCAN cycle by name pattern, every page fetched and read back. */
module RedisIterate {
  import opened ByteStrings
  import opened Codec
  import opened Delivery
  import opened Keys
  import opened RangeLaws
  import opened RedisNames
  import opened RedisRange
  import opened Wrappers

  const SPECIAL: string := "?[\\"

  /** Redis glob matching; `special` stands for whatever the server makes of `?`, `[` and the backslash. */
  predicate Glob(pattern: string, s: string, special: (string, string) -> bool)
    decreases |pattern| + |s|
  {
    if pattern == "" then s == ""
    else if pattern[0] == '*' then Glob(pattern[1..], s, special) || (s != "" && Glob(pattern, s[1..], special))
    else if pattern[0] in SPECIAL then special(pattern, s)
    else s != "" && s[0] == pattern[0] && Glob(pattern[1..], s[1..], special)
  }

  predicate Literal(s: string) {
    '*' !in s && '?' !in s && '[' !in s && '\\' !in s
  }

  lemma {:induction false} StarMatchesAll(s: string, special: (string, string) -> bool)
    ensures Glob("*", s, special)
    decreases |s|
  {
    assert "*"[1..] == "";
    if s != "" {
      StarMatchesAll(s[1..], special);
    }
  }

  /** A literal followed by a star matches exactly what starts with the literal. */
  lemma {:induction false} GlobIsPrefix(literal: string, s: string, special: (string, string) -> bool)
    requires Literal(literal)
    ensures Glob(literal + "*", s, special) <==> literal <= s
  {
    if literal == "" {
      assert literal + "*" == "*";
      StarMatchesAll(s, special);
    } else {
      assert (literal + "*")[1..] == literal[1..] + "*";
      if s != "" {
        GlobIsPrefix(literal[1..], s[1..], special);
        assert literal == [literal[0]] + literal[1..] && s == [s[0]] + s[1..];
      }
    }
  }

  /** toRedisKey(BytesKey("")) + "*". */
  function Pattern(sh: Shelf): string {
    sh.ToRedisKey(BytesKey([])) + "*"
  }

  // ---- The loop ----

  /** The replies of one SCAN cycle, up to the one whose cursor is zero; None is a failed request. */
  type Cycle = seq<Option<seq<string>>>

  function CycleVerdicts(sh: Shelf, srv: Server, like: Key, cycle: Cycle, page: nat): seq<Verdict>
    requires page <= |cycle|
    decreases |cycle| - page
  {
    if page == |cycle| then []
    else match cycle[page]
      case None => [End(Database)]
      case Some(keys) =>
        (if keys == [] then [] else PageVerdicts(sh, srv, page, like, false, keys)) + CycleVerdicts(sh, srv, like, cycle, page + 1)
  }

  /** shelf.Iterate: the loop ends after the reply that brings the cursor back to zero. */
  method Iterate(sh: Shelf, srv: Server, cycle: Cycle, cb: Callback, keyType: Key) returns (trace: Trace, outcome: Outcome)
    requires cycle != []
    ensures Stopped(trace, outcome) == IterateResult(sh, srv, keyType, cycle, cb)
  {
    trace := [];
    var page := 0;
    while true
      invariant page < |cycle|
      invariant Close(Deliver(CycleVerdicts(sh, srv, keyType, cycle, 0), cb, [])) ==
        Close(Deliver(CycleVerdicts(sh, srv, keyType, cycle, page), cb, trace))
      decreases |cycle| - page
    {
      var keys := cycle[page];
      if keys.None? {
        return trace, Database;
      }
      if |keys.value| > 0 {
        ghost var vs, rest := PageVerdicts(sh, srv, page, keyType, false, keys.value), CycleVerdicts(sh, srv, keyType, cycle, page + 1);
        DeliverConcat(vs, rest, cb, trace);
        var proceed;
        proceed, trace, outcome := VisitKeys(sh, srv, page, keys.value, cb, keyType, false, trace);
        if outcome != Finished {
          return;
        }
      } else {
        assert CycleVerdicts(sh, srv, keyType, cycle, page) == CycleVerdicts(sh, srv, keyType, cycle, page + 1);
      }
      if page + 1 == |cycle| {
        break;
      }
      page := page + 1;
    }
    outcome := Finished;
  }

  // ---- What a complete cycle delivers ----

  /** The stored texts that the shelf's pattern matches. */
  ghost function Matches(sh: Shelf, db: map<string, bytes>, special: (string, string) -> bool): set<string> {
    set t | t in db && Glob(Pattern(sh), t, special)
  }

  /** A full SCAN cycle on an unchanged database: every matching key at least once, and no other that holds a string. */
  ghost predicate CompleteCycle(sh: Shelf, db: map<string, bytes>, cycle: Cycle, special: (string, string) -> bool) {
    && (forall i :: 0 <= i < |cycle| ==> cycle[i].Some?)
    && (forall i, t :: 0 <= i < |cycle| && t in cycle[i].value && t in db ==> t in Matches(sh, db, special))
    && (forall t :: t in Matches(sh, db, special) ==> exists i :: 0 <= i < |cycle| && t in cycle[i].value)
  }

  /** All texts of a cycle, from a page on. */
  function Scanned(cycle: Cycle, page: nat): seq<string>
    requires page <= |cycle|
    decreases |cycle| - page
  {
    if page == |cycle| then []
    else (match cycle[page] case None => [] case Some(keys) => keys) + Scanned(cycle, page + 1)
  }

  lemma {:induction false} ScannedIs(cycle: Cycle, page: nat, t: string)
    requires page <= |cycle| && forall i :: 0 <= i < |cycle| ==> cycle[i].Some?
    ensures t in Scanned(cycle, page) <==> exists i :: page <= i < |cycle| && t in cycle[i].value
    decreases |cycle| - page
  {
    if page < |cycle| {
      ScannedIs(cycle, page + 1, t);
    }
  }

  lemma CompleteCycleScans(sh: Shelf, db: map<string, bytes>, cycle: Cycle, special: (string, string) -> bool)
    requires CompleteCycle(sh, db, cycle, special)
    ensures forall t :: t in db ==> (t in Scanned(cycle, 0) <==> t in Matches(sh, db, special))
  {
    forall t | t in db
      ensures t in Scanned(cycle, 0) <==> t in Matches(sh, db, special)
    {
      ScannedIs(cycle, 0, t);
    }
  }

  lemma TextVerdictsConcat(sh: Shelf, db: map<string, bytes>, like: Key, a: seq<string>, b: seq<string>)
    ensures TextVerdicts(sh, db, like, false, a + b) == TextVerdicts(sh, db, like, false, a) + TextVerdicts(sh, db, like, false, b)
  {
  }

  /** On one database the pages do not matter: a cycle is judged as the list of its texts. */
  lemma {:induction false} CycleIsItsTexts(sh: Shelf, srv: Server, db: map<string, bytes>, like: Key, cycle: Cycle, page: nat)
    requires page <= |cycle| && (forall p :: srv.reply(p) == Some(db)) && (forall i :: 0 <= i < |cycle| ==> cycle[i].Some?)
    ensures CycleVerdicts(sh, srv, like, cycle, page) == TextVerdicts(sh, db, like, false, Scanned(cycle, page))
    decreases |cycle| - page
  {
    if page < |cycle| {
      CycleIsItsTexts(sh, srv, db, like, cycle, page + 1);
      assert srv.reply(page) == Some(db);
      TextVerdictsConcat(sh, db, like, cycle[page].value, Scanned(cycle, page + 1));
    }
  }

  /** `e` is what reading back the stored text `t` gives. */
  predicate ReadsAs(sh: Shelf, db: map<string, bytes>, like: Key, t: string, e: Entry) {
    t in db && sh.FromRedisKey(t, like) == Some(e.key) && db[t] == e.value
  }

  ghost predicate ComesFrom(sh: Shelf, db: map<string, bytes>, like: Key, among: set<string>, e: Entry) {
    exists t :: t in among && ReadsAs(sh, db, like, t, e)
  }

  ghost predicate IsGiven(sh: Shelf, db: map<string, bytes>, like: Key, given: Trace, t: string) {
    exists e :: e in given && ReadsAs(sh, db, like, t, e)
  }

  predicate AllReadable(sh: Shelf, db: map<string, bytes>, like: Key, texts: seq<string>) {
    forall i :: 0 <= i < |texts| && texts[i] in db ==> sh.FromRedisKey(texts[i], like).Some?
  }

  lemma GivenCons(sh: Shelf, db: map<string, bytes>, like: Key, first: Entry, given: Trace, head: string)
    requires ReadsAs(sh, db, like, head, first)
    ensures IsGiven(sh, db, like, [first] + given, head)
    ensures forall t :: IsGiven(sh, db, like, given, t) ==> IsGiven(sh, db, like, [first] + given, t)
  {
    assert first in [first] + given;
    forall t | IsGiven(sh, db, like, given, t)
      ensures IsGiven(sh, db, like, [first] + given, t)
    {
      var e :| e in given && ReadsAs(sh, db, like, t, e);
      assert e in [first] + given;
    }
  }

  /** Entries come from the texts; when all texts can be read, from each of them. */
  lemma {:induction false} TextsGive(sh: Shelf, db: map<string, bytes>, like: Key, texts: seq<string>, among: set<string>)
    requires forall t :: t in texts && t in db ==> t in among
    ensures forall e :: e in Gives(TextVerdicts(sh, db, like, false, texts)) ==> ComesFrom(sh, db, like, among, e)
    ensures FirstEnd(TextVerdicts(sh, db, like, false, texts)) == (if AllReadable(sh, db, like, texts) then Finished else BadKey)
    ensures AllReadable(sh, db, like, texts) ==> forall t :: t in texts && t in db ==> IsGiven(sh, db, like, Gives(TextVerdicts(sh, db, like, false, texts)), t)
  {
    if texts != [] {
      var head, rest := texts[0], texts[1..];
      var v, vs := KeyVerdict(sh, db, like, false, head), TextVerdicts(sh, db, like, false, rest);
      TextsGive(sh, db, like, rest, among);
      assert TextVerdicts(sh, db, like, false, texts) == [v] + vs;
      HeadVerdict(v, vs);
      assert AllReadable(sh, db, like, texts) <==> (head in db ==> sh.FromRedisKey(head, like).Some?) && AllReadable(sh, db, like, rest);
      if v.Give? {
        assert ReadsAs(sh, db, like, head, v.entry) && head in texts;
        assert forall t :: t in texts ==> t == head || t in rest;
        GivenCons(sh, db, like, v.entry, Gives(vs), head);
      }
    }
  }

  ghost predicate SomeUnreadable(sh: Shelf, like: Key, texts: set<string>) {
    exists t :: t in texts && sh.FromRedisKey(t, like) == None
  }

  function IterateResult(sh: Shelf, srv: Server, like: Key, cycle: Cycle, cb: Callback): Result {
    Close(Deliver(CycleVerdicts(sh, srv, like, cycle, 0), cb, []))
  }

  /** shelf.Iterate over a complete cycle of any database, whatever its pages and its callback: it gives only what
      matching texts read as; unless the callback refuses an entry it fails iff a matching text cannot be read, and
      otherwise every matching text is given. */
  lemma IterateMeaning(sh: Shelf, srv: Server, db: map<string, bytes>, like: Key, cycle: Cycle, cb: Callback, special: (string, string) -> bool)
    requires CompleteCycle(sh, db, cycle, special) && forall p :: srv.reply(p) == Some(db)
    ensures var r := IterateResult(sh, srv, like, cycle, cb);
      && r.outcome in {Finished, BadKey, Application}
      && (r.outcome == Application ==> r.trace != [] && !cb(r.trace))
      && (r.outcome != Application ==> (r.outcome == BadKey <==> SomeUnreadable(sh, like, Matches(sh, db, special))))
      && (forall e :: e in r.trace ==> ComesFrom(sh, db, like, Matches(sh, db, special), e))
      && (r.outcome == Finished ==> forall t :: t in Matches(sh, db, special) ==> IsGiven(sh, db, like, r.trace, t))
  {
    var texts := Scanned(cycle, 0);
    CompleteCycleScans(sh, db, cycle, special);
    CycleIsItsTexts(sh, srv, db, like, cycle, 0);
    TextsGive(sh, db, like, texts, Matches(sh, db, special));
    DeliverMeaning(CycleVerdicts(sh, srv, like, cycle, 0), cb);
    AllReadableOrNot(sh, db, like, texts, Matches(sh, db, special));
  }

  lemma AllReadableOrNot(sh: Shelf, db: map<string, bytes>, like: Key, texts: seq<string>, matches: set<string>)
    requires forall t :: t in texts && t in db <==> t in matches
    ensures AllReadable(sh, db, like, texts) <==> !SomeUnreadable(sh, like, matches)
  {
    if !AllReadable(sh, db, like, texts) {
      var i :| 0 <= i < |texts| && texts[i] in db && sh.FromRedisKey(texts[i], like) == None;
      assert texts[i] in texts;
    }
  }

  /** A SCAN that fails: the database error, after what the pages before it have given. */
  lemma {:induction false} FailedScan(sh: Shelf, srv: Server, like: Key, cycle: Cycle, failed: nat, page: nat)
    requires page <= failed < |cycle| && cycle[failed] == None && forall i :: 0 <= i < failed ==> cycle[i].Some?
    ensures CycleVerdicts(sh, srv, like, cycle, page) == CycleVerdicts(sh, srv, like, cycle[..failed], page) + [End(Database)]
    decreases failed - page
  {
    if page < failed {
      FailedScan(sh, srv, like, cycle, failed, page + 1);
      assert cycle[..failed][page] == cycle[page];
    }
  }

  /** So Iterate ends there, unless a page before it has already ended it. */
  lemma IterateFailsAtScan(sh: Shelf, srv: Server, like: Key, cycle: Cycle, failed: nat, cb: Callback)
    requires failed < |cycle| && cycle[failed] == None && forall i :: 0 <= i < failed ==> cycle[i].Some?
    ensures var before := Deliver(CycleVerdicts(sh, srv, like, cycle[..failed], 0), cb, []);
      IterateResult(sh, srv, like, cycle, cb) == if before.Going? then Stopped(before.trace, Database) else before
  {
    FailedScan(sh, srv, like, cycle, failed, 0);
    DeliverConcat(CycleVerdicts(sh, srv, like, cycle[..failed], 0), [End(Database)], cb, []);
  }

  // ---- Which texts match ----

  lemma PrefixForm(sh: Shelf, text: string)
    ensures sh.Join(text) == sh.Join("") + text
  {
    var shelf := sh.name + ".";
    assert shelf + "" == shelf;
    if |sh.prefix| > 0 {
      assert sh.prefix + ":" + (shelf + text) == (sh.prefix + ":" + shelf) + text;
    }
  }

  /** Without glob characters in prefix and name the pattern matches what starts with prefix, colon, name and dot. */
  lemma PatternIsPrefix(sh: Shelf, t: string, special: (string, string) -> bool)
    requires Literal(sh.prefix) && Literal(sh.name)
    ensures Glob(Pattern(sh), t, special) <==> sh.Join("") <= t
  {
    assert Pattern(sh) == sh.Join("") + "*";
    GlobIsPrefix(sh.Join(""), t, special);
  }

  /** Among the shelves of one store the pattern matches this shelf's keys, and those of every shelf whose name goes
      on after this name and a dot. */
  lemma PatternMatchesIff(sh: Shelf, n: string, k: Key, special: (string, string) -> bool)
    requires Literal(sh.prefix) && Literal(sh.name)
    ensures Glob(Pattern(sh), Shelf(sh.prefix, n).ToRedisKey(k), special) <==> n == sh.name || sh.name + "." <= n
  {
    var text, other := k.String(), Shelf(sh.prefix, n);
    PatternIsPrefix(sh, other.Join(text), special);
    if sh.Join("") <= other.Join(text) {
      var rest := other.Join(text)[|sh.Join("")|..];
      assert other.Join(text) == sh.Join("") + rest;
      PrefixForm(sh, rest);
      TextHasNoDot(k);
      DottedNames(sh.prefix, sh.name, rest, n, text);
    } else if n == sh.name {
      PrefixForm(sh, text);
    } else if sh.name + "." <= n {
      PrefixForm(sh, n[|sh.name| + 1..] + "." + text);
      NestedName(sh, n, text);
    }
  }

  /** The key of a shelf nested under this name, as a text of this shelf. */
  lemma NestedName(sh: Shelf, n: string, text: string)
    requires sh.name + "." <= n
    ensures Shelf(sh.prefix, n).Join(text) == sh.Join(n[|sh.name| + 1..] + "." + text)
  {
    var more := n[|sh.name| + 1..];
    assert n == sh.name + "." + more;
    assert n + "." + text == sh.name + "." + (more + "." + text);
  }

  lemma DottedNames(prefix: string, m: string, t: string, n: string, u: string)
    requires '.' !in u && Shelf(prefix, m).Join(t) == Shelf(prefix, n).Join(u)
    ensures n == m || m + "." <= n
  {
    var v, w := m + "." + t, n + "." + u;
    if |prefix| > 0 {
      assert Shelf(prefix, m).Join(t) == (prefix + ":") + v && Shelf(prefix, n).Join(u) == (prefix + ":") + w;
      assert v == Shelf(prefix, m).Join(t)[|prefix + ":"|..] && w == Shelf(prefix, n).Join(u)[|prefix + ":"|..];
    }
    assert v == w && v[|m|] == '.';
    assert forall i :: |n| < i < |w| ==> w[i] == u[i - |n| - 1];
    assert m == v[..|m|] && n == w[..|n|];
    if |m| < |n| {
      assert n[..|m| + 1] == v[..|m| + 1] == m + ".";
    }
  }

  /** No key of a nested shelf can be read as this shelf's. */
  lemma NestedIsUnreadable(sh: Shelf, n: string, k: Key, like: Key)
    requires sh.name + "." <= n
    ensures sh.FromRedisKey(Shelf(sh.prefix, n).ToRedisKey(k), like) == None
  {
    var more := n[|sh.name| + 1..];
    var rest := more + "." + k.String();
    NestedName(sh, n, k.String());
    FromRedisKeyOfJoin(sh, rest, like);
    assert rest[|more|] == '.';
    DotIsUnreadable(rest, |more|, like);
  }

  // ---- Databases that only this repository writes ----

  /** `t` is key `k` of shelf `n`. */
  predicate IsKeyOf(prefix: string, n: string, k: Key, t: string) {
    t == Shelf(prefix, n).ToRedisKey(k)
  }

  /** A stored text that this shelf's Iterate cannot read: a key of a nested shelf, or a number from 2^31 on. */
  ghost predicate Spoils(sh: Shelf, db: map<string, bytes>, like: Key, t: string) {
    t in db && exists n, k :: IsKeyOf(sh.prefix, n, k, t) && (sh.name + "." <= n || (n == sh.name && SameType(like, k) && Unreadable(k)))
  }

  /** Every stored text with this shelf's prefix was written through some shelf of the store, and into this shelf only
      keys of one type. Nothing is asked of other texts: other stores' keys, locks, other shelves. */
  ghost predicate WrittenByShelves(sh: Shelf, db: map<string, bytes>, like: Key) {
    forall t :: t in db && sh.Join("") <= t ==> exists n, k :: IsKeyOf(sh.prefix, n, k, t) && (n == sh.name ==> SameType(like, k))
  }

  lemma UnreadableIffSpoilt(sh: Shelf, db: map<string, bytes>, like: Key, special: (string, string) -> bool, t: string)
    requires Literal(sh.prefix) && Literal(sh.name) && WrittenByShelves(sh, db, like)
    ensures t in Matches(sh, db, special) && sh.FromRedisKey(t, like) == None <==> Spoils(sh, db, like, t)
  {
    PatternIsPrefix(sh, t, special);
    assert Shelf(sh.prefix, sh.name) == sh;
    if Spoils(sh, db, like, t) {
      var n, k :| IsKeyOf(sh.prefix, n, k, t) && (sh.name + "." <= n || (n == sh.name && SameType(like, k) && Unreadable(k)));
      PatternMatchesIff(sh, n, k, special);
      if n == sh.name {
        RedisKeyRoundTrip(sh, k, like);
      } else {
        NestedIsUnreadable(sh, n, k, like);
      }
    } else if t in Matches(sh, db, special) {
      var n, k :| IsKeyOf(sh.prefix, n, k, t) && (n == sh.name ==> SameType(like, k));
      PatternMatchesIff(sh, n, k, special);
      assert !(sh.name + "." <= n) && n == sh.name;
      RedisKeyRoundTrip(sh, k, like);
    }
  }

  /** When Iterate fails: iff a shelf nested under this name by a dot has a key, or this one has a number from 2^31 on. */
  lemma IterateFailsIff(sh: Shelf, srv: Server, db: map<string, bytes>, like: Key, cycle: Cycle, cb: Callback, special: (string, string) -> bool)
    requires Literal(sh.prefix) && Literal(sh.name) && WrittenByShelves(sh, db, like)
    requires CompleteCycle(sh, db, cycle, special) && forall p :: srv.reply(p) == Some(db)
    ensures var r := IterateResult(sh, srv, like, cycle, cb);
      r.outcome != Application ==> (r.outcome == BadKey <==> exists t :: Spoils(sh, db, like, t))
  {
    IterateMeaning(sh, srv, db, like, cycle, cb, special);
    if SomeUnreadable(sh, like, Matches(sh, db, special)) {
      var t :| t in Matches(sh, db, special) && sh.FromRedisKey(t, like) == None;
      UnreadableIffSpoilt(sh, db, like, special, t);
    }
    if t :| Spoils(sh, db, like, t) {
      UnreadableIffSpoilt(sh, db, like, special, t);
    }
  }

  /** The key of the store's own write lock never matches. */
  lemma LockKeyMatchesNothing(sh: Shelf, special: (string, string) -> bool)
    requires Literal(sh.prefix) && Literal(sh.name)
    ensures !Glob(Pattern(sh), "lock_" + sh.prefix, special)
  {
    var p, lock := sh.prefix, "lock_" + sh.prefix;
    PatternIsPrefix(sh, lock, special);
    assert |p| == 0 ==> sh.Join("")[|sh.name|] == '.' && '.' !in lock;
    assert |p| > 0 ==> sh.Join("")[..|p|] == p && sh.Join("")[|p|] == ':';
    if |p| > 0 && sh.Join("") <= lock {
      NoColonInEcho(p, |p|);
    }
  }

  lemma {:induction false} NoColonInEcho(p: string, i: nat)
    requires p <= "lock_" + p && i <= |p|
    ensures ("lock_" + p)[i] != ':'
  {
    if i >= 5 {
      NoColonInEcho(p, i - 5);
      assert p[i - 5] == ("lock_" + p)[i - 5] == ("lock_" + p)[i];
    }
  }

  /** `e` is stored in the shelf. */
  predicate IsStored(sh: Shelf, db: map<string, bytes>, like: Key, e: Entry) {
    SameType(like, e.key) && sh.ToRedisKey(e.key) in db && db[sh.ToRedisKey(e.key)] == e.value
  }

  lemma ReadIsStored(sh: Shelf, db: map<string, bytes>, like: Key, special: (string, string) -> bool, t: string, e: Entry)
    requires Literal(sh.prefix) && Literal(sh.name) && WrittenByShelves(sh, db, like)
    requires t in Matches(sh, db, special) && ReadsAs(sh, db, like, t, e)
    ensures IsStored(sh, db, like, e) && t == sh.ToRedisKey(e.key)
  {
    PatternIsPrefix(sh, t, special);
    var n, k :| IsKeyOf(sh.prefix, n, k, t) && (n == sh.name ==> SameType(like, k));
    PatternMatchesIff(sh, n, k, special);
    assert Shelf(sh.prefix, sh.name) == sh;
    if n == sh.name {
      RedisKeyRoundTrip(sh, k, like);
    } else {
      NestedIsUnreadable(sh, n, k, like);
    }
  }

  /** What Iterate gives: only entries of the shelf, each with its own value, and when it succeeds all of them. */
  lemma IterateGivesShelf(sh: Shelf, srv: Server, db: map<string, bytes>, like: Key, cycle: Cycle, cb: Callback, special: (string, string) -> bool)
    requires Literal(sh.prefix) && Literal(sh.name) && WrittenByShelves(sh, db, like)
    requires CompleteCycle(sh, db, cycle, special) && forall p :: srv.reply(p) == Some(db)
    ensures var r := IterateResult(sh, srv, like, cycle, cb);
      && (forall e :: e in r.trace ==> IsStored(sh, db, like, e))
      && (r.outcome == Finished ==> forall e :: IsStored(sh, db, like, e) ==> e in r.trace)
  {
    IterateMeaning(sh, srv, db, like, cycle, cb, special);
    var r := IterateResult(sh, srv, like, cycle, cb);
    forall e | e in r.trace
      ensures IsStored(sh, db, like, e)
    {
      assert ComesFrom(sh, db, like, Matches(sh, db, special), e);
      var t :| t in Matches(sh, db, special) && ReadsAs(sh, db, like, t, e);
      ReadIsStored(sh, db, like, special, t, e);
    }
    forall e | r.outcome == Finished && IsStored(sh, db, like, e)
      ensures e in r.trace
    {
      var t := sh.ToRedisKey(e.key);
      PatternMatchesIff(sh, sh.name, e.key, special);
      assert Shelf(sh.prefix, sh.name) == sh && t in Matches(sh, db, special);
      assert IsGiven(sh, db, like, r.trace, t);
      var f :| f in r.trace && ReadsAs(sh, db, like, t, f);
      RedisKeyRoundTrip(sh, e.key, like);
    }
  }

  lemma DotIsUnreadable(s: string, i: nat, like: Key)
    requires i < |s| && s[i] == '.'
    ensures like.FromString(s) == None
  {
    match like
    case Uint32Key(_) =>
      var digits := if s[0] == '-' || s[0] == '+' then s[1..] else s;
      DotIsNoDigit(digits, if digits == s then i else i - 1);
    case HashKey(_) => DotIsNoHex(s, i);
    case BytesKey(_) => DotIsNoHex(s, i);
  }

  lemma {:induction false} DotIsNoDigit(s: string, i: nat)
    requires i < |s| && s[i] == '.'
    ensures ParseDigits(s) == None
  {
    if i < |s| - 1 {
      DotIsNoDigit(s[..|s| - 1], i);
    }
  }

  lemma {:induction false} DotIsNoHex(s: string, i: nat)
    requires i < |s| && s[i] == '.'
    ensures HexDecode(s) == None
  {
    if i >= 2 {
      DotIsNoHex(s[2..], i - 2);
    }
  }
}
