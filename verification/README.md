# go-stoabs, verified

go-stoabs puts one transactional key/value interface (named shelves, ordered `Range` with stop-at-gap, commit and
rollback hooks) over bbolt, Badger and Redis. This project models the repository's own code on top of those engines
and proves what it keeps. `dafny verify dfyconfig.toml` checks everything.

The engines themselves are plain data: bbolt's buckets and Badger's whole database are sorted sequences of pairs
(`SortedStore`), Redis is a map, a token lock with an expiry and one global clock.

## How it is laid out

| file | subject |
|---|---|
| `ByteStrings`, `Codec`, `Keys` | big-endian values and byte order, decimal and hexadecimal text, the three key types and their `Next` |
| `LockProtocol` | `lockWithCancel` as a step relation: any number of calls, two threads each, free interleaving and cancellation |
| `Runs`, `Counting`, `Lasts` | induction along a run, picking elements in order, and the last of several writes |
| `Bodies` | transaction bodies as deterministic programs, and what running alone means |
| `BboltTx` | interleaved bbolt calls on top of `LockProtocol`, with an engine that isolates nothing by itself |
| `RedisTx`, `RedisRuns` | interleaved Redis write transactions under the expiring lock, with a clock, and what their runs come to |
| `Delivery` | how a sequence of verdicts on entries is handed to a callback; shared by every `Range` and `Iterate` |
| `Walks`, `RedisRange`, `RedisIterate`, `RedisNames` | the successor walk, the paged Redis loops, Redis key names |
| `SortedStore`, `FlatShelves`, `CursorRange` | sorted stores, shelves inside Badger's flat store, the bbolt and Badger loops |
| `RangeLaws`, `RangeAgreement` | what each `Range` means, and exactly when two of them agree |
| `Hooks`, `BboltStore`, `BadgerStore`, `RedisStore` | `doTX` of each back end as one call runs it, with its journal of steps and hooks |

## Where the code and its promises part

Each of these is proved. Where a promise holds on some inputs, the condition is stated as an if-and-only-if.

- `lockWithCancel` promises to return at once on cancellation. It can block for good: the goroutine parks on its send
  while it holds the inner mutex that the cancelling caller needs (`LockProtocol.StuckExactlyWhen`, `BlockedForever`,
  `BlockedIsReachable`); `DoomedIffCaused` names the two steps that lead there, and nothing else can stop the system
  (`NoDeadlock`). The lock then stays taken, every later
  writer waits, and behind the first of those every reader.
- A Redis commit that fails at the client may still have been applied, so `OnRollback` hooks can run for a transaction
  whose writes are in the database (`RedisRuns.FailedExecMayCommit`). This is confined to a failed Exec: what is discarded
  before it never commits (`RedisRuns.DiscardedStaysOut`), and success is always a commit (`RedisTx.AcknowledgedIsCommitted`). What
  was sent can still commit iff its lock is not given back and the window is open (`RedisRuns.CanCommitIff`).
- `WithWriteLock` promises a release when the transaction finishes in any way. On Redis the lock is given back iff the
  context is still active at the release and the server carries it out. After the deadline nothing is sent, and after
  a cancellation by the caller the release runs under the cancelled context and fails; either way the lock is left to
  expire (`RedisRuns.GivenBackIff`, `LeftLockKeepsOthersOut`, `RedisStore.CancelledCallLeavesLock`).
- A Redis `Range` whose walk fills its last page exactly, `from` equal to `to` included, ends with an MGET of no keys.
  Whether it succeeds is up to the server (`RedisRange.Server.emptyOk`, `RangeLaws.RedisRangeMeaning`). Pages hold 1001 keys.
- With `stopAtNil` and an absent `from`, Redis gives nothing and bbolt gives the run from the first stored key
  (`RangeAgreement.RedisAgreesWithBboltIff`).
- Badger's gap check reads the prefixed key. For `Uint32Key` and `HashKey` on a named shelf it never fires, so `stopAtNil`
  is met exactly when there is no gap (`RangeLaws.BadgerStopsAtGapIff`).
- For byte keys Badger and bbolt agree under `stopAtNil` iff their tests agree on neighbouring keys up to the first gap
  (`RangeLaws.BadgerAgreesIff`), which keys of one length without leading zeros do. On the keys 00 01 and 00 02 bbolt stops
  after the first and Badger goes on; on 00 01 and 02 Badger stops and bbolt goes on (`RangeLaws.NeighboursCanPart`).
- Badger looks at the context once more after the last entry, so it can report a cancellation that bbolt does not see
  (`RangeLaws.BadgerRangeIsBboltRange`).
- `Uint32Key` text is read back only below 2^31 (`Keys.TextRoundTrip`), so a Redis `Range` fails at the first stored number
  from there on (`RangeLaws.RedisRangeMeaning`).
- `HashKey.Next` panics below 2^248 - 1 and falls back to 2^248 from all-0xff (`Keys.HashNextCases`). A `stopAtNil` range
  over hash keys can panic the same way (`RangeLaws.BboltRangeMeaning`).
- Redis `Iterate` over keys that shelves of the store wrote fails iff a shelf whose name continues this one's after a dot
  has a key, or this shelf has a number from 2^31 on (`RedisIterate.IterateFailsIff`).

## What is assumed

- A context is a number `life`: how many of the loop's checks still find it alive. A callback is any function of all it
  has been given so far, so it may keep state; it answers go on or fail.
- Every Redis writer takes the write lock. The server applies a batch at most the lock's offset (5 s) after the
  transaction's deadline or never, and never after the same call's lock release. Releases and acquisitions are atomic
  and compare the owner's token; a release takes effect only while its context is alive; all parties share one clock. A
  context is alive only before its deadline.
- Each MGET of a Redis call sees a database of its own, which may differ from page to page and may fail
  (`RedisRange.Server.reply`). Laws that speak of one database say so.
- A full SCAN cycle on an unchanged database returns every matching key at least once. It may return keys that hold no
  string; MGET finds nothing there. Glob matching is modelled for literals and `*`; what the server makes of other
  special characters is a parameter.
- The bbolt engine is weak on purpose: bodies read the live database, so isolation has to come from the lock.
- A transaction body is a deterministic function of what it has seen.

## Model

| member | source | states |
|---|---|---|
| LockProtocol.LockSafety | util/mutex.go:59-92 | in every state of every run the lock's bits count its holders (goroutines that took it, callers that got nil and have not unlocked), no unlock is fatal, a writer excludes everyone, one acquisition and at most one release per call |
| LockProtocol.StepIsLocal | util/mutex.go:69-92 | each step changes one call only, and the lock changes exactly as that call's role does: outside, announced writer, holder |
| LockProtocol.RunKeepsInv | util/mutex.go:59-92 | the protocol invariant holds along every interleaving and cancellation |
| LockProtocol.ReturnMeaning | util/mutex.go:81-91 | nil means the caller holds the lock; an error means it does not, and once its goroutine has ended the lock was taken and given back once |
| LockProtocol.QuiescentIsFree | util/mutex.go:69-79 | when all calls and goroutines are through, the lock is free |
| LockProtocol.StuckExactlyWhen | util/mutex.go:69-91 | a call has no step left iff it is finished, waits for the lock (behind a holder or an announced writer), or is parked on the send while its caller waits for the inner mutex |
| LockProtocol.NoDeadlock | util/mutex.go:59-92 | in every reachable state with a call that is not through, some call can step or some caller can unlock, unless a call is doomed to block |
| LockProtocol.StepsRunOut | util/mutex.go:69-91 | every step of a call's own two threads lowers its rank, which is at most ten, and nothing else changes it: a call that is not kept waiting ends |
| LockProtocol.DoomedIffCaused | util/mutex.go:69-86 | a call is doomed to block iff its caller turned to the cancel branch while the goroutine held the inner mutex before its send, or the goroutine took that mutex before the caller that had turned |
| LockProtocol.DoomedForever | util/mutex.go:77-86 | a doomed call stays doomed, and its only step left is the one that parks it on the send |
| LockProtocol.StuckIffNotDoomed | util/mutex.go:69-91 | a call without a step is blocked iff it was doomed, and otherwise it is finished or waits for the lock |
| LockProtocol.BlockedForever | util/mutex.go:77-86 | from the blocked state on no writer is ever admitted again, and nobody at all if the blocked call is a writer or a writer has announced itself |
| LockProtocol.BlockedIsReachable | util/mutex.go:69-86 | a short run reaches the blocked state, for readers and for writers |
| Bodies.ApplyIsLastWriterWins | redis7/redis.go:312-327 | after replaying buffered commands a slot holds what the last write to it says |
| Bodies.UnwrittenStays | redis7/redis.go:312-327 | and a slot that no command writes is as before |
| Bodies.WritesLand | store.go:76-80 | carrying out what a history wrote leaves in every slot what the last write to it in the history says, and every other slot as it was |
| Bodies.AloneReads | store.go:76-80 | a read answers from the database that the body was given, or where own writes count, what the last own write before it left |
| Bodies.AloneFollowsBody | bbolt/bbolt.go:170-171 | every event of a history is the one that the body asked for at that point |
| BboltTx.Serialisable | bbolt/bbolt.go:142-205 | in every interleaving the database is that of running the calls one at a time in lock order, and every body, reader or writer, saw what it sees alone there |
| BboltTx.OrderIsRealTime | bbolt/bbolt.go:142-205 | the serial order only grows and respects real time: a call that began before another one asked for the lock precedes it |
| BboltTx.SameAsSoloRun | bbolt/bbolt.go:160-205 | a finished call's history is the history of any solo run on its predecessors' database |
| BboltTx.CommitLands | bbolt/bbolt.go:188-195 | a step changes the database only by committing a call, and then every slot holds what the last write in that call's history says and no other slot changes |
| BboltTx.BodyReads | bbolt/bbolt.go:160-171 | every body reads the database as it was when its transaction began, with its own writes so far on top, and does what it was asked |
| BboltTx.FinishCommitsIff | bbolt/bbolt.go:173-195 | the end of a body commits iff the call may write, the body succeeded, and context and engine let it |
| BboltTx.CommitIsReachable | bbolt/bbolt.go:142-205 | a run from the start in which a write transaction locks, begins, puts, commits and unlocks |
| BboltTx.LockIsReturned | bbolt/bbolt.go:146-203 | a closed call took its lock once and released it once; when all is over the lock is free |
| BboltTx.RunKeepsInv | bbolt/bbolt.go:142-205 | lock ownership, lock order and views agree in every reachable state |
| BboltTx.WriterRunsAlone | bbolt/bbolt.go:146-151 | while a write transaction has the lock no other transaction has it |
| RedisTx.Serialisable | redis7/redis.go:176-266 | commits are serialisable in commit order: each committed body saw what it sees alone on its predecessors' database, with no commit between its lock grant and its own |
| RedisRuns.CommitsAreRealTime | redis7/redis.go:195-251 | the commit order only grows and respects real time: a call granted the lock before another one started precedes it, even if applied after it had closed |
| RedisRuns.CommitLands | redis7/redis.go:312-327 | a step changes the database only by applying one call's batch, and then every slot holds what the last write in that call's history says and no other slot changes |
| RedisRuns.CommittedReads | redis7/redis.go:195-227 | a committed body read the database as it was when its lock was granted, none of its own writes, did what it was asked, and succeeded |
| RedisRuns.SentInTime | redis7/redis.go:229-251 | a call goes into Exec only with a good body, before its deadline and not cancelled |
| RedisTx.BatchIsProtected | redis7/redis.go:195-251 | whenever the server applies a batch, up to deadline plus offset, the lock is still its owner's and nothing was committed since the grant |
| RedisTx.OnlyOwnerIsProtected | redis7/redis.go:195-203 | up to deadline plus offset the lock cannot be granted to anybody else |
| RedisTx.AcknowledgedIsCommitted | redis7/redis.go:250-265 | success means committed, and whatever is committed had a successful body and passed the context check |
| RedisRuns.DiscardedStaysOut | redis7/redis.go:230-248 | a call that ended without going into Exec, whose body failed, or whose context ended before the check is never among the commits, however long the run goes on |
| RedisRuns.FailedExecMayCommit | redis7/redis.go:251-259 | a run from the start in which Exec reports an error and the batch is applied |
| RedisRuns.FailedExecCommits | redis7/redis.go:251-259 | every reachable state in Exec with the window open can be continued so that Exec fails and the batch is committed |
| RedisRuns.CanCommitIff | redis7/redis.go:207-259 | a batch sent and not yet applied can still commit iff the lock has not been given back and the clock is at most deadline plus offset |
| RedisRuns.GivenBackIff | redis7/redis.go:207-219 | once a call has been in its body, its lock is given back iff a release, sent under a live context, has got through |
| RedisRuns.ReleasedInTime | redis7/redis.go:207-219 | a release that gets through was sent before the deadline under an uncancelled context, and takes away the caller's own lock only |
| RedisRuns.LeftLockKeepsOthersOut | redis7/redis.go:195-211 | a closed call that did not give the lock back keeps everybody else out up to deadline plus offset |
| RedisTx.RunKeepsInv | redis7/redis.go:176-266 | lease, phase, view and commit order stay consistent along every run, the clock included |
| Delivery.DeliverMeaning | store.go:142-159 | the callback gets every entry up to the first end, or up to and including the first entry that it refuses |
| Delivery.DeliverConcat | redis7/redis.go:396-403 | delivering in parts is delivering the whole, with an early stop carried across the boundary |
| Delivery.VerdictAt | redis7/redis.go:422-439 | the i-th step of a delivery obeys the i-th verdict |
| Walks.BytesWalkReachesIff | redis7/redis.go:385-406 | over byte keys the walk arrives iff it is there, or the target is larger and has no leading zero byte |
| Walks.Uint32WalkReaches | redis7/redis.go:385-406 | over numbers the walk arrives after (to - from) mod 2^32 keys |
| Walks.HashWalkReachesIff | redis7/redis.go:385-406 | over hash keys the walk arrives iff it is there, or both keys lie in the part that Next can walk |
| Walks.WalkMonotone | redis7/redis.go:385-389 | more time changes nothing once the walk has ended, and otherwise only adds keys |
| Walks.WalkVisitsOnce | redis7/redis.go:385-406 | a walk that arrives meets no key twice, for every key type, wrapping around included |
| RedisRange.VisitKeys | redis7/redis.go:417-441 | one page delivers its texts' verdicts and says whether to go on |
| RedisRange.Range | redis7/redis.go:381-409 | the paged loop delivers the unpaged walk judged key by key, for every page split, callback, error, gap and cancellation |
| RedisRange.WalkIsPages | redis7/redis.go:394-405 | after whole pages, the next page's verdicts extend the walk's |
| RangeLaws.RedisRangeMeaning | redis7/redis.go:381-409 | an accepting callback gets exactly the stored keys of the walk in order, cut at the first miss under stopAtNil and at the first stored number from 2^31 on; nil error iff no such number was met and a gap stopped it, or the last page was not empty, or the server takes an empty MGET |
| RangeLaws.RedisRangeOffers | redis7/redis.go:385-409 | over one database, however the walk ends: the full pages' keys are offered, and a cancellation, a panic of Next, a gap or an unreadable key ends the call as due |
| RangeLaws.RedisRangeFailsAtPage | redis7/redis.go:418-421 | a failed MGET on page p: what the pages before it give is given, and then the database error, unless a gap or an unreadable key came first |
| RangeLaws.RedisRangeGives | redis7/redis.go:385-440 | the same for any callback, as the entries offered and the outcome due, for every key type and every walk that arrives |
| RangeLaws.RedisRangeVisitsOnce | redis7/redis.go:381-441 | for every callback and every error position: no key is given twice, and what is given is stored |
| RangeLaws.CancelledRangeIsPrefix | redis7/redis.go:386-389 | a cancelled range has delivered a prefix of the range that gets more time |
| RangeLaws.RunIsMaximal | bbolt/bbolt.go:327-330 | the run that stopAtNil delivers is consecutive and cannot be longer |
| RangeLaws.BboltRangeMeaning | bbolt/bbolt.go:315-339 | if the keys in range can be read: exactly the entries from `from` up to `to` in byte order, or under stopAtNil their longest consecutive run from the first; it panics only at a hash key without Next |
| RangeLaws.BboltGivesUntil | bbolt/bbolt.go:318-326 | without stopAtNil, for any time left and any stored keys: the entries up to the ended context or the first unreadable key, and which error |
| RangeLaws.OnlyHashesPanic | key.go:118-125 | only hash keys can cut a run short by a panic |
| RangeLaws.BboltGivesRun | bbolt/bbolt.go:318-337 | the entries offered under stopAtNil are the run, from any previous key that fits |
| RangeLaws.PrefixedNext | badger/badger.go:334-340 | Next of the prefixed key is the prefixed other key exactly when, on a name without a leading zero, the lengths are equal and the value is one more; for every name, all-0xff carries included |
| RangeLaws.BadgerRangeIsBboltRange | badger/badger.go:318-357 | over byte keys, for every shelf name, callback and cancellation, Badger's range is bbolt's if under stopAtNil the neighbouring keys agree, but for the last look at the context, and exactly then |
| RangeLaws.BadgerAgreesIff | badger/badger.go:334-340 | under stopAtNil, with time left and no refusal, the two give the same iff up to the first gap bbolt's test and Badger's agree on every two neighbouring keys |
| RangeLaws.UniformShelvesAgree | badger/badger.go:318-340 | keys of one length without leading zeros always agree, on every shelf name without a leading zero byte |
| RangeLaws.NeighboursCanPart | badger/badger.go:334-340 | two shelves on which they part: bbolt stops and Badger goes on, and the other way round |
| RangeLaws.BadgerIterateIsBboltIterate | badger/badger.go:292-316 | without stopAtNil the two agree for every key type and shelf name |
| RangeLaws.BadgerStopsAtGapIff | badger/badger.go:336-340 | for fixed-size keys on a named shelf stopAtNil is met iff there is no gap |
| RangeAgreement.RedisAgreesWithBboltIff | redis7/redis.go:381-441 | over one shelf of numbers up to 2^31, with an accepted last page, Redis and bbolt deliver the same to every callback iff gaps do not matter, or `from` is stored, or nothing is in range |
| RangeAgreement.WalkUpTo | redis7/redis.go:385-406 | the walk from `from` to a larger number visits the numbers between, once each |
| RangeAgreement.LookupsFindRange | redis7/redis.go:422-439 | looking numbers up one by one finds exactly the items in range |
| RangeAgreement.LookupsFindRun | redis7/redis.go:423-427 | stopping at the first miss finds exactly the unbroken run, if the first number is stored |
| CursorRange.BboltRange | bbolt/bbolt.go:315-339 | the cursor loop delivers the verdicts on the entries in range |
| CursorRange.BboltIterate | bbolt/bbolt.go:294-313 | the cursor loop delivers the verdicts on all entries |
| CursorRange.BadgerRange | badger/badger.go:318-357 | seeking in the flat store delivers the verdicts on the shelf's own entries in range |
| CursorRange.BadgerIterate | badger/badger.go:292-316 | seeking by prefix delivers the verdicts on the whole shelf |
| CursorRange.BadgerEmpty | badger/badger.go:242-253 | true iff no flat key starts with the shelf's name |
| Keys.BytesRoundTrip | key.go:48-53 | FromBytes undoes Bytes, Bytes undoes FromBytes, and it fails exactly on wrong lengths |
| Keys.TextRoundTrip | key.go:55-68 | text survives for hash and byte keys, and for a number iff below 2^31 |
| Keys.TextInjective | key.go:93-95 | two keys of one type with one text are one key |
| Keys.HexKeyFailsIff | key.go:97-112 | hash and byte keys: reading text fails iff it has a foreign character or the wrong length |
| Keys.NumberFailsIff | key.go:59-68 | numbers: reading text fails iff it is not digits after at most one sign, or the value is 2^31 or more, or negative |
| Keys.BytesNextIsMinimalSuccessor | key.go:155-161 | Next is the one byte string without a leading zero whose value is one more |
| Keys.HashNextCases | key.go:118-125 | Next panics below 2^248 - 1, adds one below 2^256 - 1, and falls to 2^248 at the top |
| Keys.OneMoreOrWrapped | key.go:76-161 | for every key type Next is one more in value, or it has wrapped |
| Keys.NoKeyBetween | key.go:39-40 | among keys of one length nothing lies between a key and its larger Next in byte order |
| Codec.ParseDecimal | key.go:55-68 | decimal text is a non-empty run of digits, and parsing the digits gives the number back |
| Codec.HexRoundTrip | key.go:93-104 | decoding undoes encoding, and the text has no dot |
| Codec.DecimalForm | key.go:55-57 | decimal text has no leading zero but in "0", and ends in the last digit |
| Codec.HexForm | key.go:93-95 | hex text spells each byte in two lower-case digits, the high one first |
| ByteStrings.LessIsNumeric | key.go:70-74 | on equal lengths byte order is numeric order |
| ByteStrings.MinBytesOfValue | key.go:155-161 | a byte string without a leading zero is the minimal form of its value |
| SortedStore.InsertLaws | bbolt/bbolt.go:273-278 | a write keeps the store sorted and changes one key |
| SortedStore.RemoveLaws | bbolt/bbolt.go:280-285 | a delete keeps the store sorted and removes one key |
| SortedStore.FindMeansMember | bbolt/bbolt.go:259-271 | a look-up finds exactly the stored pair |
| SortedStore.InRangeIsExact | bbolt/bbolt.go:318-318 | a range holds exactly the entries between its bounds, in increasing order |
| SortedStore.SeekSkipsNothing | bbolt/bbolt.go:318-318 | seeking to the lower bound loses nothing of the range |
| FlatShelves.ShelvesIndependentIff | badger/badger.go:236-240 | puts to one shelf never show in another iff neither name is a prefix of the other |
| FlatShelves.DeletesIndependentIff | badger/badger.go:236-240 | deletes in one shelf never show in another iff neither name is a prefix of the other |
| BadgerStore.TransactionOnShelf | badger/badger.go:236-273 | when the shelves written lie apart, a whole transaction leaves in each shelf the fold of that shelf's own operations: the flat store is a map of shelves |
| FlatShelves.ShelfInsert | badger/badger.go:267-269 | putting under name and key is putting the key in the shelf |
| FlatShelves.ShelfRemove | badger/badger.go:271-273 | deleting under name and key is deleting the key from the shelf |
| FlatShelves.ShelfFind | badger/badger.go:255-265 | getting under name and key is getting the key from the shelf |
| FlatShelves.ShelfIsSorted | badger/badger.go:236-240 | a shelf is in key order |
| FlatShelves.ShelfRange | badger/badger.go:324-332 | a flat range between prefixed bounds is the shelf's range |
| FlatShelves.SeekSkipsNothingOfShelf | badger/badger.go:298-299 | seeking to the name loses nothing of the shelf |
| FlatShelves.ShelfEnds | badger/badger.go:299-299 | after the first key without the prefix the shelf is over |
| RedisNames.RedisKeyRoundTrip | redis7/redis.go:450-472 | fromRedisKey undoes toRedisKey for hash and byte keys, and for a number iff below 2^31 |
| RedisNames.RedisKeyInjective | redis7/redis.go:450-456 | under one prefix a Redis key determines shelf name and key text, dots in names included |
| RedisNames.RedisKeyLayout | redis7/redis.go:450-456 | prefix, colon, name, dot and key text in this order, the first two only with a prefix |
| RedisIterate.Iterate | redis7/redis.go:357-379 | the loop delivers the cycle's pages one after the other and stops at the zero cursor or an error |
| RedisIterate.IterateFailsAtScan | redis7/redis.go:363-366 | a failed SCAN: the database error after what the pages before it gave, unless one of them had ended the call |
| RedisIterate.GlobIsPrefix | redis7/redis.go:362-362 | a literal followed by a star matches exactly what starts with the literal |
| RedisIterate.IterateMeaning | redis7/redis.go:357-379 | over a full cycle of any database only what matching keys read as is given; unless the callback refuses an entry, it fails iff a matching key cannot be read, and otherwise every matching key is given |
| RedisIterate.CycleIsItsTexts | redis7/redis.go:361-377 | page boundaries and empty pages do not matter: a cycle is judged as the list of its keys |
| RedisIterate.PatternIsPrefix | redis7/redis.go:362-362 | without glob characters in prefix and name, the pattern matches exactly what starts with prefix, colon, name and dot |
| RedisIterate.PatternMatchesIff | redis7/redis.go:362-362 | a key of shelf n matches iff n is this shelf or its name goes on after this name and a dot |
| RedisIterate.NestedIsUnreadable | redis7/redis.go:458-472 | no key of such a nested shelf can be read as a key of this one |
| RedisIterate.IterateFailsIff | redis7/redis.go:357-379 | where shelves of the store wrote every key with this prefix, Iterate fails iff a nested shelf has a key or this shelf has a number from 2^31 on |
| RedisIterate.IterateGivesShelf | redis7/redis.go:357-379 | there, it gives only entries of the shelf with their own values, and when it succeeds all of them; other stores' keys and locks may be present |
| RedisIterate.LockKeyMatchesNothing | redis7/redis.go:192-193 | the key of the store's write lock is never taken for a shelf's key |
| Hooks.WriteLockEnabled | store.go:191-198 | true iff the option is in the list |
| Hooks.Journal.InvokeAfterCommit | store.go:212-218 | calls the function of every AfterCommit option, each once, the k-th call being that of the k-th such option |
| Hooks.Journal.InvokeOnRollback | store.go:231-238 | calls the function of every OnRollback option, each once, the k-th call being that of the k-th such option |
| Hooks.AfterCommitsInOrder | store.go:212-222 | the list called after a commit has one entry per AfterCommit option, in registration order |
| Hooks.OnRollbacksInOrder | store.go:231-242 | the list called after a rollback has one entry per OnRollback option, in registration order |
| Hooks.DueHooksHonour | store.go:206-244 | steps without hooks followed by the due list meet the options' contract |
| BboltStore.Store.DoTX | bbolt/bbolt.go:142-205 | database (all writes of a successful writer in order, else unchanged), steps, hooks and each error of one call, on every path |
| BboltStore.BboltHonoursOptions | bbolt/bbolt.go:142-205 | exactly one list is called, in full and in order, AfterCommit iff committed, after the lock release |
| BboltStore.StepsInOrder | bbolt/bbolt.go:146-202 | the lock comes first and its release last, with the body and the end of the transaction between them, once each, and the body iff the transaction begins |
| BadgerStore.Tx.Put | badger/badger.go:267-269 | if the engine takes it, one shelf changes as by a put, and no shelf apart from it; else nothing changes |
| BadgerStore.Tx.Delete | badger/badger.go:271-273 | if the engine takes it, one shelf changes as by a delete, and no shelf apart from it; else nothing changes |
| BadgerStore.Tx.Get | badger/badger.go:255-265 | the shelf's value, own writes included, or not found |
| BadgerStore.Tx.NewIterator | badger/badger.go:195-203 | a new iterator is recorded |
| BadgerStore.Tx.Rollback | badger/badger.go:207-216 | every iterator is closed, then the transaction is discarded |
| BadgerStore.Tx.Commit | badger/badger.go:220-228 | every iterator is closed, then the transaction is committed |
| BadgerStore.Store.DoTX | badger/badger.go:120-162 | flat store (every key as its last accepted write says after a successful writer, else unchanged), answers, error and the one journal of a call |
| BadgerStore.ReadsFit | badger/badger.go:255-269 | one answer per Get, in order: the last accepted write before it to that flat key decides, or else the shelf at the start |
| BadgerStore.TransactionLands | badger/badger.go:267-273 | after the operations every flat key holds what the last accepted write to it says |
| BadgerStore.IteratorsCounted | badger/badger.go:195-203 | one iterator per operation that opens one |
| BadgerStore.IteratorsClosedBeforeEnd | badger/badger.go:205-228 | every iterator is closed after its opening and before any discard or commit |
| BadgerStore.HooksBetweenEnds | badger/badger.go:127-161 | every hook runs after the transaction's own end and before the deferred rollback |
| BadgerStore.StoryCallsHooksOnce | badger/badger.go:120-162 | over the whole call, the deferred rollback included, the hooks called are the due list |
| BadgerStore.BadgerHonoursOptions | badger/badger.go:120-162 | as for bbolt |
| RedisStore.Store.RunBody | redis7/redis.go:312-355 | one reply per Get, in order: failed iff unanswered, else the stored value or not found, whatever the body wrote; writes only fill the pipeline, and a Put that finds the store closed buffers nothing |
| RedisStore.Store.DoTX | redis7/redis.go:176-266 | database, replies, steps, hooks and each error of one call: after success every slot holds what the body's last write says, and every error but a failed commit means nothing has changed |
| RedisStore.ClosedForGood | redis7/redis.go:113-129 | a second Close succeeds and does nothing, and afterwards no transaction starts or leaves a trace |
| RedisStore.CommitIsLastWriterWins | redis7/redis.go:226-263 | after a commit each slot holds what the body's last write to it says |
| RedisStore.RedisHonoursOptions | redis7/redis.go:176-266 | as for bbolt; the lock is given back, or left to expire, once |
| RedisStore.LockGivenBackIff | redis7/redis.go:207-219 | the lock is given back iff the context was active after the body and still is at the release, and the server carries the release out; otherwise it is left to expire |
| RedisStore.StepsInOrder | redis7/redis.go:176-265 | nothing without the lock that was asked for; else the lock first, the body, the end of the transaction, and last the release or the leaving of the lock |
| RedisStore.CancelledCallLeavesLock | redis7/redis.go:213-218 | a call cancelled before its deadline leaves its lock, although the server would release it |

## Left out

- Engine internals: bbolt pages, Badger's LSM tree, value log and conflict detection, the Redis server, the redsync
  quorum. That Badger refuses a write (an empty key, too large a transaction) is an answer of the environment.
- Store creation, connection, configuration and logging.
- Mocks, the shared test suite, test helpers and `util.CallWithTimeout`: thin or generated.
- `Stats` of all back ends; bbolt's `Empty`, which reads them; Redis's `Empty`, a single SCAN.
- bbolt's `Get`, `Put` and `Delete`: one engine call each.
- `NilReader`, the error writer, and error wrapping and message text: errors are small tags.
- Panics inside callbacks, closing a store during a transaction, `Unwrap`, iterating inside an iteration.
- Item buffers that Badger reuses: values are plain sequences, so aliasing does not show.
- `Lock`, `RLock` and the `Try` variants of `ContextRWLocker`: they call the underlying lock directly.
- The fairness of `sync.RWMutex`: a new writer may announce itself before readers that waited for the last one get in,
  which covers more runs than the lock has.
- Progress of a call that is not blocked: who gets a free lock, and when, is up to the scheduler.
- Redis `Read` transactions: they take no lock and are answered from the live database.
- RedisRange.Range: a context that never ends is not modelled, so a walk that never arrives is cut off by `life`.
- BadgerStore.Store.DoTX: one transaction at a time; a concurrent conflict appears only as a refused commit.
