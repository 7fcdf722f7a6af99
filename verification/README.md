# A verified model of the toki sync server

toki-sync receives usage events and rate-limit windows from many devices, stores them once, and
answers queries about them. This project models the parts of the server in which a mistake would
lose or double-count data without anyone noticing, and proves what those parts promise.

`dafny verify dfyconfig.toml` checks everything.

## What is modelled

**The embedded event store** (`ByteStrings`, `EventKeys`, `EventSpaces`, `EventStore`,
`EventHistory`, `EventQueries`, `EventAnswers`). `EventStore.FjallEventStore` is a class over the four keyspaces
that share one logical table. Its methods read the committed state, queue operations and commit them
as one batch, in order. Each method is proved equal to a transition on the value `Spaces`, and
`EventHistory` proves what any sequence of transitions does: what is inside retention is exactly the
newest delivered event of every logical key, and it is proved exactly when, without pruning, the
final four keyspaces depend only on which events were delivered. `EventAnswers` carries this through
to what a query reports. Store keys are structured values; `EventKeys` proves that the
byte layout identifies them, orders them by time, and supports the prefix and range scans that
`EventQueries` runs.

**The sync pipeline** (`SyncPipeline`, `SyncResets`). Receive, write, advance the cursor, prune, acknowledge, as a
state machine with any number of connections and a failure or crash after every step. The handler
method is proved to be a run of that machine. `SyncResets` adds the purge on a schema mismatch.

**Rate-limit windows** (`Windows`, `WindowConvergence`, `WindowSanitize`, `WindowPremerge`,
`WindowStores`, `WindowBackends`, `WindowSync`, `WindowQueries`). The field-wise merge, sanitising, pre-merging, the
item-by-item keyspace and the versioned ClickHouse table, up to the reply the client gets, and
reading the windows back.

**Protocols over shared state**: `ActiveCache` (the generation-stamped cache of users' active
status), `Migration` (the restartable rebuild of the ClickHouse windows table), `MonitorSettings`
(the compare-and-swap and quota transaction), `Framing` (the wire format).

**The query engine** (`Durations`, `Buckets`, `Sums`, `Tallies`, `Aggregator`, `QueryCeiling`,
`QueryLexer`, `QueryGrammar`, `QueryParser`). The duration parser, bucketing, the capped and saturating
aggregator, and the cursor-based query parser, proved against a grammar in both directions.

## Where the code and its documentation differ

The model follows the code. Each of these is a proved statement.

- *Tie order.* Within a batch the first of two equally new events wins, across batches the later one
  (`EventStore.Best`, `EventHistory.DeliveryOrderMatters`). "Re-sending produces the same result"
  holds if and only if no newest event of a logical key ties with a different one
  (`EventHistory.DeliveriesConverge`).
- *Owner changes.* `upsert_one` clears a predecessor's user-index entry only through the dedup
  pointer. A pruned row of another user that is overwritten in place leaves its entry behind
  (`EventSpaces.UpsertUserIndexed`, `EventHistory.RunValid`,
  `EventHistory.OwnerChangeStrandsIndexEntry`), and not even a purge of the device removes that
  (`EventSpaces.PurgeComplete`, `EventHistory.PurgeLeavesStrandedEntry`).
- *Negative bounds.* A negative `since_ms` encodes above every stored key, so the full scan finds
  nothing, while the index scan finds everything (`EventQueries.ScanBothWays`,
  `EventQueries.NegativeBoundMissesRow`).
- *Cutoff underflow.* For a batch dated close to the least 64-bit timestamp the prune cutoff wraps
  around to a large positive one (in a build without overflow checks), and every dedup pointer of
  the device below it is forgotten (`SyncPipeline.CutoffWraps`).
- *Limit 0.* Both scans notice the limit only after taking a row, so a limit of 0 returns one row
  (`EventQueries.Page`).
- *NUL bytes.* The batch's provider is not validated; a logical key with a NUL in device or provider
  always shares its store key with another one (`EventKeys.MsgBytesCollideWithNul`).
- *Windows of disputed length* need not converge (`Windows.LengthsMustAgree`); they do exactly when
  their observations settle (`WindowConvergence.MergingsConverge`).
- *"Stable" rejects* are described as never becoming valid by waiting. A row whose only fault is
  `first_seen > observed` does become valid once the two-year floor passes its first-seen time,
  provided it ends after that time (`WindowSanitize.StableRejectRevives`,
  `WindowSanitize.RejectedForGoodRevives`).
- *Account deletion* deletes the user's row after its eviction, not before. If a second
  administrator reactivates the user in between, a lookup can leave `active = true` cached for a user
  that no longer exists (`ActiveCache.CacheIsCoherent`, `ActiveCache.DeleteAfterReactivationIsStale`).
- *EXCHANGE that takes effect but reports an error* makes the rename fallback swap the old table
  back in; rows stay safe, the column is missing until the next start (`Migration.CompletedStartup`,
  `Migration.LostAnswerSwapsBack`).
- *Staged tables.* A rebuild that dies before its last statement leaves its copy of the outdated
  table in `toki_windows_v2`, and no later startup looks for it again
  (`Migration.CompletedStartupTables`, `Migration.StagedTableStays`).
- *Wall clock.* A windows row written to ClickHouse under an earlier clock value than a stored
  version of its key is ignored, so an upload has its effect exactly when no row it has to change
  is ahead (`WindowBackends.UpsertWindows`, `WindowBackends.ClockSetBackLosesPeak`).
- *Smaller replacements* of a setting are said never to be refused for quota; they are when the user
  is over the quota already, as after the limit was lowered (`MonitorSettings.SmallerReplacement`,
  `MonitorSettings.LoweredQuotaRefusesSmaller`).
- *Schema-mismatch resets* delete the rows of all providers of a device and reset the cursor of one,
  so a second provider's cursor can outrun what is stored (`SyncResets.ResetsKeepInv`,
  `SyncResets.OtherProviderOutruns`).
- *The event ceiling* is logged as flagging the response, but an aggregated answer is not flagged
  (`QueryCeiling.UnmarkedIsComplete`, `QueryCeiling.UnmarkedShortAnswer`).
- *Clamped observations* are resent with a later clock and so keep moving their row
  (`WindowSync.ClampedResendMovesRow`).
- *Negative timestamps* are rounded up into the next bucket, off boundaries (`Buckets.BucketHolds`),
  which can lie past the end of the range (`Aggregator.SelectedIsCounted`).
- *Signs.* A plain duration may carry a plus sign, because the integer parser takes one
  (`Durations.IsPlain`).

## Assumptions

Write batches are atomic and apply in order. A query reads one committed state. Statements of SQLite,
Postgres and ClickHouse take effect one at a time; a user's settings writes and deletions hold that
user's row lock until they end. Of two ClickHouse versions of a row with one clock value the later
insert survives. Codecs (bincode, zstd, serde) are total on well-formed values.
Clocks, random choices, faults and the order of steps are parameters, and the theorems hold for all
of them. Integers are unbounded except where the code's width matters: counters that saturate,
checked durations, the wrapping generation counter and prune cutoff, big-endian `i64` keys, `u32` frame headers.

## Model

| member | source | states |
|---|---|---|
| `EventKeys.RowBytesInjective` | src/events/fjall_store.rs:315-325 | NUL-free components: distinct events have distinct keys |
| `EventKeys.MsgBytesInjective` | src/events/fjall_store.rs:328-336 | NUL-free components: distinct logical keys have distinct dedup keys |
| `EventKeys.UserBytesInjective` | src/events/fjall_store.rs:341-347 | distinct user-index entries have distinct keys |
| `EventKeys.MsgBytesCollideWithNul` | src/events/fjall_store.rs:328-336 | a logical key shares its dedup key with another one of NUL-free device and provider if and only if it has a NUL there itself |
| `EventKeys.MsgBytesUnique` | src/events/fjall_store.rs:328-336 | it shares its dedup key with any other logical key if and only if some component contains a NUL |
| `EventKeys.RowOrder` | src/events/fjall_store.rs:315-325 | byte order of keys with different timestamps is time order, negative timestamps behind all others |
| `EventKeys.RangeStart` | src/events/fjall_store.rs:421-460 | a range scan from an encoded bound sees exactly the rows at or above it, and none for a negative bound |
| `EventKeys.TimestampReadsBack` | src/events/fjall_store.rs:368-377 | the timestamp reads back from the head of a row key and from behind the user of an index key |
| `EventKeys.UserPrefix` | src/events/fjall_store.rs:493-520 | a prefix scan for one user sees that user's entries and no other's |
| `EventKeys.DevicePrefix` | src/events/fjall_store.rs:652-700 | a prefix scan for one device sees that device's dedup pointers and no other's |
| `EventSpaces.UpsertOpsApply` | src/events/fjall_store.rs:351-412 | operations computed from the committed state act on any state that agrees about the event as an upsert there would |
| `EventSpaces.UpsertKeyed` | src/events/fjall_store.rs:351-412 | dedup pointers keep naming existing rows of their own logical key, sessions keep belonging to rows |
| `EventSpaces.UpsertUserIndexed` | src/events/fjall_store.rs:382-411 | the per-user index stays exact if and only if no forgotten row of another user is overwritten |
| `EventSpaces.UpsertsCommute` | src/events/fjall_store.rs:547-602 | upserts of different logical keys commute, so the order of a batch's winners is immaterial |
| `EventSpaces.PruneValid` | src/events/fjall_store.rs:652-700 | forgetting dedup pointers keeps every invariant of the four keyspaces |
| `EventSpaces.PurgeExact` | src/events/fjall_store.rs:702-767 | after a device purge rows, pointers and sessions mention the device no more, the user index only by entries that were stray before, and everything of other devices is untouched |
| `EventSpaces.PurgeComplete` | src/events/fjall_store.rs:702-767 | the device is gone from all four keyspaces if and only if it had no stray index entry; a consistent store has none |
| `EventStore.Best` | src/events/fjall_store.rs:574-582 | the winner of a logical key in a batch is one of its events and none in the batch is newer |
| `EventStore.FirstOfEquals` | src/events/fjall_store.rs:574-582 | the winner is the first event of its key that reaches the greatest timestamp: all earlier ones are strictly older |
| `EventStore.UpsertAllAnyOrder` | src/events/fjall_store.rs:574-602 | the winners of a batch can be written in any order |
| `EventStore.FjallEventStore.UpsertOne` | src/events/fjall_store.rs:351-412 | queues exactly the operations of one upsert against the committed state |
| `EventStore.FjallEventStore.UpsertEvents` | src/events/fjall_store.rs:547-602 | one committed batch equals upserting the batch's winners one after another |
| `EventStore.FjallEventStore.CleanupOldDedup` | src/events/fjall_store.rs:652-700 | the dedup pointers afterwards are those that are not the device's or name a row at or above the cutoff; the other three keyspaces are as before |
| `EventStore.FjallEventStore.DeleteDeviceEvents` | src/events/fjall_store.rs:702-767 | removes exactly the device's rows, pointers, index entries and sessions |
| `EventStore.FjallEventStore.Backfill` | src/events/fjall_store.rs:260-297 | dying at any commit leaves only true index entries, and the marker only over a complete index; enough commits finish it |
| `EventStore.BackfillPass` | src/events/fjall_store.rs:270-292 | the chunked loop behind that |
| `EventHistory.RunFaithful` | src/events/fjall_store.rs:351-412 | the invariant of every run: each row stems from a delivery, rows above the cutoff are the ones pointed to, newest events above it are held |
| `EventHistory.RetentionExact` | src/events/fjall_store.rs:547-602 | after any run of deliveries, prunes and purges, the rows at or above a device's largest cutoff are exactly the newest delivered events there, one each, with their sessions |
| `EventHistory.ForgetExact` | src/events/fjall_store.rs:652-700 | after a prune at any point of a run no pointer of the device names a row below the cutoff; every other pointer, and every row, index entry and session, is as before |
| `EventHistory.RunValid` | src/events/fjall_store.rs:351-412 | the four-keyspace invariant holds throughout a run if and only if no delivered winner overwrites a forgotten row of another user |
| `EventHistory.UpsertAllIndexed` | src/events/fjall_store.rs:547-602 | a batch keeps the per-user index exact if and only if none of its winners strands an entry |
| `EventHistory.OneOwnerIsValid` | src/events/fjall_store.rs:382-411 | in particular when a device changes owner only while it has no rows |
| `EventHistory.OwnerChangeStrandsIndexEntry` | src/events/fjall_store.rs:382-411 | deliver, prune, deliver the same key again: the index survives that run if and only if the owner is the same |
| `EventHistory.PurgeLeavesStrandedEntry` | src/events/fjall_store.rs:702-767 | deliver, prune, deliver under another user, purge the device: the old user's index entry is all that is left |
| `EventHistory.DeliveriesConverge` | src/events/mod.rs:56-62 | without pruning, any order, splitting and repetition of the same events ends in the same four keyspaces, if and only if no newest event ties with a different one |
| `EventHistory.DeliveryOrderMatters` | src/events/fjall_store.rs:367-382 | two single deliveries commute if and only if they are not different events with one key and timestamp |
| `EventAnswers.RunScannable` | src/events/fjall_store.rs:315-412 | clean deliveries, prunes and purges leave keyspaces the scans can rely on |
| `EventAnswers.QueriesReportNewest` | src/events/fjall_store.rs:604-650 | after any run, an answer with room lists an event at or above its cutoff once if it is the newest delivered of its key, in the window and of a user asked for, otherwise not at all |
| `EventAnswers.QueryAfter` | src/events/fjall_store.rs:604-624 | the same of the per-user query as it runs |
| `EventAnswers.QueryAllAfter` | src/events/fjall_store.rs:604-650 | the same of the query for all users as it runs, whoever the user of an event is |
| `EventAnswers.QueryTeamAfter` | src/events/fjall_store.rs:619-640 | the same of the query for several users as it runs |
| `EventQueries.ScanKeys` | src/events/fjall_store.rs:421-487 | the scan loop returns the matching keys of the window in order, cut at the limit |
| `EventQueries.ScanEvents` | src/events/fjall_store.rs:421-487 | the full scan returns the rows of the window that match the filter, in key order, cut at the limit |
| `EventQueries.ScanUserEvents` | src/events/fjall_store.rs:493-543 | the index scan returns exactly the user's rows of the window, same order, sessions and limit cut as a filtered full scan |
| `EventQueries.ScanBothWays` | src/events/fjall_store.rs:421-543 | the results of the two scans are equal if and only if the bound is non-negative or the user has nothing in the window |
| `EventQueries.NegativeBoundMissesRow` | src/events/fjall_store.rs:421-543 | a store and a bound of -1 at which they differ |
| `EventQueries.QueryEvents` | src/events/fjall_store.rs:604-650 | one user: the rows of the window with that user in key order, cut at the limit; all users: all rows of the window, or nothing for a negative bound; several users: each user's share in turn, from the room the earlier ones left |
| `EventQueries.TeamQueryComplete` | src/events/fjall_store.rs:619-640 | for distinct users and room enough, the multi-user query is a permutation of the filtered full scan |
| `SyncPipeline.NoAcknowledgedLoss` | src/sync/handler.rs:432-463 | any interleaving, failing or crashing anywhere: a cursor never exceeds the newest stored timestamp (or 0), and every acknowledged event has a stored row at least as new, below its cursor |
| `SyncPipeline.CursorsOnlyAdvance` | src/db/sqlite.rs:612-650 | a cursor a client was given never goes back |
| `SyncPipeline.HandlerFollowsProtocol` | src/sync/handler.rs:677-825 | one call of the handler, with any batch and any fault, is a run of the protocol with the same store and cursors, and answers with success exactly when the protocol acknowledges |
| `SyncPipeline.AnswersAreStored` | src/sync/handler.rs:432-463 | in every reachable state, what may be answered next - a positive cursor, or the newest timestamp of a batch about to be acknowledged - is reached by a stored row of that device and provider |
| `SyncPipeline.SyncHandler.HandleSyncBatch` | src/sync/handler.rs:677-825 | store, cursors and reply after the call, for every fault: the reply names the newest timestamp of the batch (the stored cursor for an empty one), the cursor is no lower, a row that new is stored, and no pointer older than the retention remains after an undisturbed call |
| `SyncPipeline.CutoffWraps` | src/sync/handler.rs:810-822 | the prune cutoff is the intended one if and only if it does not underflow 64 bits; then it turns positive |
| `SyncResets.ResetExact` | src/sync/handler.rs:336-358 | the protocol's invariant survives a schema-mismatch reset if and only if no other cursor of the device is positive and no batch of it is written but not acknowledged |
| `SyncResets.ResetsKeepInv` | src/sync/handler.rs:336-358 | throughout a run with resets cursors are bounded by stored rows, and what was acknowledged since the last reset is stored, if and only if every reset is harmless |
| `SyncResets.OtherProviderOutruns` | src/sync/handler.rs:336-358 | a device that syncs one provider and resets another is left with a positive cursor and no rows |
| `Windows.MergeWireWindows` | src/events/mod.rs:135-179 | the merge field by field; peak and flags never fall, active time stays within the window |
| `Windows.MergeAbsorbs` | src/events/mod.rs:135-179 | merging an observation twice equals merging it once, for every stored row |
| `Windows.MergeSelf` | src/events/mod.rs:135-179 | a row absorbs itself if and only if its active time fits its length |
| `Windows.MergeUnchanged` | src/events/mod.rs:135-179 | an observation changes nothing in a row if and only if no field of it goes beyond the row's |
| `Windows.MergeCommutes` | src/events/mod.rs:135-179 | two observations merge alike in both orders if and only if equal observation times imply equal last-writer fields, and two unknown first-seen times are the same |
| `Windows.LengthsMustAgree` | src/events/mod.rs:160-172 | three observations that disagree about the length merge differently in different orders |
| `WindowConvergence.ResultSummarizes` | src/events/mod.rs:135-179 | any tree of merges yields a newest observation's fields, the maxima, the earliest instants and the ORs of its observations, and active time within its length |
| `WindowConvergence.MergingsConverge` | src/events/mod.rs:90-98 | any order, grouping and duplication of observations yields one row, if and only if the newest agree and the active time the newest length holds is kept by an observation that no observation as new is too short for |
| `WindowConvergence.SharedLengthSettles` | src/events/mod.rs:135-179 | in particular when all share the length and equally new ones agree |
| `WindowSanitize.SanitizeWindowBatch` | src/sync/handler.rs:124-194 | the in-place passes compute the specified batch and counters |
| `WindowSanitize.NewestFirstSorts` | src/sync/handler.rs:163-174 | the cap's sort is descending, a permutation, and stable |
| `WindowSanitize.CountsAddUp` | src/sync/handler.rs:124-194 | rejects, over-cap rows and kept rows account for the whole batch, and at most 2000 are kept |
| `WindowSanitize.KeptExactly` | src/sync/handler.rs:84-194 | kept are exactly the rows within the limits - strings of 64 bytes without control characters, kinds 0 and 1, 1 to 44,640 minutes, fraction up to 1000, sample gap from minus a day, two years back, 40 and 41 days ahead - with observation, first-seen and active time brought into range, unless 2000 rows that end no earlier fill the cap |
| `WindowSanitize.LimitsExact` | src/sync/handler.rs:84-187 | the stable and transient checks are those limits, and the three repairs together are one clamp of three fields |
| `WindowSanitize.RejectsExact` | src/sync/handler.rs:124-149 | the counters are the number of malformed rows, and of premature ones among the others |
| `WindowSanitize.RejectsCounted` | src/sync/handler.rs:139-149 | a retry is requested exactly when some row is merely premature; permanent rejects are counted exactly when there are any |
| `WindowSanitize.KeptIsNewest` | src/sync/handler.rs:163-174 | kept and over-cap rows are all the valid rows, and no over-cap row ends after a kept one |
| `WindowSanitize.KeptRowsInBounds` | src/sync/handler.rs:128-187 | every kept row was observed between two years ago and a minute ahead, first seen before that (and not before 1970, from 1972 on), and active no longer than it lasts |
| `WindowSanitize.PassingRowKept` | src/sync/handler.rs:139-174 | a valid row is kept unless 2000 rows that end no earlier fill the cap |
| `WindowSanitize.RepairedPassesAgain` | src/sync/handler.rs:91-187 | a repaired row passes again unchanged at the same clock if and only if its observation time is not negative |
| `WindowSanitize.SanitizeTwice` | src/sync/handler.rs:124-194 | sanitising twice at one clock changes nothing and rejects nothing the second time, if and only if no kept row was observed before 1970; always from 1972 on |
| `WindowSanitize.StableRejectRevives` | src/sync/handler.rs:84-109 | when exactly a permanently rejected row becomes acceptable at a later clock, and until when it cannot |
| `WindowSanitize.RejectedForGoodRevives` | src/sync/handler.rs:84-109 | a row that is rejected as permanent and accepted two years later |
| `WindowSanitize.TransientRejectArrives` | src/sync/handler.rs:111-118 | when exactly a premature row becomes acceptable at a later clock; until then it is never rejected as permanent |
| `WindowPremerge.PremergeWindows` | src/sync/handler.rs:204-229 | one row per window identity, each a merge of exactly its duplicates, and every identity present |
| `WindowStores.RowIdBytesInjective` | src/events/fjall_store.rs:184-197 | distinct windows have distinct row keys, and the anchor reads back from the last eight bytes |
| `WindowStores.FjallWindows.UpsertWindows` | src/events/fjall_store.rs:769-822 | the keyspace after the items, and how many met a future-version value |
| `WindowStores.FutureStays` | src/events/fjall_store.rs:783-817 | values of a future version survive every batch untouched and are never created |
| `WindowStores.StoreAllAt` | src/events/fjall_store.rs:783-817 | items with distinct keys act on their rows independently, and no other row changes |
| `WindowStores.RowAfter` | src/events/fjall_store.rs:783-817 | an item fills an absent or damaged row, leaves one of a future version as it is, and is merged into any other |
| `WindowStores.RefusedExactly` | src/events/fjall_store.rs:769-822 | counted as refused are exactly the items whose row is of a future version |
| `WindowStores.FjallWindows.CleanupOldWindows` | src/events/fjall_store.rs:866-912 | bounded passes leave exactly the rows whose anchor is at or after the cutoff, and count the others |
| `WindowStores.ResendIsNoOp` | src/events/fjall_store.rs:769-822 | storing a pre-merged batch a second time changes no row |
| `WindowStores.BatchUnchanged` | src/events/fjall_store.rs:783-817 | a batch of distinct keys changes no row if and only if each item is absorbed by the row it meets |
| `WindowStores.ResumeCompletes` | src/events/fjall_store.rs:783-817 | a batch cut off after any of its items and sent again ends as if stored at once |
| `WindowStores.UploadsConverge` | src/events/mod.rs:90-98 | any order, grouping and duplication of uploads whose observations settle ends in the same keyspace |
| `WindowStores.RowDeterminedIffSettled` | src/events/mod.rs:90-98 | what was uploaded about a window determines its row if and only if the observations settle |
| `WindowBackends.FinalIsNewest` | src/events/clickhouse.rs:98-110 | what is read back per key is a version no other version of the key exceeds |
| `WindowBackends.FinalAppend` | src/events/clickhouse.rs:98-110 | an appended version takes effect if and only if no version of its key has a later clock value, or says the same |
| `WindowBackends.UpsertWindows` | src/events/clickhouse.rs:472-600 | for a batch of distinct keys the bounded read, merge, skip and insert leave the same rows as the Fjall keyspace, if and only if no row the batch has to change was written under a later clock value |
| `WindowBackends.UploadAppends` | src/events/clickhouse.rs:529-600 | an upload appends, under its clock value, one version for each row that its items change, holding the change, and writes nothing else |
| `WindowBackends.UploadTakesEffect` | src/events/clickhouse.rs:529-600 | the inserted versions have their effect under the same condition |
| `WindowBackends.ClockSetBackLosesPeak` | src/events/clickhouse.rs:555-560 | a table and an upload under a clock set back that loses its peak |
| `WindowBackends.BackendsAgree` | src/events/clickhouse.rs:529-549 | the merged row maps of both backends correspond |
| `WindowSync.SyncWindows` | src/sync/handler.rs:554-637 | the store after one upload; an error reply exactly when a row was premature or refused, with the number of those rows; otherwise the newest observation time offered |
| `WindowSync.ResentBatchIsNoOp` | src/sync/handler.rs:583-597 | storing what an uploaded batch offered a second time changes nothing and refuses the same rows |
| `WindowSync.LaterResendIsNoOp` | src/sync/handler.rs:554-597 | the raw batch uploaded again at a later clock offers the same rows and changes none, if every row gets the same verdict and its observation time is clear of both clocks' bounds |
| `WindowSanitize.RepairedAlike` | src/sync/handler.rs:128-187 | a row is repaired alike at a later clock if and only if neither clock's bounds touch its observation time |
| `WindowSync.ClampedResendMovesRow` | src/sync/handler.rs:178-187 | an observation clamped to the clock moves its row on when it is sent again |
| `WindowSync.AcknowledgedWindowsAreStored` | src/sync/handler.rs:598-626 | after an acknowledgement every observation is reflected in its stored row in every field (active time aside), or was permanently rejected, or fell to the cap |
| `WindowSync.StaysReflected` | src/events/fjall_store.rs:783-817 | whatever is stored later, a reflected observation stays reflected |
| `WindowQueries.KeyReadsBack` | src/events/fjall_store.rs:824-850 | a row key's bytes give user (by prefix), provider (up to the next NUL) and anchor (last eight bytes) |
| `WindowQueries.QueryUserWindows` | src/events/fjall_store.rs:824-864 | exactly the user's readable windows that end at the bound or later, each once with its provider, in key order |
| `ActiveCache.IsUserActiveCached` | src/server/http.rs:406-425 | a lookup nobody disturbs answers from an entry younger than 60 seconds, changing nothing, or else from the database, whose answer it caches under the current time |
| `ActiveCache.ActiveCacheInner.GetFresh` | src/server/http.rs:357-362 | answers if and only if the entry is younger than 60 seconds, with its status |
| `ActiveCache.ActiveCacheInner.InsertIfCurrent` | src/server/http.rs:380-386 | drops entries of 60 seconds or more, keeps the others as they are, and stores the answer under the current time exactly when the generation is the one captured |
| `ActiveCache.ActiveCacheInner.Evict` | src/server/http.rs:391-396 | removes the user's entry and moves the generation, at every later time |
| `ActiveCache.CacheIsCoherent` | src/server/http.rs:338-396 | over every interleaving: what is cached for a user, or may still be cached, is the database's status throughout (while no eviction is to come), if and only if the run contains no harmful deletion of that user |
| `ActiveCache.DeactivationSticks` | src/server/handlers/admin.rs:498-509 | from the step that finishes a deactivation on, no lookup finds the user cached as active until a reactivation, whatever ran before and whatever else runs after |
| `ActiveCache.InactiveStaysOut` | src/server/handlers/admin.rs:107-130 | the same from any state with the user inactive and no eviction to come, if no harmful deletion of theirs led there |
| `ActiveCache.StepCoherent` | src/server/handlers/admin.rs:125-130 | a step keeps the cache coherent for a user if and only if it is not the deletion of their row while `true` is cached, or still insertable, with no eviction to come |
| `ActiveCache.InactiveDeleteIsHarmless` | src/server/handlers/admin.rs:107-130 | deleting the row of an inactive user does no harm |
| `ActiveCache.DeleteAfterReactivationIsStale` | src/server/handlers/admin.rs:107-130 | a run exists after which a deleted user is cached as active with no eviction pending |
| `Migration.StartupKeepsRows` | src/events/clickhouse.rs:123-201 | whatever tables a startup finds and wherever it fails, the rows that count stay the same |
| `Migration.NoRowIsLost` | src/events/clickhouse.rs:111-201 | over any number of interrupted startups all rows are in the live table, or in the v2 table while there is none |
| `Migration.CompletedStartup` | src/events/clickhouse.rs:157-201 | a completed startup has all rows in the live table; it has `updated_at` if and only if not (rebuild due and EXCHANGE effective but reported failed) |
| `Migration.CompletedStartupTables` | src/events/clickhouse.rs:123-201 | a completed startup leaves a staged table if and only if one stood beside a live table that had the column already, and an old table if and only if one stood beside the table that is made live; both unchanged |
| `Migration.StagedTableStays` | src/events/clickhouse.rs:157-201 | a rebuild that dies before its last statement leaves its staged table through every later startup |
| `Migration.RebuiltIsFinal` | src/events/clickhouse.rs:157-201 | a startup that finds the column in place changes no table, whatever fails |
| `Migration.LostAnswerSwapsBack` | src/events/clickhouse.rs:183-197 | with everything else working, a lost EXCHANGE answer ends with the outdated table live again |
| `Migration.HealthyStartup` | src/events/clickhouse.rs:173-197 | a startup without faults completes, unless a rebuild is due, EXCHANGE is unavailable and an old table blocks the rename |
| `Migration.RebuildFinishes` | src/events/clickhouse.rs:123-201 | after any interruptions the first undisturbed startup ends with every row in a table with `updated_at`, if the engine knows EXCHANGE or none went unreported before |
| `Migration.ClickHouse.New` | src/events/clickhouse.rs:56-69 | the startup as it runs: the tables and the result for every fault |
| `Migration.ClickHouse.MigrateWindowsTable` | src/events/clickhouse.rs:157-201 | the rebuild as it runs, for every fault |
| `Migration.ClickHouse.RecoverInterruptedMigration` | src/events/clickhouse.rs:123-146 | the recovery as it runs, for every fault |
| `MonitorSettings.Settings.UpsertMonitorSetting` | src/db/sqlite.rs:1383-1492 | one write: on success the request's value, its true size, the request's time and the raised version are stored under its key and nothing else changes; otherwise the rows stay as they were |
| `MonitorSettings.AcceptedExactly` | src/db/sqlite.rs:1417-1461 | a write succeeds if and only if the version is the expected one (or none is) and, counted after the write, the user's entries and bytes are within the quota |
| `MonitorSettings.RefusalExact` | src/db/sqlite.rs:1417-1461 | a version mismatch is answered exactly when the versions differ, with what is stored; a quota refusal reports what the user would hold; entries are judged before bytes |
| `MonitorSettings.Settings.DeleteMonitorSetting` | src/db/sqlite.rs:1494-1542 | one deletion: succeeds if and only if the key exists under the expected version (or none is expected), then removes it alone; a refusal reports the stored version and time |
| `MonitorSettings.AnswersAreAtomic` | src/db/sqlite.rs:1395-1485 | interleaved transactions serialise: the answering step has the answer and effect of the whole write run alone at that instant |
| `MonitorSettings.QuotaHolds` | src/db/sqlite.rs:1431-1461 | no interleaving takes a user's entries or bytes over a constant quota; recorded sizes are true |
| `MonitorSettings.VersionStep` | src/db/sqlite.rs:1462-1485 | a write raises its key's version by one, a conditional one from exactly the expected version; only deletion changes it otherwise |
| `MonitorSettings.ValueIsLastWritten` | src/db/sqlite.rs:1462-1485 | after any interleaving the value under a key is that of its last successful write since its last deletion |
| `MonitorSettings.ConditionalWriteWinsOnce` | src/db/sqlite.rs:1417-1429 | of two writes conditional on one version, with no deletion of the key between, at most one succeeds |
| `MonitorSettings.SmallerReplacement` | src/db/postgres.rs:1397-1419 | when exactly a replacement that is no larger succeeds; always, within quota |
| `MonitorSettings.LoweredQuotaRefusesSmaller` | src/db/postgres.rs:1397-1419 | replacing 10 bytes by 5 is refused under a limit lowered to 4 |
| `Framing.WriteFrame` | src/sync/protocol.rs:21-41 | sends exactly the frame's encoding, or nothing when the payload exceeds 16,777,216 bytes |
| `Framing.EncodedBytes` | src/sync/protocol.rs:21-41 | a frame is its type and its length as four bytes each, lowest first, and its payload |
| `Framing.ReadFrameInner` | src/sync/protocol.rs:69-107 | result and remaining stream; wherever the peer stops, the buffer is at most 64 KiB ahead of what arrived |
| `Framing.ReadChunks` | src/sync/protocol.rs:93-106 | the chunked loop reads exactly the payload within that bound |
| `Framing.ParseInvertsEncode` | src/sync/protocol.rs:21-107 | a frame and a rest are read if and only if the stream is that frame as written, followed by the rest |
| `Framing.RefusedExactly` | src/sync/protocol.rs:69-107 | which streams are refused for their type, for their length, or for ending early, and that a refusal uses up the header alone |
| `Framing.StreamRoundTrip` | src/sync/protocol.rs:21-107 | any concatenation of written frames is read back in order, to the last byte |
| `Framing.CutFrameIsNoticed` | src/sync/protocol.rs:69-107 | a stream that ends inside a frame yields an end-of-file error |
| `Durations.ParseDurationSecs` | src/server/handlers/metrics.rs:923-980 | accepts a string if and only if its exact length is between 1 and 2^63 - 1 seconds, and returns that length |
| `Durations.CompoundIsScanned` | src/server/handlers/metrics.rs:948-979 | the scan ends without left-over digits exactly on compounds, with their exact length |
| `Durations.MeaningUnique` | src/server/handlers/metrics.rs:918-980 | a string has at most one meaning |
| `Durations.OnePart` | src/server/handlers/metrics.rs:948-979 | 60 seconds are a minute, 60 minutes an hour, 24 hours a day, 7 days a week, 365 days a year: each with its unit means exactly that, from one second to below 2^63 |
| `Durations.DigitsReadBack` | src/server/handlers/metrics.rs:948-979 | the decimal digits of a number, with any zeros in front, are read as that number |
| `Buckets.BucketHolds` | src/server/handlers/metrics.rs:564-567 | a time lies in its bucket if and only if it is non-negative or on a boundary |
| `Buckets.BucketAligned` | src/server/handlers/metrics.rs:564-567 | every bucket starts at a multiple of the step |
| `Buckets.NegativeRoundsUp` | src/server/handlers/metrics.rs:564-567 | a negative time is put into a bucket that starts less than a step after it, never before it |
| `Buckets.BucketMonotone` | src/server/handlers/metrics.rs:564-567 | later times have no earlier bucket |
| `Buckets.StepAcceptedExactly` | src/server/handlers/metrics.rs:227-250 | a step is accepted if and only if it is positive, no longer than the range, and 2000 of it cover the range in whole seconds |
| `Buckets.FewBuckets` | src/server/handlers/metrics.rs:227-250 | a range query that passes step validation touches at most 2002 buckets |
| `Buckets.BoundIsReached` | src/server/handlers/metrics.rs:227-250 | a range that passes step validation touches exactly 2002 buckets |
| `Buckets.FloorDaysUnique` | src/server/handlers/metrics.rs:522-528 | day flooring picks the one aligned day within the step, before 1970 too |
| `Buckets.FloorWeekUnique` | src/server/handlers/metrics.rs:515-521 | week flooring picks the one day of the configured weekday in the week up to the date |
| `Tallies.Partition` | src/server/handlers/metrics.rs:676-705 | the per-key sums of a sequence add up to its total |
| `Tallies.Permuted` | src/server/handlers/metrics.rs:645-717 | per-key sums and the keys that occur do not depend on order |
| `Aggregator.Aggregate` | src/server/handlers/metrics.rs:626-717 | every reported bucket holds min(true sum, 2^64 - 1) of each field and is shown under its provider; truncated exactly when more than 50,000 keys occur |
| `Aggregator.BucketReports` | src/server/handlers/metrics.rs:466-472 | a bucket reported for a model (project, device) counts exactly the events of its time, its provider and that model (project, device), and each token counter sums its own field of them, up to 2^64 - 1 |
| `Aggregator.BucketsReported` | src/server/handlers/metrics.rs:645-717 | every reported bucket has such an event, and a complete answer has a bucket for each event that falls into one |
| `Aggregator.SelectedIsCounted` | src/server/handlers/metrics.rs:645-674 | the bucket overlap check drops an event that was asked for if and only if its bucket starts at or after the end of the range; for non-negative times never |
| `Aggregator.OrderIrrelevant` | src/server/handlers/metrics.rs:645-717 | the order of the events changes no reported number and not whether the answer is complete |
| `Aggregator.GrandTotalExact` | src/server/handlers/metrics.rs:645-717 | a complete answer without saturation adds up to exactly the counted events |
| `Aggregator.GroupingsAgree` | src/server/handlers/metrics.rs:645-717 | grand totals are the same for every grouping, and for non-negative times for every step |
| `QueryCeiling.AnswerAggregated` | src/server/handlers/metrics.rs:270-330 | the aggregated answer is made of the first 200,000 events the store has for the query |
| `QueryCeiling.UnmarkedIsComplete` | src/server/handlers/metrics.rs:270-330 | an answer not marked as truncated counts all events of the query if and only if nothing behind the ceiling would have been counted; then its other sums are complete too |
| `QueryCeiling.UnmarkedShortAnswer` | src/server/handlers/metrics.rs:270-330 | one event more than the ceiling gives a short answer that is not marked |
| `QueryLexer.LexIffSpells` | src/server/handlers/metrics.rs:1059-1130 | tokens are found in a text if and only if the text spells them, with any white space between |
| `QueryLexer.SpaceSkipped` | src/server/handlers/metrics.rs:1067-1075 | skipped are exactly the leading ASCII white-space characters |
| `QueryGrammar.ReadIffRendered` | src/server/handlers/metrics.rs:1013-1024 | tokens are read as a query of some shape if and only if they render a grammatical query of that shape |
| `QueryGrammar.TrimPadded` | src/server/handlers/metrics.rs:1348-1370 | trimming takes off all white space around a text and nothing else |
| `QueryParser.QueryCursor.Identifier` | src/server/handlers/metrics.rs:1077-1087 | takes the first token if and only if it is a word |
| `QueryParser.QueryCursor.QuotedValue` | src/server/handlers/metrics.rs:1107-1129 | takes the first token if and only if it is a closed quote without escapes |
| `QueryParser.ByLabels` | src/server/handlers/metrics.rs:1132-1163 | reads exactly the labels of a group-by |
| `QueryParser.ParseWrapper` | src/server/handlers/metrics.rs:1194-1244 | recognises the aggregation wrapper, with or without a group-by, and backs up otherwise |
| `QueryParser.ParseMatchers` | src/server/handlers/metrics.rs:1291-1346 | succeeds exactly on well-formed lists of agreeing, non-empty provider filters |
| `QueryParser.Resolve` | src/server/handlers/metrics.rs:1400-1424 | the one dimension named, `model` if none, refusal for unknown or several |
| `QueryParser.ParseTokiVirtualQuery` | src/server/handlers/metrics.rs:1182-1433 | accepts and answers exactly what the reading of the text's tokens means |
| `QueryParser.AcceptedIffGrammatical` | src/server/handlers/metrics.rs:1002-1024 | a text is accepted with a meaning if and only if it spells a query of the grammar (plus trailing commas) with that meaning |
| `QueryParser.MeaningExact` | src/server/handlers/metrics.rs:1002-1024 | a grammatical query has a meaning if and only if its metric is one of four, its labels name at most one of three dimensions, and its filters agree on one provider; cost, events, raw listing, grouping and provider are then those it names |
| `QueryParser.FullQueryUnderstood` | src/server/handlers/metrics.rs:1002-1024 | the full form, with keywords and marks as users type them, is understood as it reads |
| `QueryParser.TrailingQueryUnderstood` | src/server/handlers/metrics.rs:1383-1398 | so is the form with the grouping behind, of several labels |
| `QueryParser.RawEventsAreBare` | src/server/handlers/metrics.rs:1426-1432 | a raw listing is meant if and only if the query is bare `events`: no wrapper, range function, bucket or group-by |

## Left out

- Sockets, task scheduling, timeouts, semaphores, rate limiters, routing, JSON output and error texts: only the order of steps is kept.
- Authentication, tokens, password hashing, OIDC and the device-code flow.
- Pricing: cost is dropped from the aggregator, which leaves the token and event counters.
- Building events from a batch's dictionary and column names: a batch is a sequence of finished events.
- Corrupt values in the event keyspaces. Corrupt and future-version values of the windows keyspace are modelled.
- Legacy event keys without a provider, and the wipe on a schema version change.
- Steps of other connections between the purge and the cursor reset of one schema mismatch: the two are one step, of which either half may fail.
- Deleting a user's windows, and the text escaping of the ClickHouse protocol.
- Concurrent upserts of one user's windows: both stores hold a lock over read, merge and write.
- The time zone database: calendar bucketing is proved on the date, and the aggregator on the path without a zone.
- Statements that ClickHouse finishes after the next startup has begun, and rows written by another server while one migrates.
- Creating users: user ids are fresh, so no lookup can have cached one before it exists.
- Numbers of message types: the set of known type codes is a parameter, because the shared protocol crate is not part of this model.
- User, team and device management, brute-force guard, configuration, static pages.
