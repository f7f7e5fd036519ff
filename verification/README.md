# Guest counter: offline cache, sync cycle and scan store

This project models the core of a visitor-counting web application. Guests are checked in and
out by scanning a wristband. Each visit is a *scan* record: an id, a guest type, adult and child
counts, an entry time, and an exit time that stays empty while the guest is inside.

The model covers four pieces of logic.

- **The client cache** (`LocalDb`, `Reconcile`). It holds two keyed stores, scans and
  pending sync operations. It enforces the *session rule*: for every wristband tag, at most
  one scan has no exit time. `Reconcile.EnforceActiveSessionRule` is the batch clean-up.
  - Closed records come first, in input order.
  - Then every other active record of a tag is force-closed at one `now`.
  - Last come the kept records: per tag, the newest active one, or the first of equally new
    ones.
- **The sync cycle** (`SyncManager`). It has a re-entrancy guard and an offline
  short-circuit.
  - The queue is drained in `timestamp` index order. A failed replay counts one more retry,
    and an operation is dropped once it reaches `MaxRetries` = 5.
  - Then the cache is replaced by the cleaned list from the server when the GET succeeds,
    whether or not operations remain queued. When the GET fails, the cache is kept.
  - The network is an oracle: `remote(i)` decides whether the request for the `i`-th queued
    operation succeeds. An operation that cannot become a request still uses up its position.
    A `PullResult` gives what the final GET returned.
- **The server's scan list** (`ScansRoute`). GET, POST, PATCH and DELETE are functions over
  the content of a JSON file. POST and PATCH keep at most one open record per id.
- **The browser-local entry list** (`LocalStore`): upsert, checkout and the open-entry test.

Supporting modules:
- `Wrappers` has `Option` and `Result`.
- `Seqs` has `filter`, `map` and `findIndex` as Dafny functions, with the facts about them.
- `Scans` has the record type.

Timestamps are integers and `now` is a parameter. In the cache and on the server, an exit time
of `None` is JavaScript's `null` or a missing value. In the local entry list the exit time is a
string, and an empty string counts as "no exit time", as `!e.endTime` does.

The record carries a `tagId: Option<string>`. The declared scan type has no tag field. The
cache still groups on `scan.tagId`, so every record without one falls into a single group.
The server creates its records without a tag. So the cleaned list of a pull holds at most one
active record (`Reconcile.UntaggedKeepOneActive`). The same holds of the whole stored cache
(`LocalDb.UntaggedStoreOneActive`).

## Model

| member | source | states |
|---|---|---|
| Seqs.FindIndex | src/lib/localStore.ts:36 | the index found satisfies the predicate and no earlier index does; `None` exactly when no element satisfies it |
| Reconcile.SortByEntryDesc | src/lib/db.ts:196-198 | the sort returns a permutation of the group |
| Reconcile.SortIsDescending | src/lib/db.ts:196-198 | the sorted group is ordered newest first |
| Reconcile.SortIsStable | src/lib/db.ts:196-198 | the sort is stable: the records of any one `entryTime` come out in their input order |
| Reconcile.SortHeadIsFirstMax | src/lib/db.ts:196-200 | the head of the sorted group is the first record of greatest `entryTime` in input order |
| Reconcile.FirstMaxIndex | src/lib/db.ts:196-200 | reference definition of the kept record: an index whose `entryTime` no record exceeds, with every earlier record strictly older |
| Reconcile.GroupKeepsFirstMax | src/lib/db.ts:192-207 | a group keeps its first newest record and discards exactly the others, whether or not it has one record |
| Reconcile.ResolvePermutes | src/lib/db.ts:181-210 | every active record is either kept or discarded, exactly once |
| Reconcile.ResolveKeepsOnePerTag | src/lib/db.ts:191-201 | the kept records hold at most one record of any tag |
| Reconcile.ResolveKeptIsFirstMax | src/lib/db.ts:191-201 | each kept record is the first newest record of its tag's group |
| Reconcile.ResolveKeepsTag | src/lib/db.ts:191-201 | every tag with an active record has that group's first newest record kept |
| Reconcile.ResolveClean | src/lib/db.ts:192-193 | with one active record per tag, every record is kept in order and none is discarded |
| Reconcile.EnforceActiveSessionRule | src/lib/db.ts:171-218 | the cleaned list has exactly as many records as the input; its other properties are stated by the `Enforce…` lemmas below |
| Reconcile.EnforceKeepsEveryRecord | src/lib/db.ts:177-217 | the output has as many records as the input and the same multiset of ids |
| Reconcile.EnforceSingleActivePerTag | src/lib/db.ts:171-218 | after the rule, every tag has at most one record without an exit time |
| Reconcile.EnforceClosedFirst | src/lib/db.ts:178-179 | the closed inputs, unchanged and in input order, are a prefix of the output |
| Reconcile.EnforceKeepsLoneActive | src/lib/db.ts:192-193 | an active record that is alone in its tag is in the output untouched |
| Reconcile.EnforceKeepsNewest | src/lib/db.ts:196-201 | every active output record is an input record and the first newest active record of its tag |
| Reconcile.EnforceKeepsEveryTag | src/lib/db.ts:191-201 | each tag that had an active record still has its first newest record active in the output |
| Reconcile.ClosedAtNow | src/lib/db.ts:205-206 | a force-closed record has exit time `now` and equals an active input record apart from that exit time |
| Reconcile.EnforceClosesAtNow | src/lib/db.ts:189-206 | every inactive record after the closed inputs was active in the input and got exit time `now`, with no other field changed |
| Reconcile.EnforceFixesCleanInput | src/lib/db.ts:192-193 | on input with one active record per tag, the output is the closed records followed by the active ones, both in input order |
| Reconcile.EnforceCleanPermutes | src/lib/db.ts:217 | on such input the output is a permutation of the input |
| Reconcile.EnforceIdempotent | src/lib/db.ts:171-218 | applying the rule twice equals applying it once, for any two clocks |
| Reconcile.UntaggedKeepOneActive | src/lib/db.ts:181-183 | When no input record carries a tag, the cleaned list holds at most one active record. |
| LocalDb.GetScan | src/lib/db.ts:76-86 | a record is returned exactly when the id is stored, and it is the record stored under that id |
| LocalDb.ForceSaveScan | src/lib/db.ts:123-133 | a put stores the record under its id and leaves every other key's record alone |
| LocalDb.PutGetDelete | src/lib/db.ts:76-133 | a put record is read back unchanged, other ids read as before, and after a delete the id reads as absent |
| LocalDb.DeleteScan | src/lib/db.ts:220-230 | the id is removed and all other records stay |
| LocalDb.SaveScan | src/lib/db.ts:88-120 | as written: never reopens a closed record, keeping its stored exit time; saving an active scan leaves at most one active record for its tag; other tags and closed records are unchanged; the tag's other active records are closed at `now` |
| LocalDb.SaveScanGuardFirst | src/lib/db.ts:95-117 | corrected order: never reopens; one active record per tag whenever the written record is active; a refused reopening changes no other record; otherwise equal to `SaveScan` |
| LocalDb.BlockedReopenClosesOtherSession | src/lib/db.ts:95-117 | a concrete store in which a refused reopening ends another guest's open session under `SaveScan` but not under `SaveScanGuardFirst` |
| LocalDb.PutAll | src/lib/db.ts:155-163 | after a batch of puts every record's id is stored, and every stored record came from the batch or was already there |
| LocalDb.PutAllLastWins | src/lib/db.ts:155-163 | the last record put under an id is the one stored |
| LocalDb.SaveScans | src/lib/db.ts:135-168 | nothing stored before survives: every stored record is a record of the cleaned list |
| LocalDb.SaveScansKeepsIds | src/lib/db.ts:135-168 | after `saveScans`, the store holds exactly the ids of the incoming list |
| LocalDb.SaveScansSingleActive | src/lib/db.ts:135-168 | after `saveScans`, two active records of one tag are the same record |
| LocalDb.UntaggedStoreOneActive | src/lib/db.ts:135-168 | when no incoming record carries a tag, any two active records in the store after `saveScans` are the same record |
| LocalDb.PutOperation | src/lib/db.ts:233-243 | a put stores the operation under its id and leaves other operations alone |
| LocalDb.RemoveFromSyncQueue | src/lib/db.ts:258-268 | the operation is removed and all others stay |
| LocalDb.PutThenRemove | src/lib/db.ts:233-292 | a put operation is read back; removing it after a put equals removing it before; a cleared queue is empty |
| LocalDb.StringLessTotal | src/lib/db.ts:46-47 | two different primary keys are ordered one way or the other |
| LocalDb.PrecedesTotal | src/lib/db.ts:46-47 | two operations with different ids are ordered exactly one way |
| LocalDb.InsertOpKeepsOrder | src/lib/db.ts:245-256 | inserting an operation with a fresh id keeps the queue in index order |
| LocalDb.GetSyncQueue | src/lib/db.ts:245-256 | the queue as read lists every stored operation exactly once, strictly ordered by `timestamp` and then by id |
| LocalDb.QueueIdsDistinct | src/lib/db.ts:245-256 | no two positions of the queue as read carry the same id |
| SyncManager.ProcessOperation | src/lib/syncManager.ts:138-156 | an operation fails exactly when it is a create or update without data; the request carries the data, or no body for a delete; a create is a POST to `/api/scans`; an update is a PATCH and a delete a DELETE, both to `/api/scans/` plus the `scanId` |
| SyncManager.RequestNamesRecord | src/lib/syncManager.ts:149-153 | an update or delete request's URL is `/api/scans/` followed by exactly the operation's `scanId` |
| SyncManager.AfterAttempt | src/lib/syncManager.ts:114-131 | an operation stays queued exactly when its attempt failed and the raised retry count is below 5; it then carries exactly one more retry; other operations are untouched |
| SyncManager.Drain | src/lib/syncManager.ts:104-133 | every operation left in the queue was there before and untouched, or is a snapshot operation with one more retry; `DrainFrame` and `DrainFate` below state each operation's fate |
| SyncManager.DrainFrame | src/lib/syncManager.ts:114-131 | an id no operation of the snapshot carries keeps its stored operation through the drain |
| SyncManager.DrainFate | src/lib/syncManager.ts:114-131 | each operation's fate after the whole drain depends only on its own attempt, so a failure does not stop later attempts |
| SyncManager.RetryExhaustion | src/lib/syncManager.ts:123-130 | an operation that keeps failing stays queued with its count rising by one per cycle until the count reaches 5, and is gone from then on |
| SyncManager.FifthFailureRemoves | src/lib/syncManager.ts:9 | an operation starting at zero retries is still queued after four failing cycles and removed by the fifth |
| SyncManager.GetPendingCount | src/lib/syncManager.ts:201-204 | the pending count equals the number of stored operations |
| SyncManager.Sync | src/lib/syncManager.ts:68-99 | a call during a cycle or offline returns false and changes nothing, reporting `Offline` when offline; otherwise every stored operation is attempted once in index order; the pull replaces the cache even if operations remain, then reports `Idle` 0 and returns true; a failed pull keeps the cache and reports `Error` with the remaining count; the flag ends cleared |
| SyncManager.CycleFate | src/lib/syncManager.ts:105-131 | within a cycle, the operation at position `i` is the stored one, and it is removed or kept with one more retry according to its own outcome |
| SyncManager.PulledCacheSingleActive | src/lib/syncManager.ts:161-171 | whatever the server sends, including no `scans` field, the cache after a pull keeps the session rule |
| ScansRoute.ReadScans | src/app/api/scans/route.ts:30-52 | a missing or unreadable file, bad JSON or a non-array reads as the empty list |
| ScansRoute.WriteThenRead | src/app/api/scans/route.ts:30-68 | a written list is read back exactly |
| ScansRoute.Get | src/app/api/scans/route.ts:71-90 | with a non-empty id: 200 exactly when an open record with that id exists, returning the first one, else 404; without one: the whole list |
| ScansRoute.Post | src/app/api/scans/route.ts:93-134 | 201 exactly when all four fields are present (a count of 0 counts as present) and the visitor has no open record; only then is exactly one open record, entered at `now`, appended; otherwise 400 and the file is unchanged, and a visitor still inside gets their first open record back |
| ScansRoute.PostReportsActive | src/app/api/scans/route.ts:108-115 | a refused POST for a visitor still inside returns that visitor's first open record in the file |
| ScansRoute.PostKeepsSingleActive | src/app/api/scans/route.ts:105-127 | POST keeps at most one open record per id |
| ScansRoute.Patch | src/app/api/scans/route.ts:137-166 | 200 exactly when the id is non-empty and has an open record; only the first such record changes, and only its exit time, set to `now`; otherwise 400 or 404 and the file is unchanged |
| ScansRoute.PatchKeepsSingleActive | src/app/api/scans/route.ts:146-159 | PATCH keeps at most one open record per id and leaves the visitor without an open record |
| ScansRoute.Delete | src/app/api/scans/route.ts:169-179 | the stored list reads back empty |
| LocalStore.GetLocalEntries | src/lib/localStore.ts:13-23 | no window, a missing or empty item, bad JSON or a non-array reads as the empty list |
| LocalStore.SetLocalEntries | src/lib/localStore.ts:25-32 | without a window nothing is written |
| LocalStore.SetThenGet | src/lib/localStore.ts:13-32 | with a window, a stored list is read back exactly |
| LocalStore.Merge | src/lib/localStore.ts:38 | every field the entry carries replaces the stored one; a field it lacks keeps the stored value |
| LocalStore.Upsert | src/lib/localStore.ts:34-43 | with no open entry for the id, the entry is appended; otherwise the length is unchanged and only the first open entry with the id is replaced, by its merge with the entry |
| LocalStore.UpsertKeepsSingleOpen | src/lib/localStore.ts:36-41 | upserting keeps at most one open entry per id |
| LocalStore.Checkout | src/lib/localStore.ts:45-52 | the length never changes; with no open entry for the id nothing changes; otherwise only the first one gets the exit time and the given duration |
| LocalStore.HasActive | src/lib/localStore.ts:54-56 | true exactly when some entry has the id and no exit time |
| LocalStore.CheckoutCloses | src/lib/localStore.ts:47-55 | with at most one open entry for the id and a non-empty exit time, no open entry remains after checkout |
| LocalStore.UpsertOpenStaysOpen | src/lib/localStore.ts:34-41 | upserting an open entry leaves an open entry with its id |
| LocalStore.UpsertLocalEntry | src/lib/localStore.ts:34-43 | with a window, the stored list grows by one exactly when the visitor had no open entry, and an open entry leaves `hasActiveLocal` true |
| LocalStore.MarkLocalCheckout | src/lib/localStore.ts:45-52 | with a window, the stored list keeps its length and is unchanged when the visitor had no open entry |
| LocalStore.HasActiveLocal | src/lib/localStore.ts:54-56 | true only for a stored list, and then exactly when some entry has the id and no exit time |
| LocalStore.StoredCheckoutCloses | src/lib/localStore.ts:45-56 | the same in storage: `hasActiveLocal` is false after `markLocalCheckout` |

## Left out

- The IndexedDB plumbing is not modelled: opening, upgrading, transactions and the promise
  wrappers. Failing storage requests are not modelled either. The stores are maps and every
  request succeeds.
- `getAllScans` is not a separate member. `saveScan` only uses it as the set of stored
  records, which is the map itself.
- `updateSyncOperation` is the same `put` as `addToSyncQueue`. Both are
  `LocalDb.PutOperation`.
- `LocalDb.StringLess` orders keys by Unicode code point. IndexedDB and JavaScript compare
  UTF-16 code units. The two orders differ only for characters outside the Basic
  Multilingual Plane.
- Network, timers and events are replaced by the `remote` oracle and the `PullResult`:
  `fetch`, the 10-second abort, `setInterval`, the `online` listener and the listener
  callbacks. The reports are returned as a sequence. `RETRY_DELAY` is unused in the source.
- An operation type other than create, update or delete is not modelled. The datatype has
  only these three.
- SyncManager.Sync: a storage failure while draining or saving is not modelled, so the `error`
  path is taken only when the final pull fails. A `scans` field that is present but is not an
  array is not modelled either.
- SyncManager.Sync runs as one atomic step. Writes made by the page during a cycle cannot
  interleave with it.
- The file system of the server route is not modelled: directory creation, logging, and
  write failures that give a 500. Malformed request JSON is not modelled either.
- ScansRoute.Post: `Number(adults)` is not modelled. The counts are integers when present. A
  non-numeric string that would become `NaN` is outside the model. So is a count sent as JSON
  `null`. The source checks only `=== undefined`, so it accepts such a count and stores it as
  0 with status 201. The model has no `null` count; `None` is a count left out of the request,
  which gets 400.
- ScansRoute.Post: `type` is a plain string and is not checked against the three declared
  guest types, as in the source.
- ISO-8601 strings and `new Date()` are replaced by integer timestamps, with `now` passed in.
  Dates that fail to parse (`NaN` in the sort) are not modelled.
- LocalStore: a property explicitly set to `undefined` in a spread is treated as absent.
  `markLocalCheckout` with no duration is the one place where the source's behaviour shows:
  the duration becomes absent, and `Checkout` models exactly that.
- LocalStore.SetLocalEntries: a `setItem` failure, such as a full quota, is not modelled.
- In the cache and on the server, the exit time is `Option<int>`. `!scan.endTime` also treats an
  empty-string exit time as open. The model cannot represent such a record, so that case is
  not covered.
- LocalDb.SaveScan: `saveScan` also writes the new exit times into the objects its caller
  passed in and into the list it read. The model is pure, so that aliasing is not modelled;
  only the stored result is.

## Findings

| source | as written | input that shows it | evidently intended | confidence | as-written member | corrected member |
|---|---|---|---|---|---|---|
| src/lib/db.ts:95-117 | `saveScan` closes the tag's other active records before it checks whether the scan would reopen a closed record | store with closed `a` and active `b`, both of tag "t"; save `a` with no exit time | a refused reopening writes `a` back closed and leaves `b` open | medium, not executed | LocalDb.SaveScan, LocalDb.BlockedReopenClosesOtherSession | LocalDb.SaveScanGuardFirst |

In the finding's example, the reopening of `a` is refused, but `b` has already been closed.
Tag "t" is left with no open session, although nothing was opened
(`LocalDb.BlockedReopenClosesOtherSession`). `LocalDb.SaveScanGuardFirst` decides the
record's final exit time first. It closes the other records only when that record is active.
It keeps every promise of `saveScan`, and a refused reopening changes no other record.
