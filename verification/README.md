# A verified model of the daemon's document store, projector and data movers

The daemon keeps CRDT documents in a working set over a snapshot-and-log database,
projects knowledge-base (KB) documents into a query store from a change feed, answers
bounded graph queries, migrates legacy documents, writes and restores checkpoints, and
limits connections. This project models that core and proves what it promises over whole
runs, every schedule, every storage call that reports a failure and every crash point.

A CRDT document is the set of operations it contains, applying an update is union, and
applying one twice is harmless. The database is a value (`Disk`); every storage call that
can fail carries a flag saying whether it does, and a delete can also fail between its two
statements, so the error paths are part of each contract. Loads that come back short
without reporting it have a model of their own. Time is a number passed in.
Code that updates state in place is a class (`DocStore`, `Projector`, `Reader`,
`ConnLimiter`, `Memo`) whose methods are proved against a value-level specification, and
the theorems are about that specification. Loops over hash sets visit
nodes in some order, and the theorems hold for every order.

| module | what it holds |
|---|---|
| `Basics`, `DocNames`, `Storage` | ids, addresses and their string form, the database and its calls as events on documents |
| `Histories` | which logged updates are in force after a history of events |
| `DocStores`, `DocStoreRuns`, `StoreViews` | the store, its refinement of histories over runs, its contents as a map |
| `DocStoreEntries` | clients, activity and update counts over runs, and what idle eviction and compaction make of them |
| `ShortLoads` | loads that return less than is stored, and what they cost |
| `LogSteps` | append, apply, capture and install as interleaved steps |
| `MembershipCache`, `MembershipSteps` | the memoised membership derivation, with calls atomic and taken apart |
| `Projection`, `ProjectorSteps`, `ProjectorRows` | row derivation, the concurrent change-feed machine, which rows it gets right |
| `Projectors`, `Healing` | the projector's operations, what reconciliation achieves |
| `GraphWalk`, `Utf8` | the neighbourhood walk, UTF-8 and byte-limited truncation |
| `Migrations`, `MigrationCrashes`, `MigrationReruns` | the migration plan and moves, the moves statement by statement under crashes, edits and idle eviction between two runs |
| `Checkpoints`, `CheckpointStores` | the artifact codec, capture and restore |
| `ConnLimits` | the connection limiter under concurrent attempts |

`dafny verify dfyconfig.toml` checks everything.

## Where the code differs from its documentation

The model follows the code; each difference is a lemma.

- The membership cache is documented as never stale. It is, when the clock goes back past
  a timebox (`ClockBackServesStale`); `QueryIsFreshExactly` says which queries of a run. A
  block that lands while a query derives is overtaken by its result (`OvertakenBlock`,
  `RightExactly`).
- A load has an error result, but an error while it steps through its rows is taken for
  their end (daemon/src/storage.rs:342, 375), so the load succeeds with less than is
  stored, and a later compaction makes the loss permanent
  (`ShortLoadHarmlessExactly`, `UnwrittenHarmlessExactly`).
- A migration interrupted by a crash is documented to leave at worst a duplicate. A
  document delete is two auto-committed statements, and a crash between them makes the
  next run copy the remains over the good copy (`TornDeleteLoses`). `CrashSafeExactly`
  says when this can happen: when a planned legacy document has log rows that do not
  cover its snapshot. A delete that fails at that point does the same without a crash
  (`TornRemoveLoses`).
- A legacy delete that fails is only logged. The next run then overwrites the scoped copy
  and every edit made to it meanwhile (`EditsSurviveExactly`).
- Legacy documents a run leaves in place are documented as never deleted. Their names are
  not durable, so idle eviction deletes them while the daemon serves: unclaimed ones
  (`OrphanKeptExactly`), and nodes whose move failed (`EvictionLoses`).
  `ContentSurvivesExactly` gives the exact condition for the content of a planned node.
- The projection is documented as a function of the documents. Rows are keyed by the id a
  document carries, and an end-to-end encrypted node document carries none
  (shared/sync/src/op_set.rs:1-32, shared/sync/src/kb/node.rs:225-231). Sealing a projected
  document (daemon/src/collab_handler/kb_content.rs:606-610) leaves its plaintext row in
  place and adds one under the empty id (`ForeignIdStrands`). `ConvergesExactly` gives the
  exact condition.
- A rebuild is documented to equal the incremental projection. It does from an empty store
  when documents carry their own ids (`RebuildMatchesIncremental`), and for no larger class
  of documents (`RebuildMatchesExactly`). It never deletes rows (`RebuildIsExact`).
- Healing is documented as idempotent. It is exactly under the condition in
  `HealingIsIdempotent`: every listed document carries its own id and derives a row the
  store shows as written, and the document of every unlisted row is in memory. A blank row
  is not shown, and source version 0 is read back as none
  (shared/kb/src/cozo_store/util.rs:144-147). Nodes created in the editor carry version 0
  (crates/core/src/editor/kb_ops/nodes.rs:295), so every pass reports them
  (`UnshowableIsAlwaysReported`, `EditorNodeDiffers`).
- A write that is logged and then meets a failing load or compaction is reported as an
  error and not announced, yet readers see it (`SilentWrites`). A share whose delete fails
  merges with what the delete left instead of replacing it (`ShareView`).
- The artifact parser accepts bytes after the last node (`ParseExact`).

The limiter calls its cap approximate; `ConnectionBound` and `BoundIsTight` say how
approximate it is.

## Hypotheses

- `DocStores` and what builds on it cover loads that succeed or report a failure;
  `ShortLoads` covers the others, for one document.
- `LogSteps` assumes four scheduling disciplines. They are not claims about the daemon;
  each has a schedule showing that dropping only that one loses a logged update.
- The "only if" halves of `RowConvergesExactly`, `ConvergesExactly` and
  `RebuildMatchesExactly` need collection documents that list a single node (`CanList`).
- The membership derivation uses time only through `now >= expires_at`
  (`TimeOnlyExpires`), and a state vector identifies an op-log.
- Restoring assumes that decoding an encoded document gives it back (`Lawful`), and the
  projector that decoding a state the store has just encoded succeeds. The hash is an
  arbitrary function; nothing relies on collision-freeness.
- Documents are named by the datatype `DocName`. For KB ids without a colon this loses
  nothing (`ClassifyInjective`, `RoundTrip`); for others see `ColonMisaddresses`. Node ids
  must be non-empty too: the string form of an empty one does not parse, and the daemon
  takes it for an ephemeral document.
- The set of resident documents is fixed during a reconciliation pass. In the daemon the
  pass's own reads can push documents out under the cap.
- The calls of `MembershipCache` are atomic; `MembershipSteps` takes them apart.

## Model

| member | source | states |
|---|---|---|
| `DocNames.RoundTrip` | shared/sync/src/lib.rs:69-126 | parsing a formatted address returns it if and only if its parts are non-empty and its separator-delimited part is free of the separator |
| `DocNames.ParseIsInverse` | shared/sync/src/lib.rs:83-126 | everything that parses is the canonical form of a well-formed address |
| `DocNames.ColonMisaddresses` | shared/sync/src/lib.rs:128-150 | a KB id with a colon addresses its nodes into a different KB |
| `DocNames.ClassifyInjective` | daemon/src/doc_store.rs:188-197 | classifying names by kind keeps distinct names distinct |
| `DocNames.DurableExactly` | daemon/src/doc_store.rs:188-197 | a name is durable exactly when it parses as a KB node or a KB collection, and legacy exactly by its prefix |
| `Storage.ContentIsEverything` | daemon/src/storage.rs:334-396 | on a well-formed database a load yields the snapshot joined with every log row, and nothing exactly when there is neither |
| `Storage.AppendContent` | daemon/src/storage.rs:308-332 | an append adds exactly its update to exactly its document and keeps row ids increasing |
| `Storage.CompactContent` | daemon/src/storage.rs:398-445 | compacting with the full state changes no document's content, whatever log position it claims, including a position that was reset to 0 by a reload |
| `Storage.DeleteContent` | daemon/src/storage.rs:477-497 | a delete empties its document and touches no other |
| `Storage.AppendEvent` | daemon/src/storage.rs:308-332 | as an event: the append logs its update to its own document only, in content, log and presence |
| `Storage.CompactEvent` | daemon/src/storage.rs:398-445 | as an event: compacting the whole document at a position that covers its rows empties its log and nothing else |
| `Storage.DeleteEvent` | daemon/src/storage.rs:477-497 | as an event: a delete clears its document, leaves exactly its log rows when it fails between its two statements, or does nothing |
| `Histories.HeldStep` | daemon/src/doc_store.rs:502-592 | one more event changes the updates in force, the unsaved ones and the presence of a document as it changes storage |
| `Histories.UntornIsEverything` | daemon/src/doc_store.rs:1010-1061 | without torn deletes the updates in force are all those logged since the last share, delete or ephemeral eviction |
| `Histories.PastIsHeld` | daemon/src/storage.rs:334-396 | any well-formed database is the outcome of a history of events |
| `DocStores.PickLruEvictable` | daemon/src/doc_store.rs:203-220 | finds no victim exactly when every document has a client; otherwise a victim without clients that no other such document predates |
| `DocStores.InstallGrowth` | daemon/src/doc_store.rs:527-541 | making room then inserting never grows the working set past the cap or one above the connected documents |
| `DocStores.Replay` | daemon/src/doc_store.rs:545-558 | replaying a snapshot and its tail gives their join and the last row id, 0 for an empty tail |
| `DocStores.LoadEntry` | daemon/src/doc_store.rs:543-591 | a load that succeeds yields the stored content, an empty document only where creating is allowed; a load that reports its failure is told apart from a missing durable document |
| `DocStores.DocStore.MakeRoom` | daemon/src/doc_store.rs:527-541 | at the cap exactly the least recently active document without clients leaves memory, or none if all have clients |
| `DocStores.DocStore.GetOrCreateWith` | daemon/src/doc_store.rs:502-592 | returns the resident or rebuilt entry, or the right error; evicts by the rule; a refused access still evicts but installs nothing |
| `DocStores.DocStore.EncodeState` | daemon/src/doc_store.rs:973-991 | a read answers with what storage would rebuild and keeps memory coherent with storage |
| `DocStores.DocStore.CompactDoc` | daemon/src/doc_store.rs:1093-1110 | captures memory and installs it; when the install fails only the update counter has changed |
| `DocStores.DocStore.EmitChange` | daemon/src/doc_store.rs:322-328 | only durable names reach the feed |
| `DocStores.DocStore.LogAndApply` | daemon/src/doc_store.rs:606-628 | the log-first write, including the case where the reload already contains the logged update and applies it twice |
| `DocStores.DocStore.ApplyUpdate` | daemon/src/doc_store.rs:596-659 | validate, log, apply, compact when due, announce; which of these happened for each failing call |
| `DocStores.DocStore.ShareDoc` | daemon/src/doc_store.rs:1010-1061 | replace a document, with the outcome of each way its storage calls can end, a delete torn between its statements included |
| `DocStores.DocStore.DeleteDoc` | daemon/src/doc_store.rs:702-712 | memory forgets the document first, storage as far as the delete gets |
| `DocStores.DocStore.TrackClient` | daemon/src/doc_store.rs:869-893 | connect counts up and refreshes activity, disconnect counts down no lower than 0 |
| `DocStores.DocStore.EvictIdle` | daemon/src/doc_store.rs:897-961 | exactly the idle client-free documents leave memory; storage changes only by their compaction and, for ephemeral ones, by a delete that succeeds, fails or is torn |
| `DocStores.DocStore.CompactIdle` | daemon/src/doc_store.rs:917-922 | compacting before eviction saves exactly the documents whose compaction succeeds and changes no other entry |
| `DocStores.DocStore.DeleteEphemeral` | daemon/src/doc_store.rs:945-958 | deletes exactly the evicted ephemeral documents, each as far as its delete gets |
| `DocStoreRuns.ApplyEffect` | daemon/src/doc_store.rs:596-659 | whatever fails, a write logs exactly its update, saves exactly when a due compaction succeeds, and keeps the cache coherent |
| `DocStoreRuns.ShareEffect` | daemon/src/doc_store.rs:1010-1061 | a share leaves what its delete left, whole, torn or nothing, joined with exactly what it logged |
| `DocStoreRuns.QuietEffect` | daemon/src/doc_store.rs:869-961 | reads, compactions, client tracking, deletes, evictions and restarts touch a stored document only by saving, clearing or tearing it |
| `DocStoreRuns.StepEffect` | daemon/src/doc_store.rs:502-659 | every operation keeps the cache coherent and acts on every stored document as its trace of events says |
| `DocStoreRuns.RunRefines` | daemon/src/doc_store.rs:502-1110 | at every point of every run, with any storage call reporting a failure anywhere, each document holds exactly the updates in force and its log exactly those not saved since |
| `DocStoreRuns.ReadsAreExact` | daemon/src/doc_store.rs:482-592 | in such runs every read returns exactly the updates in force; it is refused exactly when the document is not resident and its load reports a failure, or it is durable, the read is ordinary and nothing is in force; a refused read creates nothing |
| `DocStoreRuns.ReadsEverything` | daemon/src/doc_store.rs:502-1110 | when deletes succeed or fail whole, every read of such a run returns the join of everything logged since the document's last share, delete or ephemeral idle eviction |
| `DocStoreRuns.DurableKeepsContent` | daemon/src/doc_store.rs:897-961 | eviction, compaction, reads and restarts never change a durable document |
| `DocStoreRuns.StepGrowth` | daemon/src/doc_store.rs:527-591 | one operation grows the working set at most to the cap or one above the connected documents |
| `DocStoreRuns.WorkingSetBound` | daemon/src/doc_store.rs:527-591 | over every run residents never exceed max(cap, 1 + peak connected documents) |
| `DocStoreRuns.FeedFollowsReplies` | daemon/src/doc_store.rs:322-328 | the feed gains a name exactly when a durable write reports success |
| `DocStoreRuns.SilentWrites` | daemon/src/doc_store.rs:606-655 | a logged durable write goes unannounced exactly when a later load or a due compaction fails |
| `DocStoreEntries.EntryStep` | daemon/src/doc_store.rs:596-650 | every entry counts exactly the clients that came and went, with 1 after a share, and exactly the updates since it was opened or captured; it was last active when opened, written, shared or connected to |
| `DocStoreEntries.WriteSavesExactly` | daemon/src/doc_store.rs:640-680 | a logged write installs a snapshot exactly when the count reaches the threshold or the log limit, the document could be opened and the install succeeds |
| `DocStoreEntries.IdleExactly` | daemon/src/doc_store.rs:897-961 | an idle pass keeps a document exactly when it has a client or was active within the limit |
| `DocStoreEntries.RecentIsKept` | daemon/src/doc_store.rs:897-961 | in every run with a forward clock, a document written, shared or connected to is neither evicted nor changed in storage by an idle pass before the limit has run out |
| `DocStoreEntries.ConnectedStays` | daemon/src/doc_store.rs:869-961 | while connects outnumber disconnects a document stays in memory with at least that many clients, through the cap and every idle pass |
| `DocStoreEntries.DurablesAreNotInvented` | daemon/src/doc_store.rs:565-576 | a durable document that is neither stored nor in memory enters memory only by a write, a share or an authorized read |
| `DocStoreEntries.EphemeralNamesOpen` | daemon/src/doc_store.rs:502-592 | a read is refused as missing exactly for an unauthorized node or collection address that is neither stored nor in memory, and otherwise only when its load fails |
| `StoreViews.ReadKeepsStored` | daemon/src/doc_store.rs:982-991 | an ordinary read of a durable document leaves storage alone, succeeds exactly when the document is resident or loads, and brings only stored documents into memory |
| `StoreViews.AuthorizedRead` | daemon/src/doc_store.rs:973-980 | an authorized read is refused exactly when the document is not resident and its load fails |
| `StoreViews.SeenIsView` | daemon/src/doc_store.rs:982-991 | what ordinary reads see is the stored documents when nothing lives only in memory |
| `StoreViews.ShareView` | daemon/src/doc_store.rs:1010-1061 | a share succeeds exactly on valid bytes without append or load fault; the stored result for every way its delete and append can end, and no other document changes |
| `StoreViews.DeleteView` | daemon/src/doc_store.rs:702-712 | a delete removes exactly its document, leaves its log rows when torn, or changes nothing |
| `ShortLoads.LoadDocument` | daemon/src/storage.rs:334-396 | the load loop returns the snapshot unless its step fails and the rows up to the first failing step |
| `ShortLoads.OpenedHolds` | daemon/src/doc_store.rs:543-558 | what an entry opened by a short load holds, and what installing it would leave: rows cut off the end are still in the log, an unseen snapshot is not |
| `ShortLoads.StepLosesExactly` | daemon/src/doc_store.rs:1093-1110 | with loads of any kind, writes and reads keep everything stored, and a compaction loses exactly what its entry neither holds nor leaves in the log |
| `ShortLoads.ShortLoadHarmlessExactly` | daemon/src/storage.rs:342-389 | a load is harmless to everything done next if and only if it returned the whole document |
| `ShortLoads.UnwrittenHarmlessExactly` | daemon/src/storage.rs:342-389 | while nothing is written it is harmless if and only if it saw the snapshot or the log rows cover it |
| `LogSteps.StepKeeps` | daemon/src/doc_store.rs:606-645 | every disciplined step of any number of writers and compactors, giving up included, keeps the covering invariant |
| `LogSteps.DisciplinedRunsKeepEverything` | daemon/src/doc_store.rs:606-645 | in every reachable state of a disciplined schedule, with crashes and unloads anywhere, storage rebuilds exactly the union of all logged updates |
| `LogSteps.UnappliedCaptureLoses` | daemon/src/doc_store.rs:606-645 | two writers: capturing past an appended but unapplied id loses an acknowledged update |
| `LogSteps.ReorderedInstallLoses` | daemon/src/doc_store.rs:1093-1102 | installing captures out of order loses an update |
| `LogSteps.StaleCaptureLoses` | daemon/src/doc_store.rs:527-541 | compacting an entry that was unloaded while held loses an update |
| `LogSteps.GivingUpLoses` | daemon/src/doc_store.rs:615-628 | a writer that gives up after its append while an entry is in use loses its update to the next compaction |
| `MembershipCache.Horizon` | daemon/src/doc_store.rs:280-285 | the earliest future timebox, or the end of time |
| `MembershipCache.Memo.DerivedMembership` | daemon/src/doc_store.rs:257-300 | a hit on state vector, anchor and horizon is served; anything else derives and replaces the entry |
| `MembershipCache.Memo.AddKbBlock` | daemon/src/doc_store.rs:423-434 | a block adds the principal to the KB's list and drops its entry, only after storage accepted it |
| `MembershipCache.Memo.RemoveKbBlock` | daemon/src/doc_store.rs:437-445 | an unblock takes the principal off the list and drops the KB's entry, only after storage accepted it |
| `MembershipCache.StepServes` | daemon/src/doc_store.rs:257-306 | one call keeps the cache equal to what the calls so far decide, and answers with the derivation at the time the entry was made |
| `MembershipCache.QueryIsServed` | daemon/src/doc_store.rs:257-306 | whatever the clock does, each query of each run gets the derivation of its own op-log, anchor and current blocklist, at a time decided by the calls alone |
| `MembershipCache.ServableExactly` | daemon/src/doc_store.rs:257-300 | within its horizon a result sees the same operations expired if and only if no timebox lies between now and the later time it was derived at |
| `MembershipCache.QueryIsFresh` | daemon/src/doc_store.rs:257-306 | for any clock and any timely derivation, a query is fresh when no timebox lies after its time and up to the time it is served from |
| `MembershipCache.QueryIsFreshExactly` | daemon/src/doc_store.rs:257-306 | that condition is exact, for a derivation that shows which operations are live |
| `MembershipCache.MemoIsFresh` | daemon/src/doc_store.rs:257-306 | every query of every run with a forward clock equals a fresh derivation, through op-log growth, anchor changes, blocks and unblocks |
| `MembershipCache.BlockedExactly` | daemon/src/doc_store.rs:423-445 | in every run a principal is blocked at a KB exactly when the last accepted call about it there was a block, or there was none and it was blocked from the start |
| `MembershipCache.QueryFollowsBlocks` | daemon/src/doc_store.rs:257-306 | every query of every run with a forward clock derives at its own time with exactly the principals blocked whose last accepted call was a block |
| `MembershipCache.ClockBackServesStale` | daemon/src/doc_store.rs:257-300 | a query after a timebox followed by one before it is answered with the stale result, though the derivation is timely |
| `MembershipSteps.StepKeepsExactly` | daemon/src/doc_store.rs:276-298 | a step keeps a KB's cached result derived with the current blocklist, or due to be dropped, exactly when an insertion finds the list as it read it or a drop still due |
| `MembershipSteps.RightExactly` | daemon/src/doc_store.rs:276-298 | in every interleaving of queries, blocks and unblocks that holds in every state if and only if every insertion is timely |
| `MembershipSteps.TimelyRunsAreCurrent` | daemon/src/doc_store.rs:423-445 | with timely insertions, once no drop is outstanding every cached result reflects the current blocklist |
| `MembershipSteps.OvertakenBlock` | daemon/src/doc_store.rs:276-298 | a block between the read of the list and the insertion leaves a result derived without it, and nothing left to drop it |
| `ProjectorSteps.StepKeeps` | daemon/src/projector.rs:99-203 | every interleaved step of mutators and consumer keeps every store keyed by id, the consumer's locals and the manifests right up to due announcements, whatever documents are written |
| `ProjectorSteps.RunKeeps` | daemon/src/projector.rs:384-390 | so does every schedule |
| `ProjectorRows.StepKeepsRow` | daemon/src/projector.rs:99-203 | every interleaved step keeps row n right up to due announcements, if writes to the KB carry the id n exactly when addressed as n |
| `ProjectorRows.RowConverges` | daemon/src/projector.rs:99-203 | whenever nothing is queued or in flight row n is what the manifest and documents derive, whatever happens to other rows and KBs |
| `ProjectorRows.Converges` | daemon/src/projector.rs:99-203 | whenever nothing is queued or in flight, a KB whose documents carry their own ids has exactly the derivation of every existing document its manifest lists |
| `ProjectorRows.RowConvergesExactly` | daemon/src/projector.rs:99-203 | for any class of documents, row n is right after every drained schedule writing only those if and only if in the class exactly the documents addressed as n carry the id n |
| `ProjectorRows.ConvergesExactly` | daemon/src/projector.rs:99-203 | for any class of documents, every drained schedule writing only those is exact if and only if every document of the class carries the id it is addressed by |
| `ProjectorRows.ForeignIdStrands` | daemon/src/projector.rs:398-416 | from any drained state, replacing a listed document by one that carries another id comes to rest with wrong rows, the old row still in place |
| `ProjectorSteps.StepCloser` | daemon/src/projector.rs:384-390 | every consumer step brings it closer to rest |
| `ProjectorSteps.ConsumerDrains` | daemon/src/projector.rs:384-390 | left alone, the consumer always empties the queue, from any state |
| `ProjectorRows.RestartConvergesExactly` | daemon/src/main.rs:741-753 | after a restart, a row is right in every drained state of every schedule honest about it if and only if the documents found then derive it or the store held no such row |
| `Projectors.InverseUnique` | daemon/src/projector.rs:186-201 | the manifests determine the routing index |
| `Projectors.Unlink` | daemon/src/projector.rs:188-195 | removes exactly one KB's links to the given nodes and leaves no empty entry |
| `Projectors.Link` | daemon/src/projector.rs:196-201 | adds exactly one KB's links to the given nodes |
| `Projectors.Reroute` | daemon/src/projector.rs:186-202 | a KB's new manifest leaves the index the exact inverse of the manifests, with no empty entry |
| `Projection.OverlayIsExact` | daemon/src/projector.rs:171-184 | projecting nodes in any order leaves exactly their derivation if and only if their documents carry their own ids and no other row was there |
| `Projectors.ProjectAll` | daemon/src/projector.rs:171-184 | projects every added node that has a document, in some order, each under the id it carries; skips the others |
| `Projectors.Projector.ProjectNodeChange` | daemon/src/projector.rs:126-144 | rewrites one row of the document's own KB under the id the document carries, only if the manifest lists the node; which errors leave it alone |
| `Projectors.Projector.ProjectCollectionChange` | daemon/src/projector.rs:148-203 | rows move by the manifest difference, routing stays the exact inverse for any documents, a failure changes nothing |
| `Projectors.Projector.RebuildKb` | daemon/src/projector.rs:210-232 | projects every listed node again over the rows there are and re-registers the manifest; a failure forgets the manifest and keeps the inverse |
| `Projectors.Projector.ReconcileKb` | daemon/src/projector.rs:322-381 | reports and heals as the comparison in some visiting order says; detecting changes nothing; an unreadable collection or missing store changes nothing |
| `Projectors.CompareListed` | daemon/src/projector.rs:336-372 | the comparison loop, healing under its own feet, is the specified fold over some visiting order of the manifest |
| `Projectors.ReconcileExtra` | daemon/src/projector.rs:256-320 | unlisted rows are reported, and healing deletes exactly those whose document is in memory, none for an empty manifest |
| `Healing.DetectIsExact` | daemon/src/projector.rs:336-372 | a pass that only detects changes nothing and finds exactly the missing and differing rows as the store reads them back, in any order |
| `Healing.DetectReports` | daemon/src/projector.rs:322-381 | a detecting pass reports the missing and differing rows and every titled row the manifest does not list, even when the manifest is empty |
| `Healing.QuietPass` | daemon/src/projector.rs:336-372 | a pass finds nothing exactly when every listed row agrees, and then writes nothing |
| `Healing.AgreesExactly` | daemon/src/projector.rs:336-372 | a row agrees exactly when it is stored, not blank, and reads back with every compared field equal to the derivation, field by field |
| `Healing.MissingExactly` | daemon/src/projector.rs:336-372 | a row counts as missing exactly when it is not stored or has neither title, body nor tags |
| `Healing.CondemnedExactly` | daemon/src/projector.rs:256-320 | healing deletes exactly the titled unlisted rows whose node document is in memory, and none for an empty manifest |
| `Healing.AllAgreeExactly` | daemon/src/projector.rs:336-372 | all listed rows agree exactly when each is shown equal to its derivation in everything but id, source and raw document |
| `Healing.HealingTouchesOnly` | daemon/src/projector.rs:256-381 | in any order healing deletes exactly the condemned rows and writes only under ids that listed documents carry |
| `Healing.HealSelfNamed` | daemon/src/projector.rs:336-372 | for documents that carry their own ids the order does not matter: exactly the drifted rows are rewritten as derived |
| `Healing.ShowableExactly` | shared/kb/src/cozo_store/util.rs:114-172 | a row written under its own id is read back as derived exactly when it is not blank and has neither an empty to-do state nor version 0 |
| `Healing.UnshowableIsAlwaysReported` | daemon/src/projector.rs:336-372 | a listed document whose row is not read back as derived is reported by every pass, over any rows and in any order |
| `Healing.EditorNodeDiffers` | shared/kb/src/cozo_store/util.rs:144-147 | a titled row with source version 0 differs from itself once stored |
| `Healing.HealingReachesTruth` | daemon/src/projector.rs:322-381 | healing makes the store show every listed row equal to its derivation in everything but id, source and raw document, from any rows and in any order, if and only if every listed document carries its own id and derives a row the store shows as written |
| `Healing.SecondPass` | daemon/src/projector.rs:322-381 | for documents that carry their own ids, what an immediate second pass reports, exactly: blank rows as missing, other rows not shown as written as differing, unlisted rows without a resident document as extra |
| `Healing.HealingIsIdempotent` | daemon/src/projector.rs:322-381 | the second pass is clean, from every store with unlisted rows among given ids and in every order of both passes, if and only if every listed document carries its own id and derives a row the store shows as written, and the documents of those unlisted ids are in memory |
| `Healing.EmptyManifestHealsNothing` | daemon/src/projector.rs:256-320 | an empty manifest heals and reports nothing |
| `Projectors.RebuildIsExact` | daemon/src/projector.rs:205-232 | rebuilding, in any order, gives exactly the expected rows if and only if the listed documents carry their own ids and no other row was there |
| `ProjectorRows.RebuildMatchesIncremental` | daemon/src/projector.rs:205-232 | rebuilding into an empty store, in any order, equals any drained incremental run ending in the same documents, for documents that carry their own ids |
| `ProjectorRows.RebuildMatchesExactly` | daemon/src/projector.rs:205-232 | for any class of documents, rebuild and every drained incremental run over the class agree if and only if every document of the class carries its own id |
| `Projectors.DiffIsExact` | daemon/src/projector.rs:148-203 | one manifest diff takes exact rows to exact rows, when kept nodes derive the same rows, if and only if the added documents carry their own ids |
| `GraphWalk.LinksToNode` | daemon/src/kb_query.rs:460-486 | finds exactly the backlinks among the candidates examined, at most the limit, and flags truncation exactly when candidates were left |
| `GraphWalk.Record` | daemon/src/kb_query.rs:581-589 | records edges up to the cap, queues each newly seen node once |
| `GraphWalk.Expand` | daemon/src/kb_query.rs:577-603 | expanding a node spends exactly the candidates examined, truncates exactly when the candidates or its edges do not fit, and otherwise adds exactly its neighbours and edges |
| `GraphWalk.ExpandAll` | daemon/src/kb_query.rs:575-604 | one hop: truncated exactly when scanning for the whole frontier or its edges does not fit; otherwise exactly the next ring, and the budget is conserved |
| `GraphWalk.WalkNeighborhood` | daemon/src/kb_query.rs:562-614 | every edge real, every node within depth, both caps respected; truncated if and only if the scans or the edges of the inner ball exceed the limit, and otherwise exactly the ball and exactly the edges of the inner ball, each node expanded once |
| `GraphWalk.EdgesTouching` | daemon/src/kb_query.rs:562-614 | the recorded edges are exactly the links out of, and listed links into, expanded nodes |
| `GraphWalk.BallIsDistance` | daemon/src/kb_query.rs:562-614 | being in the ball is having a path of at most that many hops |
| `GraphWalk.HopsAreUndirected` | daemon/src/kb_query.rs:444-486 | hops are undirected links if and only if every link starts at a listed node or is answered |
| `Utf8.BoundaryIsValidPrefix` | daemon/src/kb_query.rs:236-245 | in valid UTF-8 a position is a character boundary exactly when the text before it is valid |
| `Utf8.NoFourTails` | daemon/src/kb_query.rs:236-245 | valid UTF-8 never has four continuation bytes in a row |
| `Utf8.ValidExactly` | daemon/src/checkpoint.rs:145-148 | bytes are accepted as text exactly when they are the encoding of some sequence of Unicode scalar values |
| `Utf8.TruncateToByteBoundary` | daemon/src/kb_query.rs:236-245 | the longest valid prefix within the limit, at most three bytes short |
| `Checkpoints.WriteBytes` | daemon/src/checkpoint.rs:111-114 | appends one length-prefixed field |
| `Checkpoints.ToBytes` | daemon/src/checkpoint.rs:43-55 | the printing loop produces the printed form that the codec theorem is about |
| `Checkpoints.Reader.Take` | daemon/src/checkpoint.rs:126-137 | the cursor returns the next bytes or the overflow or truncation error, and does not move on error |
| `Checkpoints.Reader.ReadString` | daemon/src/checkpoint.rs:138-148 | reads a length-prefixed string and rejects invalid UTF-8 |
| `Checkpoints.Reader.ReadNodes` | daemon/src/checkpoint.rs:68-72 | the node loop reads the nodes the pure parser finds, or its first error |
| `Checkpoints.FromBytes` | daemon/src/checkpoint.rs:59-86 | the parser with its error precedence, as the codec theorem needs it |
| `Checkpoints.ParseExact` | daemon/src/checkpoint.rs:43-86 | an artifact parses to a checkpoint if and only if the checkpoint is good and its printed form is a prefix of the artifact |
| `Checkpoints.LeByteAt` | daemon/src/checkpoint.rs:111-114 | byte i of a printed length has weight 256 to the i |
| `Checkpoints.BadMagicExact` | daemon/src/checkpoint.rs:59-63 | an artifact is refused for its magic exactly when it is long enough to have one and does not start with it |
| `Checkpoints.MismatchExact` | daemon/src/checkpoint.rs:59-86 | an artifact is refused for its hash exactly when it starts with the printed form of a checkpoint whose contents do not hash to what it carries |
| `Checkpoints.FrameIsArtifact` | daemon/src/checkpoint.rs:184-198 | the hash covers the artifact without its magic and without the hash itself |
| `Checkpoints.FrameInjective` | daemon/src/checkpoint.rs:184-198 | different contents never feed the hash the same bytes |
| `CheckpointStores.SortSorts` | daemon/src/checkpoint.rs:160-162 | the manifest's ids are sorted and none is lost |
| `CheckpointStores.LexExact` | daemon/src/checkpoint.rs:160-162 | ids are ordered by their first differing byte, and a prefix comes first |
| `CheckpointStores.SortedUnique` | daemon/src/checkpoint.rs:160-162 | a multiset of ids has one sorted order |
| `CheckpointStores.CaptureIgnoresListOrder` | daemon/src/checkpoint.rs:151-180 | a captured checkpoint, hash included, does not depend on the manifest's listing order |
| `CheckpointStores.RestoreThenCapture` | daemon/src/checkpoint.rs:90-109 | restoring a captured KB into any store succeeds, captures back to the same checkpoint and leaves every other document alone |
| `CheckpointStores.ExportImportExport` | daemon/src/checkpoint.rs:90-109 | the same through the artifact's bytes: the second export is byte-identical |
| `CheckpointStores.CheckpointKb` | daemon/src/checkpoint.rs:151-180 | capturing from the store is capturing the documents ordinary reads can see, under any failing loads and whatever lives only in memory |
| `CheckpointStores.CaptureStored` | daemon/src/checkpoint.rs:164-171 | the node loop: every listed document in order, or failure at the first that cannot be read |
| `CheckpointStores.ImportKb` | daemon/src/checkpoint.rs:96-109 | a rejected artifact changes nothing; otherwise every stored document changes by exactly the shares up to the first that fails, for every way their storage calls can end |
| `CheckpointStores.ShareAll` | daemon/src/checkpoint.rs:98-107 | the restore loop stops at the first failing share and has written exactly the ones before it |
| `CheckpointStores.ShareBytes` | daemon/src/checkpoint.rs:98-107 | one restored document changes exactly its own name, as far as its storage calls get; malformed bytes change nothing |
| `CheckpointStores.CleanImport` | daemon/src/checkpoint.rs:90-109 | without faults the import makes the stored documents those of the restore |
| `CheckpointStores.ExportImportKb` | daemon/src/checkpoint.rs:90-109 | over two document stores: export, import and export again give the same bytes and leave every document outside the artifact alone |
| `Migrations.CollectOwners` | daemon/src/kb_doc_migration.rs:91-108 | the owners table holds, for every node, exactly the KBs whose readable manifest lists it |
| `Migrations.AddClaims` | daemon/src/kb_doc_migration.rs:105-107 | one manifest adds its KB to exactly its nodes |
| `Migrations.BuildPlan` | daemon/src/kb_doc_migration.rs:110-143 | the sorting loop produces exactly the specified plan, ambiguities and orphan count |
| `Migrations.LegacyExact` | daemon/src/kb_doc_migration.rs:69-72 | the legacy list holds exactly the stored legacy nodes, once each |
| `Migrations.PlanExact` | daemon/src/kb_doc_migration.rs:110-143 | a node is planned to move to a KB exactly when that KB is its only distinct claimant |
| `Migrations.AmbiguousExact` | daemon/src/kb_doc_migration.rs:110-147 | a run is refused exactly when some legacy node has two distinct claimants, and the report names exactly those |
| `Migrations.OrphansExact` | daemon/src/kb_doc_migration.rs:110-143 | planned, ambiguous and orphaned nodes add up to the legacy nodes, and the orphans are those no manifest claims |
| `Migrations.MovedExact` | daemon/src/kb_doc_migration.rs:149-172 | the reported count is the number of planned moves whose read, append and load all succeed |
| `Migrations.MoveOne` | daemon/src/kb_doc_migration.rs:150-169 | one move for every way its storage calls can end, as a map from stored documents to stored documents, touching only its two names |
| `Migrations.MovePlanned` | daemon/src/kb_doc_migration.rs:149-170 | the moving loop makes the planned moves in order and counts the ones that were copied |
| `Migrations.MigrateLegacyNodeDocs` | daemon/src/kb_doc_migration.rs:53-173 | nothing to do when listing fails or nothing is legacy, refused with no document changed, or exactly the planned moves; a listing that comes back short hides manifests and nodes |
| `Migrations.FaultsLoseNothing` | daemon/src/kb_doc_migration.rs:149-170 | whatever storage calls fail, half-way through a delete too, every planned node's content is whole under its legacy or its scoped name |
| `Migrations.CleanMoves` | daemon/src/kb_doc_migration.rs:149-172 | without faults every planned document moves whole and everything else, orphans included, stays |
| `Migrations.SecondRunIsQuiet` | daemon/src/kb_doc_migration.rs:149-172 | after a run without faults a second one plans nothing, refuses nothing and changes nothing |
| `MigrationReruns.SecondRunAt` | daemon/src/kb_doc_migration.rs:149-170 | after failures, idle evictions and edits, a clean second run replaces the scoped copy by what it finds under the legacy name, and otherwise leaves it with its edits |
| `MigrationReruns.EditsSurviveExactly` | daemon/src/kb_doc_migration.rs:149-170 | no content and no edit is lost to the next run, whatever the edits, if and only if the scoped copy was whole after the first run and nothing is left under the legacy name, failures and evictions included |
| `MigrationReruns.ContentSurvivesExactly` | daemon/src/kb_doc_migration.rs:149-170 | without edits and without a crash the next run ends with a planned node's whole content if and only if it finds it whole under the legacy name, or finds nothing there and the scoped copy was whole |
| `MigrationReruns.TornRemoveLoses` | daemon/src/kb_doc_migration.rs:161-168 | a legacy delete that failed between its statements makes the next run lose what the log rows do not cover |
| `MigrationReruns.EvictionLoses` | daemon/src/kb_doc_migration.rs:150-157 | a node whose read failed and that was idle-evicted while the daemon served is lost |
| `MigrationReruns.LeftInPlaceExactly` | daemon/src/doc_store.rs:945-958 | a legacy document left in place is whole for the next run if and only if no idle eviction harmed it |
| `MigrationReruns.OrphanKeptExactly` | daemon/src/kb_doc_migration.rs:134-141 | an unclaimed legacy document is kept through both runs if and only if no idle eviction harmed it in between |
| `MigrationReruns.EvictionIsIdle` | daemon/src/doc_store.rs:897-961 | the document store's idle eviction acts on every legacy document it picks as the serving phase does |
| `MigrationCrashes.StepKeeps` | daemon/src/kb_doc_migration.rs:149-170 | every statement and every untorn crash keeps each planned node whole somewhere |
| `MigrationCrashes.ContentIsSomewhere` | daemon/src/doc_store.rs:1010-1061 | at every moment, inside share's delete-then-append too, each planned node is whole under one of its names |
| `MigrationCrashes.FinishedIsUninterrupted` | daemon/src/kb_doc_migration.rs:149-170 | a finished migration has moved every planned node whole and left the rest, however often it crashed |
| `MigrationCrashes.FinishedRunsAgree` | daemon/src/kb_doc_migration.rs:149-170 | any two finished migrations of one database, crashed or not, leave the same documents |
| `MigrationCrashes.CanFinish` | daemon/src/kb_doc_migration.rs:149-170 | from any untorn state a run can finish without a crash |
| `MigrationCrashes.TornDeleteLoses` | daemon/src/storage.rs:477-497 | one crash between the two statements of a tearable document's delete loses content for good |
| `MigrationCrashes.CrashSafeExactly` | daemon/src/storage.rs:477-497 | the migration is crash-safe if and only if no planned legacy document is tearable |
| `ConnLimits.ConnLimiter.TryAcquire` | daemon/src/conn_limit.rs:39-45 | admits exactly below the cap, or always without one, and counts exactly the admitted |
| `ConnLimits.ConnLimiter.Release` | daemon/src/conn_limit.rs:67-71 | dropping a guard gives back exactly one |
| `ConnLimits.CounterIsExact` | daemon/src/conn_limit.rs:39-71 | in every schedule the counter equals the live guards, so it never underflows |
| `ConnLimits.CounterIsBounded` | daemon/src/conn_limit.rs:39-45 | with at most k attempts inside, counter plus attempts past the check stay within max + k - 1 |
| `ConnLimits.ConnectionBound` | daemon/src/conn_limit.rs:39-71 | live connections never exceed max + k - 1, and never max for one acceptor |
| `ConnLimits.BoundIsTight` | daemon/src/conn_limit.rs:39-45 | for every cap and k some schedule reaches max + k - 1 |

## Left out

- Sockets, TLS, peer-to-peer transport, HTTP and JSON-RPC framing, start-up wiring, and the refusal to start after an ambiguous migration: plumbing around the modelled calls.
- The internals of the CRDT library, SQLite and the query database: documents are operation sets, the database a snapshot and rows per document, a query store a map of rows. Links, full-text search and transclusions of a row are not modelled.
- Loads that come back short, outside `ShortLoads`. The integrity hash that discards a corrupt snapshot on load has the effect of a snapshot the load did not see. A snapshot or log row that does not decode is covered by the flag for a load that reports failure.
- DocStoreRuns.RunRefines: does not cover loads that come back short without an error; nor does what builds on it.
- An append that reports failure after its row was committed, because the row id could not be read back (daemon/src/storage.rs:322-328), and a failing `COMMIT` of a compaction, which leaves its transaction open on that connection (daemon/src/storage.rs:425): an append or compaction that reports failure has changed nothing here.
- The projector's error branches for a state that does not decode: the state was encoded by the store in the same call, and a missing field reads as empty.
- The membership derivation and signature checks: a parameter with a stated hypothesis.
- SHA-256: an arbitrary function of the framed bytes.
- Lock contention: `DocStores` operations are atomic per document, so the least-recently-used scan never skips a busy document; `LogSteps` covers the interleavings of the write path, but not of share and delete.
- Counter overflow of `u32`, `u64` and `usize` fields other than lengths, and preallocation in the artifact parser.
- That a recorded save counts as activity (daemon/src/doc_store.rs:844-851): it would only keep a document longer.
- Save epochs, sharer sessions, KB metadata, document size limits, state-vector diffs and listing queries: single-field bookkeeping or easy members.
- Search, health, titles and agenda queries: loops over one KB without a law of their own.
- Deletion of KB documents in `ProjectorSteps`: nothing there announces it, and the durable documents it models are only rewritten.
- Failing row writes and deletes in the projector, which the code logs and skips.
- Healing.SecondPass: for documents that carry foreign ids the report of a second pass depends on the visiting order, so the exact report is stated for self-named ones; `Healing.HealingIsIdempotent` covers all documents.
- Shared aliases of one in-memory entry: entries are values here, except in `LogSteps`, where a held entry can outlive its place in the working set.
