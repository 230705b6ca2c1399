# Verified model of the incremental ingest

The repository turns a LevelDB-backed IndexedDB log into a relational chat store: messages, conversations, people, profiles, events, calls and a search index. Rebuilding that store from every record is slow, so almost every path has a fast form: a delta apply, a folded table cache, whole-store tables that are skipped, a search index patched in place, a single-pass derivation, back-references replayed from bytes. Each fast form promises to give what the slow form would. This project models both forms, states the promise and proves it, or states exactly when it holds.

## What is modelled

The engine, from the served store down to the bytes:

- `Session.dfy`, `Runs.dfy`, `Owners.dfy`: the refresh policy of a session over its two engines, as a class; what the served store is worth after any run of refreshes, down to its handles; and why a growing log guarantees it.
- `ChatStore.dfy`, `MessageFold.dfy`: the store's tables changed in place by the full build, by the JS incremental apply and by the native one with its unchanged-store skip.
- `Builds.dfy`, `Delta.dfy`, `Recompute.dfy`, `Tables.dfy`, `Source.dfy`, `Handles.dfy`: what a full build of a snapshot is, what a delta gives, and when the two agree; the derived tables; short handles.
- `Extraction.dfy`: what a build holds, said of stores, records and bodies.
- `Derive.dfy`: the single-pass derivation used by other back ends, against the declarative recompute.
- `History.dfy`, `Refresh.dfy`, `Load.dfy`: the log as put and delete operations with rising sequence numbers, files that may drop shadowed entries and elide tombstones, the snapshots loaded from them, and what follows from equal signatures or an unmoved high-water mark.
- `Dedup.dfy`, `LdbCache.dfy`, `Loader.dfy`, `Directory.dfy`: the fold that keeps one entry per key, the native cache of a folded prefix and the JS cache of parsed tables, the three loaders from a directory to a snapshot, and a log's history written into a directory that they undo.
- `StructuredClone.dfy`, `CloneReader.dfy`, `CloneWriter.dfy`: the value decoder with a table of values, the one that replays byte offsets, the two mutable readers, and a writer of every form, with what each form means, that both undo.
- `Wal.dfy`, `WalWriter.dfy`, `Varint.dfy`: the log parser, and the writer of LevelDB's log format it undoes.
- `Snappy.dfy`, `Glob.dfy`, `Civil.dfy`, `Transfer.dfy`, `Pool.dfy`, `Paging.dfy`: block decompression, store-name patterns, calendar days, the transfer codec, the worker pool, message paging.
- `Base.dfy`: options, text order, sorting, decimal and little-endian numbers.

Classes stand where the source changes objects in place (`ChatStore`, `HandleAllocator`, `Dedup`, `LdbCache`, `TableCache`, `Session`, `Reader`, `TableReader`, `Pool`); methods with loops stand where it loops; everything else is a function or a lemma. A platform function the model does not open (hashes, checksums, record decoders, the vote for the current user, text decoders) is a function-valued parameter, so every result holds for all of them.

A full build is a relation, `Builds.IsBuild`, not a function: SQL leaves open which of two messages with the same sender, timestamp and id names the sender. `Builds.BuildUnique` shows that this and the order of index rows are all it leaves open.

## Where the code falls short of its promises

The code is kept as it is; each gap has an exact condition.

- An increment equals a full build exactly when every key is reconcilable (`Delta.DeltaEqualsFull`, `Builds.IncrementIsFullBuild`). One owner per key is enough (`Delta.OneOwnerReconciles`); two records carrying one message are not (`Delta.DuplicateLost`).
- A store built from a lossy first load is brought up to date only by records written later. Whatever is stored, a delta gives the messages of a full build exactly when every key agrees (`Delta.DeltaAgrees`), with one owner per key exactly when every record at or below the floor is up to date (`Delta.DeltaAgreesByRecord`, over a log `Refresh.LossyIncrement`). A record that was not read stays away (`Delta.LossyLosesUnread`), one read in an old version stays old (`Delta.LossyKeepsStale`), and only a complete full build ends this for certain (`Runs.IncompleteWorth`). Over any number of deltas, while messages keep their chains, it comes down to the records at or below the first floor (`Delta.RunAgrees`, over a log `Runs.LossyRunOverHistory`); when a message changes chains it does not (`Delta.LossyOvertakes`).
- The comment on the no-op exit says the high-water mark counts tombstones, so that nothing can have changed when it did not move. Compaction can elide the newest tombstone (`History.ElidedTombstone`), and then a deleted message stays (`Owners.ElidedStaysShown`). The live records are the same exactly when every touched key was dead (`History.NoOpExitExact`); the store is still a full build exactly when nothing that vanished from a mapped store was to be seen (`Owners.NoOpExitAtStore`), as when each mapped store has as many records as before, which the exit could look at (`Owners.NoOpExitByStore`, `Owners.SameCountsUnseen`).
- The single-pass derivation starts its maxima at zero, so it equals the recompute exactly when nothing that is shown peaks below the epoch (`Derive.DeriveIsRecompute`; `Derive.BeforeEpoch` is one message that shows the difference).
- A cursor behind a negative timestamp, an empty id or an id with a line end leads back to the first page (`Paging.CursorRoundTrip`, `Paging.FollowAll`; `Paging.LedBack` is one row that does).
- A rebuild that is latched is meant to come next, but the copy-reuse path does not look at the latch. It happens exactly when that path leaves the tick alone and the source can be read and built from (`Sessions.LatchedFullHappens`); an increment can overtake it (`Sessions.LatchOvertaken`).
- When the engine asks for a rebuild during an increment and that rebuild throws, the session attempts it a second time; the comment only speaks of one. Exactly then does the second attempt matter (`Sessions.SecondAttempt`, `Sessions.SecondAttemptServes`).

## Model

| member | source | states |
|---|---|---|
| Runs.RunOverHistory | packages/libzaungast/src/session.ts:185-378 | from a new session whose first build is complete, while the log grows and is compacted, the served store stays exactly the full build of the snapshot last fully read and applied; every complete read must show one schema, one user and one owner per message, rows of tables a step leaves alone must have one owner too, and between reads with one mark nothing to be seen may vanish from a mapped store |
| Runs.Run | packages/libzaungast/src/session.ts:185-378 | over any run of refreshes (forced or not, in place, swapped, skipped, deferred, lossy, throwing) that are steady, the same, and the rows are those of a rebuild from nothing, handles included, unless two ids shown during the run share six digits |
| Runs.FreshRows | packages/libzaungast/src/util/handles.ts:10-41 | a full ingest whose allocator only named some ids holds the rows of a fresh build, handles included, when none of them collide |
| Runs.IncompleteWorth | packages/libzaungast/src/session.ts:290-309 | after a lossy build only a complete full makes the store complete; until then a delta makes it the full build of what was read iff every key agrees, whatever is stored |
| Runs.LoggedIsSteady | packages/libzaungast/src/ingest/ingest.ts:66-167 | a run of such reads of one growing log is steady, under any compaction |
| Runs.LossyRunOverHistory | packages/libzaungast/src/ingest/ingest.ts:71-128 | from any stored table, lossy or not, deltas to complete loads of one log give the messages of a full build iff each live record at or below the first mark was stored exactly from the start, as long as messages keep their chains |
| Sessions.Session.Refresh | packages/libzaungast/src/session.ts:268-378 | each refresh, throwing ones included, leaves the store as it was, replaces it by a full build, or brings it one delta forward, each exactly under the conditions of `Sessions.Decided`, told by the backstops, lossiness, the mapped stores and what the engine saw; only the served store is open, one snapshot directory is left, the counter stays within its limit, and the probe moves only when a complete source was applied |
| Sessions.RefreshTable | packages/libzaungast/src/session.ts:185-378 | when a refresh throws, rebuilds, applies, keeps and latches, as equivalences over what the tick brings, without reference to the policy functions the methods follow |
| Sessions.MovedTrips | packages/libzaungast/src/ingest/ingest.ts:78-86 | the tripwire goes off iff some store is mapped now and was not at the full ingest, or the other way round |
| Sessions.MovedStoresRebuild | packages/libzaungast/src/ingest/ingest.ts:78-86 | when nothing earlier in the tick decides, a complete read with moved stores replaces the store by what the full build loads |
| Sessions.MovedStoresLatch | packages/libzaungast/src/session.ts:224-230 | over an uncompacted mirror the same read leaves the tick alone with a full demanded, which the fresh copy then gives |
| Runs.BackstopsHold | packages/libzaungast/src/session.ts:188-193 | over any run, since the last full no more increments were applied than allowed, and none when both looks at the clock came too late |
| Sessions.DueFullHappens | packages/libzaungast/src/session.ts:311-324 | a full that is forced or due happens whenever the source can be read and built from; only a lossy read over a matched store is turned away |
| Sessions.LatchedFullHappens | packages/libzaungast/src/session.ts:185-203 | a latched full happens iff the fast path leaves the tick alone and the source can be read and built from; the latch outlives the tick iff the fast path handled it or the source could not be read |
| Sessions.LatchOvertaken | packages/libzaungast/src/session.ts:185-203 | two ticks where a full is latched, cannot be done, and is overtaken by an increment |
| Sessions.SecondAttempt | packages/libzaungast/src/session.ts:328-366 | the second attempt at a rebuild matters iff the engine asked for the first and that threw |
| Sessions.SecondAttemptServes | packages/libzaungast/src/session.ts:328-366 | a tick where it is the second attempt that serves |
| Sessions.SteppedWithinBackstops | packages/libzaungast/src/session.ts:188-193 | increments stay within both backstops and only a complete read of unmoved mapped stores is ever applied as one |
| Sessions.Session.ReuseMirror | packages/libzaungast/src/session.ts:205-263 | after the mirror: lossy keeps, a vanished file defers, anything thrown or a rebuild asked for latches a full, only an applied delta moves the probe |
| Sessions.Session.ReadFresh | packages/libzaungast/src/session.ts:273-377 | the fresh read: a full latch is spent exactly when the source could be read, and the outcome follows the policy |
| Sessions.Session.ReadLive | packages/libzaungast/src/session.ts:280-286 | a copy that fails leaves no directory and the served store as it was; a throw later still drops the old copy |
| Sessions.Session.TakeSnapshot | packages/libzaungast/src/session.ts:133-147 | a new directory, of which a failed listing leaves no trace |
| Sessions.Session.TryCopyReuse | packages/libzaungast/src/session.ts:185-203 | the fast path is entered exactly under the documented conditions, and otherwise changes nothing |
| Sessions.Session.DoFull | packages/libzaungast/src/session.ts:294-309 | a build off a lossy read replaces only an unmatched store; otherwise the counters restart and the store is the build of what was loaded |
| Sessions.Session.Reparse | packages/libzaungast/src/session.ts:328-366 | a delta iff the engine does not throw and the read can be applied; a rebuild only when it throws or demands one, and then always if the build loads, a lossy one only over an unmatched store; the second attempt the catch gives |
| Sessions.Session.ApplyRead | packages/libzaungast/src/session.ts:311-366 | which reads rebuild, which apply a delta and which keep the store; the latch is always cleared |
| Sessions.Session.Reconcile | packages/libzaungast/src/session.ts:367-377 | of the two copies that exist during a read exactly the one the session points at is left, whatever happened, and the probe moves only when the source was applied |
| Sessions.Session.Adopt | packages/libzaungast/src/session.ts:301-306 | swapping in a store closes the replaced one and no other |
| Sessions.Session.JsRefresh | packages/libzaungast/src/ingest/js-engine.ts:16-28 | the JS engine keeps iff the read is lossy, demands a rebuild iff it is complete and a mapped store moved, and otherwise changes the served store and its high-water mark: then the tables are those of the delta, and a full build of the old snapshot became one of the new if the step can be relied on |
| Sessions.Session.NativeRefresh | packages/libzaungast-native/src/store/refresh.rs:412-498 | keeps iff the source is unmoved or the read over a usable file is lossy, demands a rebuild iff there is nothing to build on or a complete read has a moved store, and otherwise hands over a new file; the served store is never changed, and the new one is the full build when the step can be relied on |
| Sessions.NextIs | packages/libzaungast-native/src/store/refresh.rs:412-498 | after a delta the JS engine has moved its high-water mark and nothing else; the native one has voted again, listed the mapped stores again and signed the whole-store tables |
| Sessions.Session.EngineReuse | packages/libzaungast-native/src/store/refresh.rs:500-580 | a compacted load is never applied, a lossy one keeps the store, each engine asking in its own order |
| Sessions.SteadyStep | packages/libzaungast/src/ingest/ingest.ts:66-167 | one engine step, including the no-op exit, takes a full ingest of one snapshot to a full ingest of the next |
| Runs.GoodStep | packages/libzaungast/src/session.ts:268-378 | whatever a refresh does, it keeps a complete faithful matched store one, and handles go only to ids of the old or the new store |
| Owners.SteadyOverHistory | packages/libzaungast/src/ingest/ingest.ts:66-167 | two loads of one growing log, under any compaction, meet the session's hypothesis when messages have one owner and schema and user stay; when the mark did not move, if nothing to be seen vanished from a mapped store |
| Builds.KeptIsBuild | packages/libzaungast/src/ingest/ingest.ts:88-93 | a store left as it is stays a full build iff both snapshots show the same messages, conversations, columns and whole-store rows |
| Owners.NoOpExitAtStore | packages/libzaungast/src/ingest/ingest.ts:88-93 | when the mark did not move, a full build left alone is one of the new snapshot iff nothing that vanished from a mapped store was to be seen |
| Owners.SameCountsUnseen | packages/libzaungast/src/ingest/ingest.ts:88-93 | as many records as before in every mapped store mean that nothing vanished there, whatever became of the others |
| Owners.ElidedStaysShown | packages/libzaungast/src/ingest/ingest.ts:88-93 | two loads with the same mark, stores and schema where the exit keeps a deleted message |
| Owners.NoOpExitByStore | packages/libzaungast/src/ingest/ingest.ts:88-93 | when the mark did not move, a store lists the same records iff it has as many as before |
| Owners.VanishedMessages | packages/libzaungast/src/ingest/ingest-core.ts:149-159 | losing records, in whatever order the others are listed, leaves the messages of a build alone iff none of them gives a row |
| Owners.VanishedConversations | packages/libzaungast/src/ingest/ingest-core.ts:358-377 | losing conversation records shows nothing iff each conversation they describe has blank columns and messages to stay for |
| Owners.VanishedRows | packages/libzaungast/src/ingest/ingest.ts:126-132 | losing records leaves a whole-store table alone iff none of them writes a row |
| Builds.IncrementIsFullBuild | packages/libzaungast/src/ingest/ingest.ts:66-167 | after a delta from the build of one snapshot, messages, people, conversations, profiles, events, calls and index together are a full build of the next iff every key is reconcilable |
| Builds.IncrementOverAnything | packages/libzaungast/src/ingest/ingest.ts:66-167 | over any stored messages a delta gives a full build iff it gives that build's messages, iff every key agrees |
| Builds.BuildNamesOwn | packages/libzaungast/src/ingest/store.ts:389-439 | a fresh build gives handles to its own conversations and people only |
| Extraction.BuiltMessages | packages/libzaungast/src/ingest/ingest-core.ts:87-159 | a build has a row under (conversation, id) iff some body of a mapped record carries them, and the row is that of the body with the highest version, the last one met of several, with its record key and its kind |
| Extraction.BuiltMetas | packages/libzaungast/src/ingest/ingest-core.ts:358-390 | a conversation has the columns of the last of its records, in store, record and body order |
| Extraction.BuiltRows | packages/libzaungast/src/ingest/store.ts:225-243 | a profile, event or call row is the last of its id that counts; a profile counts with an id and a name |
| Extraction.TargetsAre | packages/libzaungast/src/format/resolver.ts:71-91 | an entity is read from the catalogued stores that have a database and are selected, in dictionary order |
| Extraction.KindIs | packages/libzaungast/src/ingest/ingest-core.ts:29-35 | the kind is that of the first of five texts the id has as a part, in order |
| Extraction.IndexHolds | packages/libzaungast/src/ingest/store.ts:446-450 | the index holds each non-system message with content exactly once and nothing else |
| Extraction.ParticipantsAre | packages/libzaungast/src/ingest/store.ts:389-439 | every conversation of a build or an increment names those who spoke there last, without the elected user |
| Extraction.PersonIs | packages/libzaungast/src/ingest/store.ts:403-420 | the people are the senders of non-system messages, each with its handle, how many those are, when the newest was and the name it carries |
| Extraction.ConversationIs | packages/libzaungast/src/ingest/store.ts:392-428 | the conversations are those with a record or any message, each with its handle, its kind, its last record's columns, the numbers of its non-system messages and of their senders, and when the newest was |
| Builds.BuildUnique | packages/libzaungast/src/ingest/store.ts:389-439 | two builds of one snapshot hold the same rows in every table |
| Builds.SameTables | packages/libzaungast-native/src/store/extract.rs:32-53 | without six-digit collisions an incrementally maintained store and a fresh build hold the very same rows, handles included |
| Builds.BuildBookShort | packages/libzaungast/src/util/handles.ts:10-41 | a fresh build's handles are all the six-digit ones when no six digits collide |
| Builds.SeededBuild | packages/libzaungast-native/src/store/extract.rs:32-53 | a build stays one under an allocator seeded from the stored rows alone |
| Delta.DeltaAgreesAt | packages/libzaungast/src/ingest/ingest.ts:95-128 | for any stored table whatever, delta and full build agree on a key iff a row from an unrewritten record is stored and newest, and no surviving row is newer than what arrives |
| Delta.DeltaAgrees | packages/libzaungast/src/ingest/ingest.ts:95-128 | for any stored table the two message tables are equal iff every key agrees |
| Delta.DeltaAgreesByRecord | packages/libzaungast/src/ingest/ingest.ts:71-128 | with one owner per key, iff every live record at or below the floor is up to date in the store |
| Delta.LossyLosesUnread | packages/libzaungast/src/ingest/ingest.ts:71-128 | a concrete log where a record a lossy first load did not read stays away after a complete one |
| Delta.LossyKeepsStale | packages/libzaungast/src/ingest/ingest.ts:71-128 | a concrete log where the old version a lossy first load read stays after a complete one |
| Delta.RunAgrees | packages/libzaungast/src/ingest/ingest.ts:71-128 | after any number of deltas from any table, while messages keep their chains, the messages are those of a full build iff each live record at or below the first mark was stored exactly from the start |
| Delta.LossyOvertakes | packages/libzaungast/src/ingest/ingest.ts:71-128 | a concrete log where a message changes chains and is lost although every record at or below the first mark was stored exactly |
| Delta.DeltaEqualsFullAt | packages/libzaungast/src/ingest/ingest.ts:95-128 | over a build of an earlier complete load, with no assumption on duplicates, they agree on a key iff that key is reconcilable |
| Delta.DeltaEqualsFull | packages/libzaungast/src/ingest/ingest.ts:95-128 | the two message tables are equal iff every key is reconcilable |
| Delta.OneOwnerReconciles | packages/libzaungast/src/ingest/ingest.ts:95-128 | one live chain per message, before and after, makes every key reconcilable |
| Delta.OwnerWins | packages/libzaungast/src/ingest/ingest-core.ts:149-159 | the row a build keeps for a key is the one its own record alone would give |
| Delta.ChangedWinner | packages/libzaungast/src/ingest/ingest.ts:98-128 | leaving out unchanged records keeps the winner or leaves something older |
| Delta.DuplicateLost | packages/libzaungast/src/ingest/store.ts:361-387 | a concrete log where deleting the newer of two records carrying one message loses the message |
| Delta.MissedStaysMissed | packages/libzaungast/src/ingest/ingest.ts:98-115 | a record with nothing stored and nothing newer leaves nothing in the table after any delta, though a full build takes its row |
| Tables.UpsertAllLookup | packages/libzaungast/src/ingest/store.ts:147-180 | a run of version-guarded upserts leaves each key with the better of the old row and the rows' winner |
| Tables.WinnerIsLastNewest | packages/libzaungast/src/ingest/store.ts:147-180 | the winner of a key is the last of its newest rows |
| Source.ToHexInjective | packages/libzaungast/src/ingest/ingest.ts:106-107 | distinct record keys have distinct chain keys |
| ChatStores.ChatStore.ApplyIncremental | packages/libzaungast/src/ingest/ingest.ts:66-167 | lossy loads and moved schemas change nothing, an unmoved high-water mark changes nothing, otherwise every table becomes that of the delta and a right index stays right; new handles go only to ids now in the store |
| ChatStores.ChatStore.ApplyMessageDelta | packages/libzaungast/src/ingest/ingest.ts:98-128 | the messages table becomes the delta of the old one, and every row that differs has its id reported |
| ChatStores.ChatStore.ReconcileConversations | packages/libzaungast/src/ingest/ingest.ts:136-150 | meta columns are those of the live records; conversations with neither record nor message are gone, including those orphaned by message changes alone |
| ChatStores.ChatStore.RecomputeDerived | packages/libzaungast/src/ingest/store.ts:389-439 | people, counts, activity, names and participants are the declarative aggregates of the messages (what they show is `Recompute.ParticipantsShown` and `Recompute.LatestName`), and handles are assigned in the documented order |
| ChatStores.ChatStore.RefreshFts | packages/libzaungast/src/ingest/store.ts:441-464 | a full refresh indexes each indexable message once; a delta refresh keeps a right index right whenever the ids cover every changed row |
| ChatStores.DeltaIndex | packages/libzaungast/src/ingest/ingest.ts:117-121 | re-deriving only touched ids gives the index of the new messages |
| ChatStores.ScanChains | packages/libzaungast/src/ingest/ingest.ts:95-115 | one pass yields the live chains, the rewritten chains and their records |
| ChatStores.ChatStore.DeleteMessagesForMissingChains | packages/libzaungast/src/ingest/store.ts:371-387 | exactly the rows of vanished chains go, and their ids are reported |
| ChatStores.ChatStore.DeleteMessagesByChain | packages/libzaungast/src/ingest/store.ts:361-369 | exactly the rows of one chain go, and their ids are reported |
| ChatStores.ChatStore.ApplyMessages | packages/libzaungast/src/ingest/ingest-core.ts:126-139 | rows are upserted in order and every changed id is reported |
| ChatStores.ChatStore.UpsertConversationMeta | packages/libzaungast/src/ingest/store.ts:133-145 | a known conversation keeps its handle and other columns, a new one takes its handle |
| ChatStores.ChatStore.RefreshStore | packages/libzaungast-native/src/store/refresh.rs:143-262 | the native delta gives the same store as the JS one whenever the skipped tables already hold what a replacement would write |
| ChatStores.ChatStore.ReplaceChangedStores | packages/libzaungast-native/src/store/refresh.rs:231-250 | a whole-store table is replaced iff its signature moved |
| ChatStores.ChatStore.Copy | packages/libzaungast-native/src/store/extract.rs:32-53 | the next file has the same rows and an allocator that agrees with the old one on every stored id |
| ChatStores.SeedShort | packages/libzaungast-native/src/store/extract.rs:32-53 | seeding from rows keeps six-digit handles six-digit |
| ChatStores.BuildStore | packages/libzaungast/src/ingest/ingest-core.ts:879-935 | the store a full build leaves is the build of its snapshot, index included unless deferred, with handles in build order |
| MessageFold.FoldMessageWinners | packages/libzaungast/src/ingest/ingest-core.ts:141-159 | the fold gives the same rows in the same order as upserting row by row |
| MessageFold.InsertMessagesBulk | packages/libzaungast/src/ingest/store.ts:182-223 | batches of 256 and a remainder drop, repeat and reorder nothing on distinct keys |
| MessageFold.BuildMessages | packages/libzaungast/src/ingest/ingest-core.ts:149-162 | folding and bulk-inserting builds the table the row-by-row upserts build |
| MessageFold.FlatKeyInjective | packages/libzaungast/src/ingest/ingest-core.ts:145-154 | no two primary keys share a length-prefixed key |
| Handles.HandleAllocator.HandleFor | packages/libzaungast/src/util/handles.ts:15-41 | an issued handle is final; a new one is the first free length |
| Handles.NewHandle | packages/libzaungast/src/util/handles.ts:19-41 | a new id gets its letter, a colon and the shortest free run of six to forty digits of its hash, or its own first twelve characters when none is free |
| Handles.AssignAllSound | packages/libzaungast/src/util/handles.ts:19-41 | handles are prefixes of their ids' hashes, never shared and never changed by later assignments |
| Handles.AssignShort | packages/libzaungast/src/util/handles.ts:19-41 | without six-digit collisions the assignment order is irrelevant |
| Handles.AssignAllShort | packages/libzaungast/src/util/handles.ts:19-41 | six-digit handles stay six-digit over any run of assignments |
| Derive.DeriveTables | packages/libzaungast/src/ingest/ingest-core.ts:575-705 | the single pass gives the scanned aggregates, rows in the documented order and the handles of the build |
| Derive.DeriveIsRecompute | packages/libzaungast/src/ingest/ingest-core.ts:544-549 | the scanned tables are the recomputed ones iff nothing shown peaks before the epoch |
| Derive.BeforeEpoch | packages/libzaungast/src/ingest/ingest-core.ts:575-705 | one message before the epoch: the single pass shows no name and time zero, the recompute the name and the true time |
| Derive.DeriveMatchesBuild | packages/libzaungast/src/ingest/store.ts:389-439 | under the same condition they are the derived tables of the build |
| Recompute.DerivedUnique | packages/libzaungast/src/ingest/store.ts:389-439 | the recompute determines people and conversations |
| Recompute.ParticipantsShown | packages/libzaungast/src/ingest/store.ts:429-438 | the participants text names at most five named senders other than the user, fewer only when there are no more; whoever is left out spoke no later in the conversation than those shown, the last speaker comes first, ids decide ties |
| Recompute.LatestName | packages/libzaungast/src/ingest/store.ts:413-415 | a person has the name of a message no other message of theirs is newer than, ids deciding ties |
| History.CompactionKeepsLive | packages/libzaungast/src/format/chromium/indexeddb.ts:343-348 | dropping shadowed entries and eliding tombstones leaves the live records unchanged |
| History.FloorCarries | packages/libzaungast/src/ingest/ingest.ts:88-93 | a live record at or below the floor of an earlier load is the record that load saw |
| History.SignatureDeterminesStore | packages/libzaungast-native/src/store/refresh.rs:66-94 | over any extension and compaction, equal newest live sequence and live count mean identical live records |
| History.NoOpExitExact | packages/libzaungast/src/ingest/ingest.ts:88-93 | when the high-water mark did not move, the live records are the same iff every touched key was already dead, iff the live count is the same (Owners.NoOpExitAtStore says when the store is still right) |
| History.NoOpExitSound | packages/libzaungast/src/ingest/ingest.ts:88-93 | while the newest operation is on disk an unmoved mark means nothing happened |
| History.ElidedTombstone | packages/libzaungast/src/ingest/ingest.ts:88-93 | a log where compaction hides a deletion from the no-op exit (Owners.ElidedStaysShown shows the wrong store) |
| Refresh.IncrementOverHistory | packages/libzaungast/src/ingest/ingest.ts:66-167 | the increment theorem for loads of a growing log, its data hypotheses discharged |
| Refresh.LossyIncrement | packages/libzaungast/src/ingest/ingest.ts:66-167 | over a build of whatever part of the log a lossy load read, a delta gives the full build iff every record at or below the floor is up to date; with one owner per key before, every record that was read is |
| Refresh.ListedIffRead | packages/libzaungast/src/format/chromium/indexeddb.ts:66-123 | a live record was listed by an earlier load, complete or not, iff its operation was read |
| Refresh.SkipIsReplace | packages/libzaungast-native/src/store/refresh.rs:220-250 | with equal signatures and one owner per row key, the stored table is what the replacement would write |
| Refresh.SigSameRecords | packages/libzaungast-native/src/store/refresh.rs:72-94 | equal signatures mean the same stores with the same live records |
| Refresh.LoadedRecords | packages/libzaungast-native/src/format/idb.rs:247-342 | a load lists each live record of the mapped stores once, one per key |
| Load.CollectSnapshot | packages/libzaungast/src/format/chromium/indexeddb.ts:156-207 | survivors are grouped by store in order, tombstones only raise the high-water mark |
| Load.CollectLoads | packages/libzaungast-native/src/format/idb.rs:247-342 | grouping the survivors of what was read lists exactly what is live among it; with nothing unreadable it is a complete load |
| Load.CollectedOnce | packages/libzaungast/src/format/chromium/indexeddb.ts:156-207 | every collected snapshot, lossy or not, has one record per key over any of its stores |
| Loaders.DirectoryFold | packages/libzaungast/src/format/chromium/indexeddb.ts:209-267 | what a loader folds file by file is the fold of the directory's entries, tables then logs |
| Loaders.DirectoryLayout | packages/libzaungast/src/format/chromium/indexeddb.ts:209-267 | two directories with the same entries, however split over tables and logs, have the same survivors |
| Loaders.CompactedDirectory | packages/libzaungast/src/format/chromium/indexeddb.ts:343-348 | a directory without some shadowed entries has the same survivors |
| Loaders.LoadSnapshot | packages/libzaungast-native/src/format/idb.rs:247-342 | a cold load of a directory lists exactly what is live among its readable entries, one record per key, and is lossy iff something could not be read |
| Loaders.LoadSnapshotReuse | packages/libzaungast-native/src/format/idb.rs:448-530 | so does a load over the folded prefix, whatever is cached; it is flagged compacted iff a covered file name is gone |
| Loaders.LoadSnapshotParsed | packages/libzaungast/src/format/chromium/indexeddb.ts:349-410 | so does a load over cached parses |
| Loaders.LossyIffUnread | packages/libzaungast/src/format/chromium/indexeddb.ts:66-123 | a load is lossy iff some table is unreadable, was read in part or has a key too short for its trailer, or some log could not be parsed |
| Directories.WrittenLoads | packages/libzaungast-native/src/format/idb.rs:97-173 | a directory that holds operations of a log, in tables and in gapless batches down to the bytes of its log files, is loaded as exactly those operations; when they represent the log, the snapshot lists exactly what is live in it |
| Directories.DirectoryReadsBack | packages/libzaungast-native/src/format/idb.rs:97-173 | the loaders meet every written operation once, in order, under its own number, and nothing is lossy |
| Directories.OpEntry | packages/libzaungast-native/src/format/idb.rs:117-126 | operation `i` of a batch gives an entry numbered `i` after the batch, with its key, type and value |
| Dedups.FoldKeepsNewest | packages/libzaungast-native/src/format/idb.rs:62-91 | per key the highest sequence survives, the first seen on ties, in first-appearance order |
| Dedups.LayoutIrrelevant | packages/libzaungast/src/format/chromium/indexeddb.ts:209-240 | with distinct sequences per key the survivors of a list of entries do not depend on its order or repetitions; see Loaders.DirectoryLayout for directories |
| Dedups.DroppingShadowed | packages/libzaungast/src/format/chromium/indexeddb.ts:209-240 | leaving out shadowed entries leaves the survivors unchanged |
| Dedups.Dedup.Consider | packages/libzaungast-native/src/format/idb.rs:62-91 | considering an entry settles it into the fold |
| Dedups.Dedup.FoldAll | packages/libzaungast-native/src/format/idb.rs:97-126 | feeding a list of entries is the fold of the list |
| LdbCaches.LdbCache.BuildReuse | packages/libzaungast-native/src/format/idb.rs:448-530 | whatever is cached, the result is the cold fold of the directory and shares nothing with the cache; compaction is flagged iff a covered file vanished; the cached prefix is always a clean fold of the current tables alone |
| LdbCaches.LdbCache.AdvancePrefix | packages/libzaungast-native/src/format/idb.rs:474-512 | the tail folded onto the prefix gives the fold of all tables, unless one is not clean |
| LdbCaches.LdbCache.Rebuild | packages/libzaungast-native/src/format/idb.rs:464-473 | a fold is remembered iff it is clean |
| LdbCaches.BuildDedupMap | packages/libzaungast-native/src/format/idb.rs:138-173 | the cold read is every table in name order, then every log |
| LdbCaches.TableCache.BuildReuseMap | packages/libzaungast/src/format/chromium/indexeddb.ts:349-391 | the JS cache also gives the cold fold, sizes readable or not, flags compaction iff a cached file vanished, and forgets vanished files |
| LdbCaches.TableCache.ReadTable | packages/libzaungast/src/format/chromium/indexeddb.ts:66-123 | whatever is cached and whether or not sizes can be read, the result is the file's own parse; exactly the clean parses of a readable size are cached |
| LdbCaches.TrailerRoundTrip | packages/libzaungast-native/src/format/idb.rs:97-115 | splitting an internal key recovers key, type and 56-bit sequence |
| StructuredClone.ReplayIsTable | packages/libzaungast-native/src/format/value.rs:228-249 | for every buffer, replaying decodes iff each reference names a completed container and references nest at most 1025 deep; then value, end and id sequence are the table decoder's |
| StructuredClone.ReplayValue | packages/libzaungast-native/src/format/value.rs:172-253 | at any replay depth the two decoders agree on value, end and ids, or both fail |
| StructuredClone.ReplayReference | packages/libzaungast-native/src/format/value.rs:228-249 | re-reading a completed container gives its stored value, and a reference into an open one always ends in an error |
| StructuredClone.ReplayContainer | packages/libzaungast/src/format/chromium/structured-clone.ts:312-395 | a container's slot holds what reading its bytes gives |
| CloneWriter.ValueReadsBack | packages/libzaungast/src/format/chromium/structured-clone.ts:164-395 | every form of the format (one-byte, wide and UTF-8 text, signed and unsigned numbers, doubles, dates, boxed primitives, buffers, objects, dense and sparse arrays, maps, sets, padding) reads back as what it means, wherever it stands: of a repeated key the last value in the first place, indexed entries in their places, holes elsewhere |
| CloneWriter.WrittenDecodes | packages/libzaungast/src/format/chromium/structured-clone.ts:164-395 | both decoders give what was written means |
| CloneWriter.ValueDecodes | packages/libzaungast/test/fixture/encode.ts:142-177 | every value within the widths of the format can be written, and both decoders give it back |
| CloneWriter.AddsUp | packages/libzaungast/src/format/chromium/structured-clone.ts:312-395 | entry by entry a container comes to what it means: text and number keys of an object, any key of a map as text, indices of an array apart from its properties |
| CloneWriter.ReferenceReadsBack | packages/libzaungast/src/format/chromium/structured-clone.ts:266-270 | a reference after a container or buffer reads as the same value again |
| CloneReaders.TableReader.ReadValue | packages/libzaungast/src/format/chromium/structured-clone.ts:164-278 | the mutable reader with a table of values follows the table decoder, and so reads every written form as it is meant |
| CloneReaders.TableReader.ReadContainerOf | packages/libzaungast/src/format/chromium/structured-clone.ts:312-395 | a container takes its slot on entry and fills it when it ends |
| CloneReaders.Reader.ReadValue | packages/libzaungast-native/src/format/value.rs:172-253 | the mutable reader follows the decoder and always restores its replay depth |
| CloneReaders.Reader.ReadReference | packages/libzaungast-native/src/format/value.rs:228-249 | the position after a back-reference is the one before the detour |
| CloneReaders.Reader.ReadContainerOf | packages/libzaungast-native/src/format/value.rs:293-389 | a container is read as specified, its id reserved on entry on the forward pass only |
| Wal.ParseWal | packages/libzaungast-native/src/format/wal.rs:92-139 | the parser loop computes the specified batches |
| Wal.TornTail | packages/libzaungast/src/format/chromium/write-ahead-log.ts:50-56 | for any bytes, cutting the log anywhere parses to a prefix of its batches |
| Wal.EmitRecord | packages/libzaungast-native/src/format/wal.rs:43-90 | a record appends its batch, cut at the first malformed operation, or nothing when it has no header |
| WalWriter.ParseUndoesWrite | packages/libzaungast/test/fixture/encode.ts:217-292 | parsing recovers any batches the log writer fragments over blocks, and a torn log holds those of an earlier point in time |
| WalWriter.LevelDbMasks | packages/libzaungast/test/fixture/encode.ts:195-206 | LevelDB's rotate-and-add mask is undone for every 32-bit checksum, so the framing results hold under it |
| WalWriter.RecordRoundTrip | packages/libzaungast-native/src/format/wal.rs:98-137 | a record written at any file position, over any number of blocks, is reassembled |
| WalWriter.BatchRoundTrip | packages/libzaungast-native/src/format/wal.rs:43-90 | an encoded batch decodes to itself |
| WalWriter.FragmentBytes | packages/libzaungast/test/fixture/encode.ts:217-292 | each fragment of a written record, byte by byte: where it starts, what it takes of the record, that it stays inside one 32768-byte block, and its type |
| WalWriter.FragmentTypes | packages/libzaungast-native/src/format/wal.rs:118-136 | what a good fragment of each type does to the batches and to the record under way, stray ones included |
| WalWriter.BadFragments | packages/libzaungast-native/src/format/wal.rs:98-117 | a zeroed header leads to the next block; a fragment cut short or failing its checksum ends the log |
| Varints.RoundTrip | packages/libzaungast-native/src/format/wal.rs:24-41 | every 64-bit number reads back from its varint |
| LittleEndian.ByteAt | packages/libzaungast/src/format/chromium/write-ahead-log.ts:82-84 | byte `i` of a stored number counts 256 to the `i` |
| Snappy.Uncompress | packages/libzaungast/src/format/chromium/snappy.ts:16-84 | a well-formed block decompresses to its byte-by-byte content, with or without a larger scratch buffer, or fails when that is not as long as announced; for a written stream that content is its literals and repeated windows |
| Snappy.ElementReadsBack | packages/libzaungast/src/format/chromium/snappy.ts:34-61 | a written element of any kind, literals with each length width and copies with each offset width, is read back wherever it stands |
| Snappy.StreamContent | packages/libzaungast/src/format/chromium/snappy.ts:16-84 | a written stream is well-formed iff its copies reach back no further than what is there, and its content is what its elements make |
| Snappy.FeedForwardRepeats | packages/libzaungast/src/format/chromium/snappy.ts:63-79 | feeding forward repeats the last `offset` bytes |
| Snappy.CopyChunks | packages/libzaungast/src/format/chromium/snappy.ts:63-79 | growing non-overlapping chunks give the feed-forward bytes |
| Snappy.FillRun | packages/libzaungast/src/format/chromium/snappy.ts:64-67 | the one-byte fill gives the feed-forward bytes |
| Snappy.PeriodicIsFeedForward | packages/libzaungast/src/format/chromium/snappy.ts:69-72 | an extension is periodic iff it is the feed-forward one |
| Globs.Glob | packages/libzaungast-native/src/format/resolver.rs:48-72 | the matcher accepts a string iff some substrings for the stars make the pattern equal to it |
| Globs.GreedyMatches | packages/libzaungast-native/src/format/resolver.rs:48-72 | leftmost placement succeeds iff any placement does |
| Globs.SplitExact | packages/libzaungast-native/src/format/resolver.rs:49-52 | splitting at stars loses nothing |
| Civil.CountFromEpoch | packages/libzaungast-native/src/store/convert.rs:478-486 | the closed form is the day-by-day count from the epoch for every date, negative years included, and reaches every date |
| Civil.SuccIsOneMore | packages/libzaungast-native/src/store/convert.rs:478-486 | the next calendar day is exactly one more |
| Civil.DaysOrdered | packages/libzaungast-native/src/store/convert.rs:478-486 | later dates have greater numbers |
| Pools.Pool.Run | packages/libzaungast/src/pool.ts:95-100 | a submitted job is queued, in flight or settled, exactly one of them, and no idle worker waits beside a queued job |
| Pools.Pool.OnMessage | packages/libzaungast/src/pool.ts:60-67 | an answer resolves its worker's job and no other; a spurious one changes nothing |
| Pools.Pool.OnError | packages/libzaungast/src/pool.ts:68-76 | a failed worker is gone for good, its job is rejected, and when the last one goes every submitted job is settled |
| Pools.Pool.Pump | packages/libzaungast/src/pool.ts:29-43 | jobs are taken in order, only those that cannot be posted are rejected, nothing settled changes |
| Paging.FollowAll | packages/libzaungast/src/store-facade.ts:230-244 | following the cursors through a store ends and reads every non-system row of the conversation inside the time window exactly once, in order, iff every offered cursor is readable; otherwise it is led back to the first page |
| Paging.LedBack | packages/libzaungast/src/store-facade.ts:230-244 | one row before the epoch at one row a page: the offered cursor leads to the same page |
| Paging.MarksTellRows | packages/libzaungast/src/query.ts:460-484 | inside a window (ts, id) belongs to one row, so keyset paging neither skips nor repeats one |
| Paging.EachRowOnce | packages/libzaungast/src/query.ts:460-484 | rows carrying all marks of a window in order are all its rows, once each |
| Paging.QueryPage | packages/libzaungast/src/query.ts:460-484 | a page is the last rows of one conversation, non-system, inside the time window and before the cursor, oldest to newest; for keyed rows none that is left out is newer than one shown |
| Paging.PageIs | packages/libzaungast/src/query.ts:460-484 | said of timestamps and ids: at most `limit` wanted rows, fewer only when there are no more, oldest to newest, and every wanted row left out is older than each one shown |
| Paging.CursorSyntax | packages/libzaungast/src/query.ts:470-475 | a text is a cursor iff it is the word, a numeral and one non-empty line, and then it means just these |
| Paging.CursorRoundTrip | packages/libzaungast/src/query.ts:470-475 | a cursor reads back as its row iff the timestamp is not negative and the id is one non-empty line |
| Transfer.UnpackIsInverse | packages/libzaungast/src/format/table-transfer.ts:68-93 | unpacking succeeds iff the lengths use up both blobs exactly, and then packing gives the very same buffers |
| Transfer.RoundTrip | packages/libzaungast/src/format/table-transfer.ts:31-93 | unpacking a packed list gives it back, null and empty values apart |
| Transfer.Pack | packages/libzaungast/src/format/table-transfer.ts:125-155 | packing refuses exactly the lengths that could not be told apart |
| Transfer.Unpack | packages/libzaungast/src/format/table-transfer.ts:159-186 | unpacking gives the pieces at their running offsets, or fails |
| Transfer.PackTable | packages/libzaungast/src/format/table-transfer.ts:31-66 | a table of representable entries packs and unpacks to itself |
| Transfer.UnpackTable | packages/libzaungast/src/format/table-transfer.ts:68-93 | unpacking a table succeeds iff its lengths use up both blobs, and packing the result gives the very same buffers back |
| Transfer.RecordsRoundTrip | packages/libzaungast/src/format/table-transfer.ts:101-105 | a record range comes back with keys and values, sequence and type zeroed |
| Transfer.PackRecords | packages/libzaungast/src/format/table-transfer.ts:125-155 | packing records refuses exactly the lengths of 2^32 - 1 and more, and stores that number for a null value |

## Left out

- SQL text, drivers, pragmas, statement caching, full-text tokenising and ranking: tables are maps and sequences, each statement is modelled by its meaning.
- File copying, discovery, debouncing and `get`: how a copy, a listing, the clock or a load goes is an input of each refresh; `meta` fields other than those the policy reads are not modelled.
- Failures inside a transaction and throws after it was committed: an engine step either happens as a whole or not at all, so the full latch that is cleared before a forced rebuild succeeds is not claimed to survive one.
- Hashes, checksums, text and record decoders, HTML, reactions and attendees: uninterpreted deterministic functions; a checksum only has to survive its mask, and handles assume distinct hashes for the ids at hand.
- Collation: text order is by code unit, which is SQLite's byte order except for characters outside the basic plane.
- Numbers: timestamps, versions and decoded integers are exact integers, where the source has IEEE doubles beyond 2^53.
- Mapped stores are listed in sorted order, as the native engine does; the JS engine lists them in catalog order.
- Runs.Run: equality of handles needs that no two ids shown during the run share six digits, since a longer handle depends on the order of assignments; equality of person names needs that two messages of one sender with one (ts, id) agree on the name.
- Owners.SteadyOverHistory: the schema and the current user are assumed not to change, because the JS delta carries the user over instead of voting again.
- Refresh.SkipIsReplace: needs one owner per row key, because a replacement lets the last record win and record order is not part of a signature.
- The table cache identifies a file by name and size, as the source does.
- CloneReaders.TableReader.ReadValue: in JS a reference to an open container yields the partial object and one to nothing yields undefined; both are failures here, as they are in the native reader. Containers are values filled in when they end, so a shared reference decodes to an equal value; identity is not modelled. Properties keep the order in which their keys first came; JS lists keys that are numerals first.
- Structured-clone tags for big integers, regular expressions, views, resizable buffers and host objects, the envelope header, and lenient partial results: they add cases.
- Snappy.Uncompress: malformed streams are outside its precondition, because the two decoders treat them differently.
- The parallel extract's scheduling, the asynchronous loaders, the SSTable block reader.
- `pool.destroy`, worker creation that throws, and jobs submitted after the last worker failed, which stay queued.
- Paging around a pivot message, and the tools, renderers, topic scoring, schema proposal and `HysteresisRanker`.
- The timestamp parser around the calendar arithmetic.
