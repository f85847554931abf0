# any-cal, modelled and proved in Dafny

A model of the parts of any-cal where a mistake would lose or corrupt data, and proofs of what they
promise: the durable sync checkpoint, the in-memory repository and its write-through to a remote space,
the lock table, the iCalendar, vCard, XML and chunked-body codecs, date and interval arithmetic, the
composition of foreign references into a destination space, and the audit journal.

`dafny verify dfyconfig.toml` checks everything.

## How it is organised

| files | what they model |
|---|---|
| `sync_state`, `sync_disk`, `sync_store`, `sync_runs` | transactions as functions, a disk of temporary, primary and backup files, the store as a class over it, and whole lives with crashes |
| `envelope`, `repository`, `memory_repository` | envelopes and tags, the repository as a step function with its invariants, and the class that refines it |
| `anytype_objects`, `fake_transport`, `remote_space`, `adapter` | remote objects and the cache they build, the scripted remote, any remote with the log of its exchanges, and the write-through repository over either |
| `storing_remote`, `adapter_runs` | what the answers of a remote say that stores what it accepts, and calls put together over it: refreshing with any page size, writing and then reading |
| `adapter_scripts` | runs over the scripted remote: calls that succeed and are not read back |
| `object_locks` | any number of threads locking any key lists, step by step |
| `text`, `property_text`, `content_lines`, `xml_text` | string operations, quoting, escaping, folding |
| `ical`, `ical_lines`, `ical_range`, `ical_folding`, `ical_heads`, `ical_returned`, `ical_round_trip`, `ical_exact`, `ical_writer`, `vcard`, `vcard_exact` | parsers and writers, the round trips on their domains, and why they hold for nothing else |
| `chunked`, `chunked_proofs` | the two chunked decoders |
| `gregorian`, `http_date`, `free_busy` | calendar arithmetic and intervals |
| `composition`, `materialized_records`, `destination_space`, `materialize` | merge rules, and the run that writes a destination space |
| `audit_journal`, `audit_store`, `audit_writer` | the segmented log, the store over it, and its single writer behind a bounded queue |

Code that changes things step by step is modelled by classes and loops, each proved equal to a function;
what the program promises is proved about those functions, for every input, run or schedule.

## Conventions

- The remote, the file system, clocks, schedules and crashes are not modelled as they are but as anything
  they may do: a call may fail, time out after taking effect, or show pages of any size; a crash may come
  at any point.
- SHA-256 and JSON are injective: a tag is the normalized envelope, a written body is its record.
- Strings are sequences of characters; lengths that the program takes in UTF-8 bytes are computed as such.
- 64-bit counters saturate and `as i32` wraps, as in the program.

## What the proofs found

- `format` in the HTTP date module casts the year to `i32`. For some seconds far past year 10000 the wrapped
  year is in range again, so a text comes out that stands for another time (`HttpDate.FormatWrapsYear`). The
  round trip holds for exactly the seconds before year 10000.
- A directory sync that fails leaves the checkpoint on disk ahead of memory, so a later commit may take back
  an identity that the disk already knew (`SyncRuns.AheadOfMemory`). The next commits keep every identity exactly
  when memory knows what the disk knows (`SyncRuns.KeepsIdentitiesExactly`), which a commit that fails after its
  rename breaks exactly when it would have added one (`SyncRuns.LateFailureExactly`); without such commits nothing
  is ever lost (`SyncRuns.DiskRemembers`). If a crash can undo a rename that was not synced, one sequence of two
  commits leaves a checkpoint that cannot be opened (`SyncRuns.LostRenameCorrupts`); `SyncDisk.PublicationSafety`
  gives the exact condition.
- `observe` and `mark_applied` may show a resource beside its tombstone; `SyncState.SeparateExactly` says when.
- A create that times out without an effect takes any live object of the same collection, resource id, kind and UID
  for its own, whatever it holds, and returns a tag that the next read does not show
  (`AdapterScripts.StaleIsReturned`). That the space holds no such object with other contents is exactly what rules it
  out (`AdapterRuns.CreateThenRead`), and with a cache that was just refreshed the preflight refuses the other
  creates where the id or the UID has no carriage return (`AdapterRuns.RefreshedKnowsStale`).
- At the largest 64-bit revision an update no longer changes the tag, so one conditional update succeeds
  repeatedly (`Repository.SaturatedRevisionRepeats`).
- A rollover when the last segment has the largest 64-bit number overwrites that segment
  (`AuditJournal.RolloverKeeps` says exactly when that loses records).
- A chunk size with a leading `+` is accepted by the adapter and refused by the probe
  (`ChunkedProofs.SignedSizeDiffers`); `ChunkedProofs.ProbeAcceptsExactly` gives all the conditions.
- The adapter accepts writes that it does not read back. A refresh shows contacts and tasks only, and a resource
  under its id with normalized line ends, since the stored body is the canonical text; the write paths ask for
  neither. So an event that the calendar authority of `crates/app/src/lib.rs:702-716` pushes is created and then not
  found, a task that is updated to an event is gone from the adapter's view, and an id with a carriage return is not
  found as written (`AdapterScripts.CreateInEmptySpace`, `AdapterScripts.UpdateOnlyObject`). `AdapterRuns.CreateThenRead`
  and `AdapterRuns.UpdateThenRead` are the equivalences: at the written id it takes a contact or a task whose id has no
  carriage return (`AdapterRuns.WrittenIdIsReadable`), which a caller can check before the call.
- The calendar and contact round trips hold for exactly the domains of `ICalendarExact.RoundTripExactly` and
  `VCardExact.VCardRoundTripExactly`. Outside them are, among others, parameter values with a colon, even quoted;
  line feeds in parameter values, or in the values of the five properties that are printed raw; and for calendars
  parameter values with a backslash before their last character, since those are unescaped a second time. Inside
  are names with quotes, as long as these close and hide every semicolon of the name, and a property called BEGIN
  or END that has a parameter.
- In a materialization run the key index may lead to a record that was meanwhile rewritten for another source;
  uniqueness holds all the same (`MaterializedRecords.SelectedOwnsKey`).

## Model

| member | source | states |
|---|---|---|
| SyncState.IdentitiesConserved | crates/sync/src/lib.rs:426-565 | No transaction forgets an identity: the observed and tombstoned ids together only grow, and a tombstone goes away only when an explicit resurrection makes its resource observed again. |
| SyncState.EffectIs | crates/sync/src/lib.rs:426-565 | Every accepted transaction has its effect on observed resources, tombstones and pending operations, written out resource by resource, and counts one generation. |
| SyncState.DecidesExactly | crates/sync/src/lib.rs:449-548 | Exactly when a transaction is refused: a snapshot of a tombstoned id without resurrection, a blank operation id, another operation under a known id, or an unknown id to apply; and exactly when it is a repetition that commits nothing. |
| SyncState.ReplaceSeparates | crates/sync/src/lib.rs:449-489 | After an accepted snapshot the observed resources are exactly the snapshot, no id is both observed and tombstoned, and the tombstones are everything else that was ever known. |
| SyncState.ReplaceRefusal | crates/sync/src/lib.rs:449-468 | A snapshot is refused if and only if it contains a tombstoned id and no resurrection was asked for; the error names such an id. |
| SyncState.ByIdKeys | crates/sync/src/lib.rs:454-457 | The collected snapshot has exactly the ids of its items, each with an item of that id. |
| SyncState.ByIdLastWins | crates/sync/src/lib.rs:454-457 | Of several items with one id the last is the one kept. |
| SyncState.SeparateExactly | crates/sync/src/lib.rs:426-548 | Exact condition: from a state in which no resource is both observed and tombstoned, a transaction leads to another one if and only if the id that it shows unasked is no tombstone. Only `observe` and `mark_applied` show one, the latter not for the target of its own archive or delete; the overlap is then exactly that id. |
| SyncState.DecideKeepsValid | crates/sync/src/lib.rs:557-562 | The validation inside a transaction accepts every state that a transaction builds from a valid one, and the scope never changes. |
| SyncState.ValidateMeansValid | crates/sync/src/lib.rs:796-818 | `validate` succeeds exactly on the states with the supported version, a well-formed scope and pending operations under their own ids. |
| SyncState.GenerationCounts | crates/sync/src/lib.rs:557-562 | Over any list of transactions that all commit, the generation is the starting one plus the number of publications, saturating at the largest 64-bit number; `SyncRuns.DiskRemembers` is the statement with failures and crashes. |
| SyncState.RunConserves | crates/sync/src/lib.rs:426-565 | The same for identities, which only accumulate, and tombstones, which last until some change explicitly resurrects the id. |
| SyncState.PendingUntilApplied | crates/sync/src/lib.rs:490-540 | Over any run a pending operation stays as it was enqueued until it is applied, whatever else happens, and nothing is pending that was not enqueued as it is. |
| SyncState.EnqueuedStays | crates/sync/src/lib.rs:490-507 | So an operation whose enqueueing was accepted, now or before, is pending after every run that does not apply it. |
| SyncState.AppliedStaysBuried | crates/sync/src/lib.rs:508-540 | Once an archive or delete of a resource that is observed, or shown by its outcome, was applied, the resource is a tombstone over every later run until a snapshot resurrects it. |
| SyncDisk.PublicationIsSafe | crates/sync/src/lib.rs:566-615 | At every point of a publication (torn temporary file, torn backup copy, before or after the rename) opening reads the candidate if the rename happened and otherwise exactly what it read before. |
| SyncDisk.PublicationKeepsValid | crates/sync/src/lib.rs:566-615 | Every point of publishing a valid candidate over valid files leaves only valid files. |
| SyncDisk.PublicationOutcomes | crates/sync/src/lib.rs:566-615 | When a crash may also undo a rename that was not synced: a careful publication adds no outcome but the candidate to what a reopening could already read. |
| SyncDisk.PublicationSafety | crates/sync/src/lib.rs:566-615 | Exact condition: no point of a publication can leave a checkpoint that cannot be opened, if and only if it does not copy over the backup while an unsynced older version of the primary is missing or torn. |
| SyncDisk.SettledIsDurable | crates/sync/src/lib.rs:606-613 | After the directory sync the candidate is the only thing any crash lets a reopening read. |
| SyncDisk.FileSystem.WriteTemporary | crates/sync/src/lib.rs:581-591 | Changes the temporary file alone and may leave it torn at any moment; success means it holds the whole content. |
| SyncDisk.FileSystem.CopyToBackup | crates/sync/src/lib.rs:592-597 | Changes the backup alone, which is torn or the primary from then on; success means it equals the primary. |
| SyncDisk.FileSystem.Rename | crates/sync/src/lib.rs:604-604 | All or nothing: the temporary file becomes the primary, and until a directory sync the earlier versions stay possible. |
| SyncDisk.FileSystem.SyncDirectory | crates/sync/src/lib.rs:610-612 | Success leaves no other version of the primary possible. |
| SyncStore.OpeningSucceeds | crates/sync/src/lib.rs:287-341 | Opening a guarded checkpoint never reports corruption, yields a valid state, and the recovery flag it returns guards the checkpoint further. |
| SyncStore.Store.Open | crates/sync/src/lib.rs:287-341 | Reads the primary, else the backup, else a fresh state; validates and binds the scope; the lock stays exactly when a store comes out. |
| SyncStore.Store.Close | crates/sync/src/lib.rs:719-723 | Dropping the store releases the lock and leaves the files alone. |
| SyncStore.Store.Commit | crates/sync/src/lib.rs:566-615 | Every disk on the way is a point of publishing the candidate; success makes the candidate the only durable outcome and clears recovered mode; failure leaves memory and recovered mode alone, for every injected fault. |
| SyncStore.Store.Transaction | crates/sync/src/lib.rs:557-565 | Memory moves to the counted candidate exactly when the commit succeeded. |
| SyncStore.Store.Observe | crates/sync/src/lib.rs:426-431 | Success puts the item, and nothing else, into memory and onto the disk; failure leaves memory alone and the disk at a point of that publication. |
| SyncStore.Store.ReplaceObserved | crates/sync/src/lib.rs:449-489 | Success means that exactly the last item of each id is observed, that every other id ever known is a tombstone with what was known of it, and that pending operations stay; a snapshot of a tombstoned id is refused unless resurrection was asked for. |
| SyncStore.Store.Enqueue | crates/sync/src/lib.rs:490-507 | Success means that the operation is pending under its id, beside all others, with observed resources and tombstones as they were, and on disk if it was new; a blank id, or another operation under a known id, is refused. |
| SyncStore.Store.MarkApplied | crates/sync/src/lib.rs:508-540 | Success takes exactly this id out of the pending operations, shows the outcome, and makes the target of an archive or delete a tombstone with what was known of it; an unknown id is refused. |
| SyncStore.Store.RecordTombstone | crates/sync/src/lib.rs:541-548 | Success puts the tombstone where the resource was observed, and changes nothing else. |
| SyncStore.Store.RestoreExport | crates/sync/src/lib.rs:393-419 | Publishes a validated export of the same scope without saving the primary first; memory moves only on success. |
| SyncStore.ExportRestores | crates/sync/src/lib.rs:618-651 | An export of a valid state validates, and an export whose payload was altered does not. |
| SyncStore.ExportAccepted | crates/sync/src/lib.rs:631-651 | An export is accepted if and only if format and version are the known ones, the version of the state is said right, the state is valid and the digest is that of the payload. |
| SyncStore.BoundIsValid | crates/sync/src/lib.rs:771-795 | Binding a scope either refuses or yields a valid state. |
| SyncState.BindsExactly | crates/sync/src/lib.rs:771-795 | A checkpoint opens for a scope, or for none, if and only if that is its own, or it has none and is blank; it then has that scope and is otherwise as it was. |
| SyncState.ScopeAccepted | crates/sync/src/lib.rs:756-770 | A scope is well formed if and only if none of its five texts is blank or has a control character. |
| SyncRuns.StepIsSafe | crates/sync/src/lib.rs:287-615 | Every step of a checkpoint's life (opening, publishing, stopping, crashing at any point) keeps it readable and valid, shows the state from before or the candidate, and shows the candidate alone once it was acknowledged. |
| SyncRuns.NeverCorrupt | crates/sync/src/lib.rs:287-615 | Over every life of any length in which crashes keep renames, the checkpoint is never found corrupt. |
| SyncRuns.AcknowledgedSurvives | crates/sync/src/lib.rs:557-615 | An acknowledged state is the only thing that any crash lets a reopening read, whatever renames crashes undo, until another publication is attempted. |
| SyncRuns.CarefulStep | crates/sync/src/lib.rs:566-615 | When crashes may undo renames, a careful step keeps every possible outcome readable and adds none but the candidate. |
| SyncRuns.NeverCorruptWhenCareful | crates/sync/src/lib.rs:566-615 | Over every life in which publications are careful, even with undone renames, no outcome is corrupt. |
| SyncRuns.SettledIsCareful | crates/sync/src/lib.rs:592-597 | A publication that starts with a synced directory is careful. |
| SyncRuns.LostRenameCorrupts | crates/sync/src/lib.rs:566-615 | The condition is needed: a first commit whose directory sync fails, a second one cut off in its backup copy and the loss of the first rename give a checkpoint that cannot be opened. |
| SyncRuns.AheadOfMemory | crates/sync/src/lib.rs:604-609 | A failed directory sync leaves the disk ahead of memory, and a later commit then takes back an identity that the disk already knew. |
| SyncRuns.KeepsIdentitiesExactly | crates/sync/src/lib.rs:426-615 | Exact condition: every transaction that could be published next keeps all identities that the disk knows, if and only if memory knows them too. |
| SyncRuns.LateFailureExactly | crates/sync/src/lib.rs:604-612 | A commit that fails after its rename endangers an identity if and only if it would have added one. |
| SyncRuns.InStepStays | crates/sync/src/lib.rs:287-615 | While no commit fails after its rename, every step keeps memory and disk in step and the directory settled, crashes that undo renames included; the disk moves only to a transaction decided on what it held. |
| SyncRuns.DiskRemembers | crates/sync/src/lib.rs:287-615 | Over every life in which no commit fails after its rename, whatever crashes cut off or undo: the disk forgets no identity, a tombstone goes only by an explicit resurrection, and the generation counts the times that the disk changed, saturating. |
| SyncRuns.DiskKeepsOperation | crates/sync/src/lib.rs:287-615 | Over every such life an operation that is pending on disk stays there, as it is, until it is applied. |
| SyncRuns.EnqueuedIsKept | crates/sync/src/lib.rs:490-615 | So an acknowledged enqueueing is never lost, whatever crashes cut off or undo, until the operation is applied. |
| SyncRuns.CarriedIsStep | crates/sync/src/lib.rs:426-615 | Every transaction call of a store is a step of these lives or changes nothing at all, and every disk on its way is the point of a possible crash: so the theorems about lives speak of the store. |
| SyncRuns.RestoredIsStep | crates/sync/src/lib.rs:393-419 | The same for restoring an export. |
| SyncRuns.OpenedIsStep | crates/sync/src/lib.rs:287-341 | The same for opening and closing; the lock is held exactly while a store is open. |
| Envelope.NormalizeIdempotent | crates/core/src/envelope.rs:101-114 | Normalizing an envelope's JSON twice is normalizing it once, at any nesting. |
| AnytypeObjects.NormalValueExactly | crates/core/src/envelope.rs:101-114 | Normalizing takes the carriage returns out of every text at any nesting, and leaves exactly the values alone that have none. |
| Envelope.EmptyNameIs | crates/core/src/model.rs:131-138 | A name is refused as empty exactly when trimming leaves nothing of it, which is when every character is whitespace. |
| Envelope.EnvelopeAccepted | crates/core/src/envelope.rs:60-77 | An envelope is valid if and only if none of its four ids is blank and its document is of version 1. |
| Envelope.TagsAgree | crates/core/src/envelope.rs:88-114 | Two envelopes have one ETag if and only if they agree in every field up to the line ends in their texts; in particular the revision is part of what a tag identifies. |
| Repository.CanonicalDigest | crates/core/src/memory_repository.rs:65-71 | The program's own hash over canonical JSON has the two properties that the results below use. |
| Repository.After | crates/core/src/repository.rs:33-39 | The new modification time is never behind the clock and, below the largest 64-bit number, strictly after the old one. |
| Repository.StepKeepsValid | crates/core/src/memory_repository.rs:154-301 | Every call, successful or not, keeps the invariant: keys are resource ids, object ids and DAV UIDs are pairwise distinct, tags are hashes of the stored envelopes, collections exist. |
| Repository.HistoryIsValid | crates/core/src/memory_repository.rs:154-301 | So every state reachable by any sequence of calls satisfies it. |
| Repository.RefusalChangesNothing | crates/core/src/memory_repository.rs:154-301 | A refused call changes no resource, no collection and no clock. |
| Repository.AcceptedExactly | crates/core/src/memory_repository.rs:154-301 | Exactly when a call is accepted, for every call and condition, and which queued failure it uses up instead. |
| Repository.EffectExactly | crates/core/src/memory_repository.rs:154-301 | The effect of every accepted call: a deleted resource is gone, an archived one is marked, an updated one holds the caller's document under the next revision and its tag, a deleted collection takes its resources along, and everything else stays. |
| Repository.ErrorExplains | crates/core/src/memory_repository.rs:42-126 | Every error tells what is wrong: the id it names is unknown or taken, the identity clashes, the tag it reports is the stored one and not the one asked for, or the failure was queued. |
| Repository.IndexesAreComplete | crates/core/src/memory_repository.rs:127-139 | Rebuilt from the resources, each index has as many members as there are resources. |
| Repository.StepMovesForward | crates/core/src/memory_repository.rs:237-287 | What one call does to a resource that outlives it: only an update of it moves revision and tag, by one; only updates and archives of it move its time, to the stated value; every other call leaves it as it was. |
| Repository.HistoryMovesForward | crates/core/src/memory_repository.rs:237-287 | While a resource stays, its revision and modification time never fall, over any history. |
| Repository.WritesMoveTime | crates/core/src/memory_repository.rs:237-287 | Every update and archive moves the modification time strictly forward, whatever the clock was set to. |
| Repository.NoTagRecurs | crates/core/src/memory_repository.rs:237-265 | While the resource stays and revisions are not saturated, the tag it had before an update never comes back. |
| Repository.SingleWinner | crates/core/src/memory_repository.rs:72-95 | Of all updates that name one tag of a resource at most one ever succeeds, unless it is deleted or its revision is the largest 64-bit number. |
| Repository.SaturatedRevisionRepeats | crates/core/src/memory_repository.rs:254-262 | At the largest revision the tag stays, and the same conditional update succeeds again. |
| MemoryRepository.MemoryRepository.TakeFailure | crates/core/src/memory_repository.rs:33-41 | Uses up the first queued failure exactly when it is the expected one. |
| MemoryRepository.MemoryRepository.CheckReadFailure | crates/core/src/memory_repository.rs:42-54 | Reads fail exactly as the specification of the failure queue says. |
| MemoryRepository.MemoryRepository.CheckWriteFailure | crates/core/src/memory_repository.rs:55-64 | The same for writes. |
| MemoryRepository.MemoryRepository.IdentitiesInUse | crates/core/src/memory_repository.rs:108-126 | Finds a clash of object id or DAV UID with another resource if and only if there is one. |
| MemoryRepository.MemoryRepository.ListCollections | crates/core/src/memory_repository.rs:154-158 | Every collection once, in the order of the keys, or the injected failure. |
| MemoryRepository.MemoryRepository.CreateCollection | crates/core/src/memory_repository.rs:164-174 | The new state and the answer are those of the specified step. |
| MemoryRepository.MemoryRepository.DeleteCollection | crates/core/src/memory_repository.rs:175-184 | The same; a collection is removed together with the resources in it. |
| MemoryRepository.MemoryRepository.ListResources | crates/core/src/memory_repository.rs:185-204 | Every resource of the collection once, in the order of the ids, the archived ones only on request; or the error of the specified step. |
| MemoryRepository.MemoryRepository.GetResource | crates/core/src/memory_repository.rs:205-209 | The stored resource, or none, or the injected failure. |
| MemoryRepository.MemoryRepository.CreateResource | crates/core/src/memory_repository.rs:210-236 | The new state and the answer are those of the specified step, for every condition and failure. |
| MemoryRepository.MemoryRepository.UpdateResource | crates/core/src/memory_repository.rs:237-265 | The same for updates. |
| MemoryRepository.MemoryRepository.ArchiveResource | crates/core/src/memory_repository.rs:266-287 | The same for archiving. |
| MemoryRepository.MemoryRepository.DeleteResource | crates/core/src/memory_repository.rs:288-301 | The same for deletion. |
| Adapter.AnytypeRepository.Complete | crates/anytype-adapter/src/lib.rs:1605-1623 | The full object behind a listed one is that object or, when its body was left out, what a read in this call showed under the same id; foreign spaces and ids are refused. Over the scripted remote it is the stored object. |
| Adapter.AnytypeRepository.StagePage | crates/anytype-adapter/src/lib.rs:1605-1672 | Stages every object of a page, in order, fetching left-out bodies; one failure fails the page. Over the scripted remote the result is that of staging the page itself. |
| Adapter.AnytypeRepository.FetchAll | crates/anytype-adapter/src/lib.rs:1598-1677 | Success means the pages were followed from the first to one without a successor and every listed object was fetched; nothing is written. Over the scripted remote it ends because offsets advance, and its result is exactly that of staging all visible objects of the space, whatever the page size. |
| Adapter.AnytypeRepository.Hydrate | crates/anytype-adapter/src/lib.rs:1592-1704 | All or nothing: on error resources, collections and clock of the cache are unchanged; on success the cache is what a refresh from exactly the objects listed by a complete walk of the pages gives. Over the scripted remote success, error and cache are those of refreshing from all visible objects of the space. |
| Adapter.AnytypeRepository.BuildCache | crates/anytype-adapter/src/lib.rs:1678-1690 | Filling an empty cache with the staged envelopes succeeds or fails as specified. |
| Adapter.AnytypeRepository.AddConfigured | crates/anytype-adapter/src/lib.rs:1694-1702 | The configured collections are added where they are missing. |
| Adapter.AnytypeRepository.ReconcileWrite | crates/anytype-adapter/src/lib.rs:1844-1874 | Only reads, at most `max_reads` of them, and exactly their outcome: the first read that decides is the result, and a timeout means that none did. Success shows the object with the body and properties that were sent, or archived. |
| Adapter.AnytypeRepository.ReconcileCreate | crates/anytype-adapter/src/lib.rs:1875-1918 | Only reads, at most `max_reads` listings; success means an object shown in them has the expected DAV identity. Over the scripted remote an object with that identity on the first `max_reads` pages is found. |
| Adapter.AnytypeRepository.ConfirmArchive | crates/anytype-adapter/src/lib.rs:1919-1958 | At most `max_reads` reads, and exactly their outcome: the first that shows the object archived, or missing where that is allowed, or fails otherwise; a timeout means that none did. |
| Adapter.AnytypeRepository.PushCreate | crates/anytype-adapter/src/lib.rs:1724-1768 | One creation and no other mutation. Where it was answered, the result is what the answer makes of it: the sent envelope under the id of the answer, unless that is foreign, blank or invalid. After a timeout it is that of an object that a later listing showed with the expected identity. |
| Adapter.AnytypeRepository.PushUpdate | crates/anytype-adapter/src/lib.rs:1769-1843 | At most one update and no other mutation, sent right after a read of the object. A property is in it if and only if the read showed it and its key is, up to case, none of six system names; order and repetitions are those of the read. The result is exactly what the read, the answer and, after a timeout, at most `max_reads` further reads make of it. |
| Adapter.CarryForward | crates/anytype-adapter/src/lib.rs:1784-1806 | The loop over the properties of the object that was read keeps those that are not the system's: each stood at a place of its own in the read, and those places, in their order, are all but the system's. |
| Adapter.ReservedIsSystem | crates/anytype-adapter/src/lib.rs:1989-2003 | Reserved are exactly `backlinks`, `creator`, `created_date`, `last_modified_date`, `last_modified_by` and `links`, with any letters in capitals. |
| Adapter.AnytypeRepository.PushArchive | crates/anytype-adapter/src/lib.rs:1473-1512 | Exactly one archive call, of this object, and exactly its outcome: an Ok is backed by a later read, within the bound, that shows the object archived. |
| Adapter.AnytypeRepository.PushDelete | crates/anytype-adapter/src/lib.rs:1529-1578 | Exactly one delete call, of this object, and exactly its outcome: when it was answered, an Ok is backed by a later read, within the bound, that found the object archived or missing; a timeout that the reads leave open counts as done. |
| Adapter.AnytypeRepository.CreateResource | crates/anytype-adapter/src/lib.rs:1405-1444 | If the local preflight refuses, nothing is sent and nothing changes; otherwise at most one creation. On success the cache is the prepared cache with the returned envelope created in it. |
| Adapter.AnytypeRepository.UpdateResource | crates/anytype-adapter/src/lib.rs:1445-1472 | A mutation happens only when the check on the cache, refreshed just before, accepts the update, and then once, sending the envelope with exactly the custom properties that the read just before it showed. On success the cache is the refreshed one with the update made. |
| Adapter.AnytypeRepository.ArchiveResource | crates/anytype-adapter/src/lib.rs:1473-1528 | The same for archiving; an Ok is backed by a read of the very object that the refreshed cache names. |
| Adapter.AnytypeRepository.DeleteResource | crates/anytype-adapter/src/lib.rs:1529-1589 | The same for deletion; when the delete was answered, an Ok is backed by a read that found that object archived or missing. |
| Adapter.AnytypeRepository.GetResource | crates/anytype-adapter/src/lib.rs:1400-1404 | Only reads; the answer comes from a cache rebuilt from a complete walk of the remote pages, restricted to contacts and tasks. |
| RemoteSpace.OnceIsOne | crates/anytype-adapter/src/lib.rs:1405-1589 | The position-wise claim of the calls above means that the number of mutations in the log grew by exactly one. |
| RemoteSpace.QuietCounts | crates/anytype-adapter/src/lib.rs:1405-1589 | A call that only read made no mutation. |
| RemoteSpace.NoListingsKeep | crates/anytype-adapter/src/lib.rs:1769-1874 | Exchanges without a listing leave the walk over the pages, and what was listed, as they were. |
| AnytypeObjects.StagedObjects | crates/anytype-adapter/src/lib.rs:1605-1672 | An envelope is staged if and only if it is the envelope of some listed object that is served. |
| AnytypeObjects.StagedExactly | crates/anytype-adapter/src/lib.rs:1624-1672 | Exactly what an object contributes: its envelope under its own id if it is a contact or a task that the object may own, by its id, its markers or ids without a carriage return, with agreeing revision and markers; nothing if it holds no envelope or one of another kind; and an error otherwise. |
| AnytypeObjects.RefreshedHolds | crates/anytype-adapter/src/lib.rs:1678-1704 | After a successful refresh the cache holds exactly the staged envelopes, and its collections are theirs and the configured ones. |
| AnytypeObjects.RefreshedNames | crates/anytype-adapter/src/lib.rs:1662-1690 | In a refreshed cache a collection with resources is named after the kind of its first resource. |
| AnytypeObjects.StoredTagIsReturned | crates/core/src/envelope.rs:88-114 | The stored canonical body gives back an envelope with the tag that the write returned, whatever object id the server chose. |
| AnytypeObjects.NormalExactly | crates/core/src/envelope.rs:101-114 | Normalizing line ends changes exactly the texts with a carriage return, which then have a line feed. |
| AnytypeObjects.ReadYourWrite | crates/anytype-adapter/src/lib.rs:1400-1472 | Where the space lists an object with the written body, a refresh that succeeds shows the tag that the write returned, under the id with normalized line ends, whatever id, revision and properties the server gave the object: for contacts and tasks; an object of another kind adds nothing to the cache. |
| AnytypeObjects.HeldIsShown | crates/anytype-adapter/src/lib.rs:1605-1704 | Any served envelope that a listed object holds is shown by a refresh that succeeds, under the object's id and the tag of what it holds. |
| AnytypeObjects.RefreshedAlike | crates/anytype-adapter/src/lib.rs:1592-1704 | What a refresh gives, errors included, does not depend on when it runs, but for the times it notes. |
| FakeTransport.ChainedIsAll | crates/anytype-adapter/src/lib.rs:396-425 | Chained pages of any size of at least 1 end, and show each visible object of the space once and in order. |
| FakeTransport.MatchingShows | crates/anytype-adapter/src/lib.rs:396-425 | A space lists exactly its visible objects. |
| FakeTransport.MatchingAscends | crates/anytype-adapter/src/lib.rs:396-425 | It lists them by ascending ids, so each once. |
| FakeTransport.CursorIsRead | crates/anytype-adapter/src/lib.rs:396-425 | A cursor that a page hands out is read back as the offset it was written for. |
| FakeTransport.OffsetIs | crates/anytype-adapter/src/lib.rs:408-408 | Every cursor names the number it writes in decimal digits, perhaps behind a plus sign; any other, and none, is the beginning. |
| FakeTransport.FakeTransport.constructor | crates/anytype-adapter/src/lib.rs:359-364 | A page size of 0 becomes 1. |
| FakeTransport.FakeTransport.List | crates/anytype-adapter/src/lib.rs:396-425 | One page of the visible objects from the cursor on, or the injected failure, once. |
| FakeTransport.FakeTransport.Get | crates/anytype-adapter/src/lib.rs:426-441 | The stored object, or not found, or the injected failure. |
| FakeTransport.FakeTransport.Mutate | crates/anytype-adapter/src/lib.rs:442-512 | Counts every attempt; refuses without a change, or changes exactly the one object and shows it, and a scripted timeout strikes after the change was made. |
| FakeTransport.MutationActs | crates/anytype-adapter/src/lib.rs:442-512 | A creation of a known object is a conflict and any other mutation of an unknown one finds nothing, without a change; created and updated objects are there as sent, archived ones only marked, deleted ones gone; no other object changes. |
| StoringRemote.WalkLists | crates/anytype-adapter/src/lib.rs:1598-1677 | Over a remote that stores objects, following the pages lists the space from its first live object on and, when it ends, to its last, whatever the sizes of the pages. |
| StoringRemote.RereadIsLive | crates/anytype-adapter/src/lib.rs:1598-1677 | A complete walk with every bare object read in full has read exactly the live objects of the space, in order. |
| StoringRemote.ScriptLists | crates/anytype-adapter/src/lib.rs:396-425 | The pages of the scripted remote are such pages. |
| StoringRemote.ScriptChanges | crates/anytype-adapter/src/lib.rs:442-512 | And its mutations change the space as a remote that stores objects may, answered or timed out. |
| StoringRemote.ScriptIsExplained | crates/anytype-adapter/src/lib.rs:395-512 | So the objects of a scripted remote that nobody else uses explain every log of exchanges with it. |
| AdapterRuns.RefreshWithAnyPageSizes | crates/anytype-adapter/src/lib.rs:1592-1704 | Refreshing over two scripted remotes with the same objects gives the same error, or caches that differ at most in their times, for any two page sizes. |
| AdapterRuns.IdentityIsClaim | crates/anytype-adapter/src/lib.rs:2060-2110 | What reconciliation accepts as the created object are exactly the live objects of the space that hold the resource, with whatever content. |
| AdapterRuns.WrittenIdIsReadable | crates/anytype-adapter/src/lib.rs:1400-1404 | At the id that was written that is: a contact or a task whose id has no carriage return. |
| AdapterRuns.ShownWhereReadable | crates/anytype-adapter/src/lib.rs:1400-1404 | An object of a resource is shown at no id but the normalized one, and only when its kind is served. |
| AdapterRuns.CreateThenRead | crates/anytype-adapter/src/lib.rs:1400-1444 | Read your write, for creating any envelope and then reading at any id, over any remote that stores what it accepts, whatever fails or goes unheard. A read that succeeds after a create that succeeded shows the returned object and tag if and only if the envelope is a contact or a task, the id is the written one with normalized line ends, and the create did not, timed out without an effect, take an older object of the resource with other content for its own. A space that holds no such object excludes the last. Over a scripted remote that nobody else uses, such a history of the space exists. |
| AdapterScripts.StaleIsReturned | crates/anytype-adapter/src/lib.rs:1400-1444 | The condition on the space is needed: over the scripted remote, one injected timeout makes the create of a contact or task succeed with a tag that the next read does not show, for every space that can be refreshed and holds such an object on one of the pages that are scanned, when the cache does not know it. |
| AdapterRuns.RefreshedKnowsStale | crates/anytype-adapter/src/lib.rs:1405-1428 | A caller can make sure of it: with a cache that was just refreshed from the space, the local preflight refuses every create of a contact or task for which the space holds such an object, if its resource id or its UID has no carriage return. |
| AdapterRuns.UpdateThenRead | crates/anytype-adapter/src/lib.rs:1400-1472 | Read your write for updating to any envelope and then reading at any id, over any such remote: what was returned is shown if and only if the envelope is a contact or a task and the id is the written one with normalized line ends. |
| AdapterScripts.CreateInEmptySpace | crates/anytype-adapter/src/lib.rs:1400-1444 | The conditions on kind and id are needed: into an empty scripted space every valid envelope can be created, and it is read back at exactly the ids where it can be; one of another kind, such as an event, is not found at all. |
| AdapterScripts.UpdateOnlyObject | crates/anytype-adapter/src/lib.rs:1400-1472 | A contact or task that is alone in its scripted space can be updated to any valid envelope with its ids, and that is read back at exactly the ids where it can be; an update that turns a task into an event succeeds, and the resource is no longer found. |
| AdapterScripts.UnreadableInputs | crates/app/src/lib.rs:702-716 | Two kinds of input that cannot be read at the id they were written with: events, which the calendar authority pushes, and ids with a carriage return. |
| AdapterRuns.ArchiveThenRead | crates/anytype-adapter/src/lib.rs:1400-1528 | After an archive that succeeded, a read that succeeds no longer finds the resource, over any such remote. |
| AdapterRuns.DeleteThenRead | crates/anytype-adapter/src/lib.rs:1400-1589 | After a delete that reported success, a read that succeeds finds nothing if and only if the object is archived or gone from the space; so always when the delete was answered, while one that timed out may be reported as done and not be. |
| ObjectLocks.CanonicalOrderIs | crates/anytype-adapter/src/lib.rs:115-121 | The canonical order of a request holds its keys, each once, ascending. |
| ObjectLocks.SameKeysSameOrder | crates/anytype-adapter/src/lib.rs:115-121 | Requests for the same keys, in any order and with repetitions, lock in the same order. |
| ObjectLocks.LockTable.LockFor | crates/anytype-adapter/src/lib.rs:122-132 | One mutex per key, for ever, and distinct mutexes for distinct keys. |
| ObjectLocks.StepKeepsOk | crates/anytype-adapter/src/lib.rs:133-153 | Every step of every thread keeps the bookkeeping: who holds a mutex is the thread whose acquired prefix contains its key. |
| ObjectLocks.Exclusive | crates/anytype-adapter/src/lib.rs:133-153 | No key ever has two holders. |
| ObjectLocks.WorksUnderItsLocks | crates/anytype-adapter/src/lib.rs:139-153 | An operation runs only while its thread, and no other, holds every key it asked for. |
| ObjectLocks.Progress | crates/anytype-adapter/src/lib.rs:139-153 | Deadlock freedom: whenever some thread is unfinished, some thread can take a step. |
| ObjectLocks.StepCosts | crates/anytype-adapter/src/lib.rs:139-153 | Every step uses up exactly one unit of the remaining work. |
| ObjectLocks.EveryRunFinishes | crates/anytype-adapter/src/lib.rs:139-153 | For any number of threads with any requests and any schedule: no run is longer than the work, and a run that cannot go on has finished every thread. |
| ObjectLocks.FinishedHoldsNothing | crates/anytype-adapter/src/lib.rs:144-153 | When all threads have finished, no lock is held. |
| ICalendar.ParseLoop | crates/core/src/ical.rs:49-108 | The parser with its explicit stack computes the specified parse. |
| ICalendar.LexPropertyLoop | crates/core/src/ical.rs:81-101 | Reading one property line, split at its first colon, as specified. |
| ICalendar.PropertySays | crates/core/src/ical.rs:81-101 | A property line says what its head up to the first colon says, with parameter values and the rest unescaped; it is refused exactly without a colon or when the head is not read. |
| ICalendar.RunFlattened | crates/core/src/ical.rs:49-108 | The lines of a VCALENDAR tree of any depth are read as that tree. |
| ICalendar.RunInverts | crates/core/src/ical.rs:49-108 | Whatever line list the stack accepts is the flattening of the tree it returns. |
| ICalendar.RunAccepts | crates/core/src/ical.rs:49-108 | The stack accepts exactly the flattenings of VCALENDAR trees, each as itself. |
| ICalendarRoundTrip.ComponentWire | crates/core/src/ical.rs:146-176 | The written text is the tree's lines in order, each with its line end. |
| ICalendarRoundTrip.LinesReturnTogether | crates/core/src/ical.rs:49-214 | When each line of a calendar, unfolded by itself, says what it was written for, the whole calendar is read back. |
| ICalendarRoundTrip.LinesReturnSingly | crates/core/src/ical.rs:49-214 | And only then: a calendar that is read back consists of lines each of which does. |
| ICalendarLines.HeadReturns | crates/core/src/model.rs:9-69 | A written property head is read back: the name, and every parameter with its list of values. |
| ICalendarLines.ValueReturns | crates/core/src/model.rs:55-68 | A written property value is one line and unescapes to itself. |
| ICalendarLines.PlainKeyOk | crates/core/src/model.rs:9-39 | For a parameter whose key has no quotes the domain asks only that the key lack delimiters and each value be readable by itself. |
| ICalendarLines.GoodPropertyReturns | crates/core/src/ical.rs:81-101 | A property of the stated domain is said again by its own line. |
| ICalendarRange.LexFacts | crates/core/src/ical.rs:81-101 | What holds of every property and component name that the parser can produce from a line. |
| ICalendarFolding.FirstIsFold | crates/core/src/ical.rs:178-197 | The first content line of a written line is the beginning of the written text without its line feeds and the one blank behind each run of them, and all of that when it is the only one. |
| ICalendarFolding.FoldEncode | crates/core/src/model.rs:41-50 | Folding and quoting a value commute. |
| ICalendarExact.RoundTrip | crates/core/src/ical.rs:49-214 | `parse(serialize(c)) = c` for every component tree of any depth in the domain. |
| ICalendarExact.AcceptedTokens | crates/core/src/ical.rs:49-108 | A calendar that is read from any text at all has the root VCALENDAR and only names and values that a line can carry. |
| ICalendarReturned.FoldHead | crates/core/src/ical.rs:178-197 | Folding changes a written head only inside its parameter values. |
| ICalendarHeads.OpenRaw | crates/core/src/model.rs:19-32 | A parameter cut inside, at a semicolon or colon that its values hide, is refused: its quote is open. |
| ICalendarHeads.LongerIsOther | crates/core/src/model.rs:26-29 | A value read together with a semicolon behind it is never the written value, since no step of writing, folding, reading or unescaping loses a semicolon. |
| ICalendarHeads.HeadAligned | crates/core/src/model.rs:9-39 | A head that gives back its name and parameters was read whole and cut exactly where it was joined, whatever quotes its names and values hold. |
| ICalendarReturned.LineReturned | crates/core/src/model.rs:9-39 | A property that the beginning of its own folded line gives back has a name, parameters and a value of the domain; the same lemma serves both formats, which differ in a second unescaping. |
| ICalendarExact.PropertyReturned | crates/core/src/ical.rs:81-101 | A property that its own line says again belongs to the domain. |
| ICalendarExact.RoundTripExactly | crates/core/src/ical.rs:49-214 | For every component tree, `parse(serialize(c)) = c` if and only if the tree is in the domain: a condition on the root, and on each name, parameter and value by itself. |
| ICalendarWriter.WriteHead | crates/core/src/ical.rs:152-165 | The writer's loop over the parameters appends the specified head. |
| ICalendarWriter.WriteProperty | crates/core/src/ical.rs:152-169 | Appends one property line to whatever was written. |
| ICalendarWriter.WriteComponent | crates/core/src/ical.rs:146-176 | Appends a component and everything in it, recursively, to whatever was written. |
| ICalendarWriter.WriteCalendar | crates/core/src/ical.rs:110-114 | Writes exactly the text that the round trip speaks of. |
| PropertyText.SplitUnquotedLoop | crates/core/src/model.rs:70-101 | The loop with its quote and escape flags computes the specified split, or finds the unterminated quote. |
| PropertyText.SplitJoined | crates/core/src/model.rs:70-101 | Balanced pieces joined by the delimiter are split into exactly those pieces. |
| PropertyText.SplitOpenQuote | crates/core/src/model.rs:70-101 | A text that ends inside quotes is refused, wherever it is split. |
| PropertyText.UnquoteLoop | crates/core/src/model.rs:103-123 | The decoding loop computes the specified text. |
| PropertyText.DecodeMeans | crates/core/src/model.rs:103-123 | Between quotes a backslash makes the next character, whatever it is, part of the value, and stands for itself only at the end. |
| PropertyText.UnquoteQuoted | crates/core/src/model.rs:41-50 | Unquoting undoes quoting, for every value. |
| PropertyText.QuotedForm | crates/core/src/model.rs:41-50 | The two replacement passes of quoting code backslash and quote at once, each by a backslash before it. |
| PropertyText.ParameterWritten | crates/core/src/model.rs:41-53 | A parameter value is quoted if and only if it has a comma, semicolon, colon, quote, space or tab. |
| PropertyText.EscapedForm | crates/core/src/model.rs:55-68 | The four replacement passes of escaping do not interfere: they code backslash, line feed, comma and semicolon at once, each by its two characters. |
| PropertyText.PrintedRaw | crates/core/src/model.rs:55-60 | Exactly the five list-valued properties are printed as they are. |
| PropertyText.UnescapeEncoded | crates/core/src/ical.rs:199-214 | Unescaping undoes escaping, for every value. |
| PropertyText.UnescapeFixes | crates/core/src/ical.rs:199-214 | Unescaping leaves a text alone if and only if no backslash stands before its last character. |
| PropertyText.UnescapeLoop | crates/core/src/ical.rs:199-214 | The loop over characters computes the specified unescaping. |
| PropertyText.UnescapeMeans | crates/core/src/ical.rs:199-214 | Unescaping gives exactly what the characters and backslash pairs of a value stand for, `n` and `N` for a line end. |
| PropertyText.ParseHeadLoop | crates/core/src/model.rs:9-39 | The loop over parameters, collecting repeated ones, computes the specified head. |
| PropertyText.HeadRegroups | crates/core/src/model.rs:9-39 | Whatever head is read: a key has, in order, the values of all parameters whose key is that one up to case, and there are no other keys. |
| PropertyText.HeadAccepted | crates/core/src/model.rs:9-39 | A head is read if and only if no quote stays open, there is a name, and everything else between semicolons gives values to a key. |
| PropertyText.ParseWrittenHead | crates/core/src/model.rs:9-39 | Reading a head that was written from balanced, readable texts returns its name and the decoded values of every parameter. |
| ContentLines.UnfoldLoop | crates/core/src/ical.rs:178-197 | The unfolding loop computes the specified lines. |
| ContentLines.UnfoldedAreLines | crates/core/src/ical.rs:178-197 | Unfolded lines are never empty, hold no line ends, and only the first can begin with a blank. |
| ContentLines.UnfoldWire | crates/core/src/ical.rs:178-197 | Unfolding a text of written lines unfolds each written line by itself. |
| Text.EncodePass | crates/core/src/model.rs:41-68 | One more replacement pass over a coded text codes one more character, when no code contains it. |
| VCard.ParseVCardLoop | crates/core/src/vcard.rs:33-70 | The parser's loop computes the specified contact. |
| VCard.LineSays | crates/core/src/vcard.rs:45-65 | A line says the name and parameters of its head up to the first colon, and the rest unescaped; the version keeps no parameters. |
| VCard.ContactAccepted | crates/core/src/vcard.rs:33-70 | Unfolded lines are a contact if and only if they are the two of its envelope and at least one between them, each of which is read. |
| VCard.ParseRegroups | crates/core/src/vcard.rs:43-69 | Whatever is accepted, every field collects exactly the occurrences of its own lines, in their order. |
| VCard.VCardRoundTrip | crates/core/src/vcard.rs:33-178 | `parse(serialize(v)).fields = v.fields` for every contact of the domain, each field with its occurrences in order, and the version is 4.0. |
| VCardExact.OwnName | crates/core/src/vcard.rs:45-65 | Whatever becomes of a written line, its first content line is read under its own name. |
| VCardExact.FieldReturned | crates/core/src/vcard.rs:45-65 | A field that is read exactly as often as it was written has occurrences of the domain, each given back by its own first content line. |
| VCardExact.AcceptedFields | crates/core/src/vcard.rs:33-70 | What holds of every field of a contact that was read from any text at all. |
| VCardExact.VCardRoundTripExactly | crates/core/src/vcard.rs:33-178 | For every contact, its fields come back from `parse(serialize(v))` if and only if they are in the domain: a condition on each name and occurrence by itself. |
| ICalendarWriter.WriteContact | crates/core/src/vcard.rs:121-145 | The writer's loops produce exactly the text that the round trip speaks of. |
| XmlText.EscapeIsEncode | crates/dav-server/src/lib.rs:1856-1863 | The five escaping passes code the five special characters at once. |
| XmlText.UnescapePass | crates/dav-server/src/lib.rs:1540-1546 | One unescaping pass takes one character out of the coded set: an entity is never mistaken for another. |
| XmlText.EscapeRoundTrip | crates/dav-server/src/lib.rs:1540-1546 | `xml_unescape(xml_escape(s)) = s` for every string. |
| XmlText.EscapedIsInert | crates/dav-server/src/lib.rs:1856-1863 | Escaped text holds no markup character, and a text is left as it was if and only if it had none. |
| HttpDate.DaysStep | crates/dav-server/src/http_date.rs:71-90 | One more day on the calendar of month and leap-year lengths is one more day of the closed form. |
| HttpDate.ClosedFormCountsDays | crates/dav-server/src/http_date.rs:71-105 | Both closed forms agree with counting days one at a time, for any number of days. |
| HttpDate.DaysThenCivil | crates/dav-server/src/http_date.rs:71-105 | Every date from 1970 on whose year fits an `i32` has a day number, which leads back to it. |
| HttpDate.CivilThenDays | crates/dav-server/src/http_date.rs:92-105 | Every day number leads to the counted date with its year cast to `i32`, and while the year fits, back to itself. |
| HttpDate.WeekdayCounts | crates/dav-server/src/http_date.rs:54-62 | The weekday is the one reached by stepping one day at a time from a Thursday. |
| HttpDate.FormatCounts | crates/dav-server/src/http_date.rs:43-67 | Before year 10000, `format` writes the counted weekday, date and time. |
| HttpDate.ParseByCounting | crates/dav-server/src/http_date.rs:8-30 | `parse` reads that text as the second it stands for. |
| HttpDate.ParseRange | crates/dav-server/src/http_date.rs:8-30 | Whatever `parse` accepts lies before year 10000. |
| HttpDate.ParsesExactly | crates/dav-server/src/http_date.rs:8-52 | A text is a date if and only if it is six words: a weekday, whichever, of four bytes with its comma; the numerals of a day, a month name and a year up to 9999 that are a counted day; a time of day, where a leap second is taken as the one before; and GMT. The second is the one counted. |
| HttpDate.WordsAre | crates/dav-server/src/http_date.rs:9-9 | Words are what stands between spaces, tabs, line feeds, form feeds and carriage returns. |
| HttpDate.FormatDomain | crates/dav-server/src/http_date.rs:43-50 | `format` answers for exactly the seconds whose counted year, cast to `i32`, is in 1..=9999. |
| HttpDate.FormatRoundTrip | crates/dav-server/src/http_date.rs:8-67 | `parse(format(s)) = s` if and only if `s` lies before year 10000. |
| HttpDate.FormatWrapsYear | crates/dav-server/src/http_date.rs:43-50 | The other seconds include some that `format` does answer for, with a wrapped year. |
| FreeBusy.NormalizedTime | crates/core/src/freebusy.rs:113-183 | Normalizing a time twice is normalizing it once. |
| FreeBusy.NormalizeExactly | crates/core/src/freebusy.rs:113-183 | Exactly which texts are times, and which: a date or one of four spellings of a date and time that exist, with whitespace around it; or, in twenty bytes, one of them with whitespace and a Z behind it. |
| FreeBusy.TextOrderIsTimeOrder | crates/core/src/freebusy.rs:113-183 | On normalized times the order of the texts is the order of the times they spell. |
| FreeBusy.NewInterval | crates/core/src/freebusy.rs:17-33 | An accepted interval has normalized ends in order. |
| FreeBusy.Subtract | crates/core/src/freebusy.rs:73-94 | The sweep over the sorted exclusions leaves exactly the uncovered time of one interval, in non-empty pieces. |
| FreeBusy.Merge | crates/core/src/freebusy.rs:97-111 | Merging sorted pieces keeps the time they cover and leaves them sorted, apart and not touching. |
| FreeBusy.Project | crates/core/src/freebusy.rs:52-111 | A time is in the output if and only if it is in the window, in some interval and in no exclusion; the output is in normal form; a bad or empty window is the only error. |
| FreeBusy.NormalFormUnique | crates/core/src/freebusy.rs:97-111 | Two normal lists that cover the same times are equal. |
| FreeBusy.ProjectionDetermined | crates/core/src/freebusy.rs:52-111 | So neither the order nor the repetition of intervals and exclusions changes the answer. |
| FreeBusy.ProjectionIdempotent | crates/core/src/freebusy.rs:52-111 | Projecting a projection again changes nothing. |
| Chunked.Reader.NextLine | crates/anytype-adapter/src/lib.rs:986-1000 | Reads byte by byte up to the line end that the specification finds, or reports a malformed line. |
| Chunked.Reader.FinishTrailers | crates/anytype-adapter/src/lib.rs:1012-1018 | Reads trailer lines up to and including the empty one. |
| Chunked.Reader.NextChunk | crates/anytype-adapter/src/lib.rs:1005-1033 | Reads a size line and the data it announces as specified, within the body limit. |
| Chunked.Reader.ReadChunkedBody | crates/anytype-adapter/src/lib.rs:1002-1035 | The reader returns the specified body and stands behind the message, or refuses. |
| Chunked.DecodeChunked | tools/anytype-probe/src/main.rs:1062-1124 | The probe's decoder computes the specified body. |
| Chunked.DigitValues | crates/anytype-adapter/src/lib.rs:1005-1011 | The value of every hexadecimal digit, in small letters and capitals. |
| Chunked.SizeAccepted | crates/anytype-adapter/src/lib.rs:1005-1011 | A size is read if and only if it is hexadecimal digits, perhaps behind one plus sign, of a number below 2 to the 64th. |
| ChunkedProofs.ChunksReadBack | crates/anytype-adapter/src/lib.rs:986-1035 | For every split of a body into non-empty chunks within the limit, with any extensions and trailers, the reader returns the body and stops exactly behind the message. |
| ChunkedProofs.ReadsExactly | crates/anytype-adapter/src/lib.rs:986-1035 | Exactly what the reader reads: a body and a place if and only if a message with that body within the limit stands in the stream up to that place, of chunks under size lines, a last chunk, trailers and an empty line, each line below 64 KiB. |
| ChunkedProofs.OverlongIsRefused | crates/anytype-adapter/src/lib.rs:1019-1025 | A chunk that would go over the limit is refused. |
| ChunkedProofs.ProbeIsRead | tools/anytype-probe/src/main.rs:1062-1124 | Whatever the probe accepts with UTF-8 size lines, the reader decodes to the same bytes with nothing left over, if it allows at least the probe's mebibyte. |
| ChunkedProofs.AdapterRefinesProbe | crates/anytype-adapter/src/lib.rs:1005-1011 | Where both can read a size line, they read the same size. |
| ChunkedProofs.SignedSizeDiffers | tools/anytype-probe/src/main.rs:1070-1085 | Of the size lines that the adapter reads, the probe reads exactly those whose size is not written with a plus sign, as the same size. |
| ChunkedProofs.SomeLineIsSigned | crates/anytype-adapter/src/lib.rs:1005-1011 | There are lines with a plus sign whose size the adapter reads. |
| ChunkedProofs.ProbeAcceptsExactly | tools/anytype-probe/src/main.rs:1062-1124 | Of the messages that the adapter's reader accepts, the probe accepts exactly those with size lines of at most 1024 bytes and no plus sign, trailers of at most 1024 bytes with a colon, at most a mebibyte of data, and nothing behind them; and then with the same bytes. |
| ChunkedProofs.SomeDecoderKeepsAscii | crates/anytype-adapter/src/lib.rs:1005-1005 | The assumption made of the UTF-8 decoder can be met. |
| AuditJournal.AllRecordsAreContents | crates/observability/src/lib.rs:254-290 | Reading a valid journal yields its contents: the records 1, 2, … in order, although the active segment is read first and sorted in. |
| AuditJournal.SortSwaps | crates/observability/src/lib.rs:254-278 | Sorting records listed after some that they should precede puts them in front. |
| AuditJournal.SortSorts | crates/observability/src/lib.rs:254-278 | The sort orders any records and keeps each as often as it was there. |
| AuditJournal.ReadIsConsecutive | crates/observability/src/lib.rs:254-290 | Whatever journal is read: every record of every file is there as often as it was written, and the numbers go up one by one, without gap or repetition. |
| AuditJournal.AppendAdds | crates/observability/src/lib.rs:318-342 | An append returns the next number and puts the event there, behind everything else. |
| AuditJournal.RecoveryKeeps | crates/observability/src/lib.rs:307-317 | Recovery takes a torn line off the active file, and keeps the contents, every whole line and all segments. |
| AuditJournal.RolloverKeeps | crates/observability/src/lib.rs:355-380 | Closing the active segment leaves the contents unchanged if and only if there is a number left for it, or it has no records, or the last closed segment has none; then reading is unchanged too. Otherwise the last segment's records are lost. |
| AuditJournal.RolledSegment | crates/observability/src/lib.rs:355-380 | While there are numbers, an active segment with records is closed as it is, under a number above all others; one without records stays. |
| AuditJournal.TornTailIgnored | crates/observability/src/lib.rs:221-253 | A torn last line is as if it were not there. |
| AuditJournal.InteriorDamageRejected | crates/observability/src/lib.rs:221-253 | A damaged line anywhere else is an error, never skipped. |
| AuditStore.Store.RecordsOf | crates/observability/src/lib.rs:221-253 | The loop over the lines reads the specified records. |
| AuditStore.Store.RecoverActive | crates/observability/src/lib.rs:307-317 | Recovers as specified, or fails and leaves the journal alone. |
| AuditStore.Store.Append | crates/observability/src/lib.rs:318-342 | Appends as specified, or fails and leaves the journal alone. |
| AuditStore.Store.Rollover | crates/observability/src/lib.rs:355-380 | On a valid journal with numbers left, an answer with a number means that the active file as it was is the last segment, behind all earlier ones and under a number greater than theirs; an answer without one, that there were no records and nothing changed. An error leaves the journal alone. |
| AuditStore.Store.ReadbackAfter | crates/observability/src/lib.rs:386-400 | The page of a query is the specified one. |
| AuditStore.ReadbackIs | crates/observability/src/lib.rs:386-400 | A page is the beginning of what was not shown yet. |
| AuditStore.PagesAreContents | crates/observability/src/lib.rs:386-400 | Chained pages of any limits 1..64 are a stretch of the contents from the first unseen record on, and all the rest when there are enough pages. |
| AuditStore.OperationsSucceed | crates/observability/src/lib.rs:318-380 | No operation fails on a journal that was written by these operations. |
| AuditStore.StepKeeps | crates/observability/src/lib.rs:307-380 | Every step (append, rollover, torn line, reopening) keeps the journal valid, with strictly ascending segment numbers; only a written append changes the contents, by its own record, and only a rollover the segments, by one of a greater number. |
| AuditStore.RunHolds | crates/observability/src/lib.rs:202-380 | Along any run from empty the journal holds exactly the written records, numbered from 1, and its segment numbers ascend strictly. |
| AuditStore.SegmentsStay | crates/observability/src/lib.rs:355-380 | Along any run no closed segment is ever lost, renamed or rewritten. |
| AuditStore.RolledStays | crates/observability/src/lib.rs:355-380 | A rollover in a run gives a number greater than every earlier one, and under it the active file stays as it was at all later times. |
| AuditStore.RunReads | crates/observability/src/lib.rs:254-290 | So that is what reading returns at any time. |
| AuditStore.AcknowledgedIsThere | crates/observability/src/lib.rs:318-342 | An acknowledged append is present from then on, at its returned number and nowhere else. |
| AuditWriter.WorkKeepsOk | crates/observability/src/lib.rs:746-775 | The worker answers each caller with the number of the caller's own record. |
| AuditWriter.WorkWrites | crates/observability/src/lib.rs:746-775 | One turn of the worker: the event that was sent first is answered, with its number if it was written, and is in the journal exactly if the write reached it; everything else stays. |
| AuditWriter.EveryRunIsOk | crates/observability/src/lib.rs:567-590 | Under every interleaving of callers and worker: each event is counted once as waiting, persisted or failed, every health figure counts exactly the callers it is about, the last number is the greatest that a caller was told, the queue stays within its capacity, and numbers returned to different callers are different. |
| AuditWriter.SentOrderIsNumberOrder | crates/observability/src/lib.rs:567-590 | Over every run, of two events that were written the one that was sent first has the smaller number. |
| AuditWriter.NeverStuck | crates/observability/src/lib.rs:567-590 | While a caller has no answer, somebody can take a step. |
| AuditWriter.EveryRunFinishes | crates/observability/src/lib.rs:567-590 | No run of callers and worker is longer than the work there was, and a run that cannot go on is one that did it all and answered every caller. |
| AuditWriter.StartFinishes | crates/observability/src/lib.rs:567-590 | From the start that is three steps a caller. |
| Composition.ReconcileSnapshot | crates/core/src/composition.rs:363-423 | Assigning the merged fields one by one computes the specified merge, or its refusal. |
| Composition.MergeKeeps | crates/core/src/composition.rs:363-423 | An accepted snapshot keeps the reference valid, its identity and the user's fields. |
| Composition.MergeReplaces | crates/core/src/composition.rs:363-410 | What an accepted snapshot caches: exactly the fields of an available object; those of an archived or deleted one if it has any; and those of an unavailable one only where nothing was cached. |
| Composition.NewIsAsSeen | crates/core/src/composition.rs:363-373 | A first snapshot is accepted whenever it is well formed, and recorded as it was seen, without user fields. |
| Composition.KindIsReported | crates/core/src/composition.rs:401-422 | The reported kind says whether the reference is new, unchanged, available again, refreshed, or of an archived, deleted or unavailable source. |
| Composition.MergeRefusal | crates/core/src/composition.rs:363-423 | A snapshot of a valid reference is refused if and only if it is of another object or claims a field of the user. |
| Composition.SnapshotAccepted | crates/core/src/composition.rs:160-175 | A snapshot is well formed if and only if its account is 64 hexadecimal digits, its identifiers are texts of at most 512 bytes and its field names of at most 128, none blank and none with a control character. |
| Composition.SameIdentity | crates/core/src/composition.rs:177-188 | Two references are to the same object if and only if space and object are equal, and the account up to the case of its letters. |
| Composition.EditAcceptance | crates/core/src/composition.rs:424-449 | An edit of a valid reference is accepted if and only if the names of its fields are not blank, have at most 128 bytes and no control character, and none is the source's; it then replaces the user's fields and nothing else. |
| Composition.ConflictIs | crates/core/src/composition.rs:340-346 | A conflict names the first field, in order, that both sides claim; there is none exactly when their fields are disjoint. |
| Composition.ReapplyIsUnchanged | crates/core/src/composition.rs:363-423 | Applying a snapshot again changes nothing and says so. |
| Composition.OneOwner | crates/core/src/composition.rs:348-356 | Every field of a valid reference has exactly one owner. |
| Composition.RunKeeps | crates/core/src/composition.rs:363-449 | Over any run of snapshots and edits: the reference stays valid and stands for the same object, source and user fields are disjoint, and the user's fields are those of the last accepted edit. |
| Composition.RunKeepsSource | crates/core/src/composition.rs:363-423 | Over any run: cached source fields stay as they are until a snapshot of an available source, or one of an archived or deleted source that has fields; and they vanish only by a snapshot of an available source that has none. |
| Composition.RunShows | crates/core/src/composition.rs:363-423 | Over any run object and availability are those of the last accepted snapshot, and the source fields those that were shown last. |
| Composition.ValidateProfile | crates/core/src/composition.rs:237-258 | Accepted are exactly the profiles with valid names, at least one source, no source twice and none that is the destination. |
| Composition.IdentifierIs | crates/core/src/composition.rs:451-461 | An identifier is 1 to 128 letters, digits, hyphens, underscores and dots. |
| DestinationSpace.ScanOne | crates/app/src/composition_orchestration.rs:441-475 | A listed object of this space counts if and only if it is a live record; left-out bodies are fetched; an unarchived object that mentions the record type without being a record is an error. |
| DestinationSpace.Scan | crates/app/src/composition_orchestration.rs:414-487 | Success means exactly the live records of the space, each once, whatever the page sizes, and that no other unarchived object passes for a record. |
| MaterializedRecords.RecordReads | crates/app/src/composition_orchestration.rs:60-100 | Exactly which texts are read as records: profile fingerprint, key and reference are well formed, and the collection holds contacts or tasks. |
| Materialization.Retain | crates/app/src/composition_orchestration.rs:186-187 | Keeps exactly the records of the profile. |
| Materialization.BuildIndex | crates/app/src/composition_orchestration.rs:188-206 | Both indexes lead to every row; it fails if and only if two rows share a key or an identity. |
| Materialization.ClashIsNotUnique | crates/app/src/composition_orchestration.rs:188-206 | And when it fails, the destination really holds two records for one source or one object. |
| Materialization.Load | crates/app/src/composition_orchestration.rs:186-206 | A destination that already holds duplicates is refused before anything is written. |
| MaterializedRecords.SelectedOwnsKey | crates/app/src/composition_orchestration.rs:318-325 | The row selected for a source is the only one that can have its key, although the key index may be stale. |
| MaterializedRecords.NoneSelected | crates/app/src/composition_orchestration.rs:318-325 | When no row is selected, no record has the key or the identity. |
| MaterializedRecords.RewriteTracks | crates/app/src/composition_orchestration.rs:339-356 | Rewriting the selected record for another key keeps records, rows and both indexes in step. |
| MaterializedRecords.AppendTracks | crates/app/src/composition_orchestration.rs:357-394 | So does adding a record when none was selected. |
| MaterializedRecords.TrackedIsUnique | crates/app/src/composition_orchestration.rs:188-206 | Records in step with the indexes are unique per source key and per foreign identity. |
| Materialization.DecideFacts | crates/app/src/composition_orchestration.rs:314-336 | What is written for a source has its key, a valid reference and the identity of the row it replaces. |
| Materialization.DecidedTells | crates/app/src/composition_orchestration.rs:247-332 | What an answer makes of a reference: a found object is recorded as archived or available with its fields, an archived one without fields over those cached; a missing one only as deleted and a denied one only as unavailable; the user's fields never change, and the reported kind tells which of these happened. |
| Materialization.FoundAccepted | crates/app/src/composition_orchestration.rs:247-332 | Exactly when a found object is recorded: its kind fits its collection, it is well formed, a row of the same key is for the same object, and no field of it is one of the user's. |
| Materialization.AbsentAccepted | crates/app/src/composition_orchestration.rs:282-312 | Exactly when a missing or denied source is recorded: a row of its key is known. Any other failure of the source is an error. |
| Materialization.RefusalTells | crates/app/src/composition_orchestration.rs:242-332 | A refusal names its reason: the source itself failed, it is missing or denied without a row of its key, its kind does not fit its collection, or rows of its key and of its identity differ. |
| Materialization.DecidedSettles | crates/app/src/composition_orchestration.rs:247-336 | The written reference is one that the same answer of the source would leave unchanged. |
| Materialization.SettledDecides | crates/app/src/composition_orchestration.rs:247-336 | A settled record is selected for its source and decided to stay as it is. |
| Materialization.ReconcileDestinationCreate | crates/app/src/composition_orchestration.rs:581-614 | Success means the one live record of the profile, source and identity that a scan shows, and that there is no second one. |
| Materialization.WriteNew | crates/app/src/composition_orchestration.rs:489-579 | At most one object is created; an Ok, also after a timeout, names the object that was created. |
| Materialization.WriteOver | crates/app/src/composition_orchestration.rs:489-579 | At most the one object changes; an Ok, also after a timeout, means that it holds the record. |
| Materialization.One | crates/app/src/composition_orchestration.rs:213-408 | One source: the space stays unique and outside the profile untouched whatever fails; success means that its one object, the row of its key if there is one, holds the record that the answer makes of it, told from the record and object before; a settled source changes nothing. |
| Materialization.CheckScopes | crates/app/src/composition.rs:111-170 | Accepted are exactly non-empty lists of distinct scopes with a canonical collection and well-formed resource ids. |
| Materialization.Materialize | crates/app/src/composition_orchestration.rs:171-412 | After every write of a run, even one that then fails, there is at most one live record of the profile per source key and per foreign identity and nothing else was touched. On success each source has an object of its own, the one that had its key if there was one, and its record is exactly what the answer makes of it: a found source is archived if and only if the answer says so and otherwise available with the fields of the answer, a missing one is deleted, a denied one unavailable, both with the source fields they had, and the fields of the user are those before; no other object changed. Where every source is settled already the space stays as it is. |
| Materialization.RunTwice | crates/app/src/composition_orchestration.rs:171-412 | A second run over the same answers creates nothing and leaves the space as the first one left it. |

## Left out

- Adapter.AnytypeRepository.DeleteResource: says nothing of the object when the delete timed out, since an unresolved timeout counts as done; what a read then shows is the subject of `AdapterRuns.DeleteThenRead`.
- Adapter.AnytypeRepository.Hydrate: over remotes other than the scripted one, for listings with finitely many pages; the program sets no bound on them.
- Adapter.AnytypeRepository.UpdateResource: bodies are in the canonical-body mode; projected properties, property formats and the DAV markers stored with them are not modelled.
- AdapterRuns.CreateThenRead: over a remote that no other writer changes between the two calls, and whose reads show what it stores.
- FakeTransport.FakeTransport.List: an offset past the machine's word, which no listing hands out, is a number here and the beginning in the program.
- SyncState.GenerationCounts: for commits that all succeed; the general statement is `SyncRuns.DiskRemembers`.
- SyncState.RunConserves: likewise.
- SyncRuns.DiskRemembers: for lives without restored exports, which replace the state on purpose.
- AuditWriter.EveryRunIsOk: appends only; export, checkpoint, readback and shutdown commands, the failure classes and a disconnected channel are not modelled.
- ObjectLocks.EveryRunFinishes: one request at a time per thread; operations that lock again inside, and poisoned mutexes, are not modelled.
- SyncRuns.NeverCorrupt: for crashes that keep renames, the others being the subject of `SyncRuns.NeverCorruptWhenCareful`; a real crash leaves the lock file behind, and reopening is modelled as if it had been cleared.
- Materialization.Materialize: no other writer in the destination space, listings that show every object, and writes that take effect when they are called or not at all; the order in which authorization sorts the sources, access decisions and upstream health are not modelled, and the answers of the sources are parameters.
- Materialization.CheckScopes: the checks on the scopes themselves; principals, policies and credentials are not modelled.
- Composition.ReconcileSnapshot: foreign references are taken after their account fingerprint was put in lower case.
- Chunked.Reader.ReadChunkedBody: a stream that stalls or fails otherwise than by ending is not modelled, and every refusal is one error.
- MemoryRepository.MemoryRepository.CreateResource: the texts inside error values, such as which identity was taken, are not modelled.
- AuditStore.RunHolds: runs of fewer than 2^64 - 2 events, so that neither sequence nor segment numbers saturate.
- AuditJournal.AppendAdds: events are opaque texts; redaction, timestamps and the operator's summary of a record are not modelled.
- Directory creation, file modes, symbolic-link checks, temporary file names and the writer's own lock file.
- Exporting to and restoring from a file that no store has open, retry classification and the later-write-wins record of the sync layer.
- Receipts, operation ids, metrics and the HTTP client, TLS and request encoding of the adapter.
- DAV request handlers, query scanning, routing, access control and health reports: string handling and one-branch checks with no specification of their own.
- `vtodo.rs` and `vfreebusy.rs`, which repeat the shapes of the codecs and the interval sweep.
- The user interface, command line, configuration, Android and script code.
