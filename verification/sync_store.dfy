/** The open checkpoint: transactions in memory, published by temporary file, backup and rename. */
module SyncStore {
  import opened Wrappers
  import opened Text
  import opened SyncState
  import opened SyncDisk

  datatype CommitFault = NoFault | BeforeWrite | PartialWrite | BeforeRename | BeforeDirectorySync

  /** A portable snapshot. The digest of a payload is taken to be injective: it is the payload. */
  datatype Export = Export(format: string, exportVersion: nat, stateVersion: nat, payload: State, digest: State)

  const EXPORT_FORMAT: string := "any-cal.sync-export"
  const EXPORT_VERSION: nat := 1

  function MakeExport(s: State): Result<Export, StoreError> {
    match Validate(s)
    case Err(e) => Err(e)
    case Ok(_) => Ok(Export(EXPORT_FORMAT, EXPORT_VERSION, s.version, s, s))
  }

  function ValidateExport(e: Export): Result<(), StoreError> {
    if e.format != EXPORT_FORMAT || e.exportVersion != EXPORT_VERSION || e.stateVersion != e.payload.version then
      Err(Corrupt)
    else
      match Validate(e.payload)
      case Err(error) => Err(error)
      case Ok(_) => if e.digest != e.payload then Err(Corrupt) else Ok(())
  }

  /** Exactly which exports are accepted: format and version are the known ones, the version of the
      state is said right, the state is valid, and the digest is that of the payload. */
  lemma ExportAccepted(e: Export)
    ensures ValidateExport(e).Ok? <==>
            e.format == "any-cal.sync-export" && e.exportVersion == 1 && e.stateVersion == 1 && e.payload.version == 1 &&
            (e.payload.scope.Some? ==> ScopeOk(e.payload.scope.value)) &&
            (forall id :: id in e.payload.pending ==> e.payload.pending[id].operationId == id) &&
            e.digest == e.payload
  {
    ValidateMeansValid(e.payload);
  }

  /** What is exported can be restored, and an export whose payload was altered cannot. */
  lemma ExportRestores(s: State, tampered: State)
    ensures ValidState(s) ==> MakeExport(s).Ok? && ValidateExport(MakeExport(s).value).Ok?
    ensures MakeExport(s).Ok? ==>
              (ValidateExport(MakeExport(s).value.(payload := tampered)).Ok? <==> tampered == s)
  {
    ValidateMeansValid(s);
  }

  /** The state and the recovery flag with which a directory opens. */
  function Opening(d: Disk, expected: Option<Scope>): Result<(State, bool), StoreError> {
    match Read(d)
    case Err(e) => Err(e)
    case Ok(s) =>
      if Validate(s).Err? then Err(Validate(s).error)
      else
        match BindScope(s, expected)
        case Err(e) => Err(e)
        case Ok(bound) => Ok((bound, !d.primary.Whole? && d.backup.Whole?))
  }

  lemma ReadIsValid(d: Disk, recovered: bool)
    requires ValidDisk(d) && Guarded(d, recovered)
    ensures Read(d).Ok? && ValidState(Read(d).value)
  {
    InitialIsValid();
    assert d.primary in Versions(d);
  }

  lemma BoundIsValid(s: State, expected: Option<Scope>)
    requires ValidState(s) && (expected.Some? ==> ScopeOk(expected.value))
    ensures BindScope(s, expected).Err? ==> BindScope(s, expected).error.Invalid?
    ensures BindScope(s, expected).Ok? ==> ValidState(BindScope(s, expected).value)
  {
    hide ScopeOk;
    if s.scope.None? && expected.Some? {
      var adopted := s.(scope := expected);
      assert adopted.pending == s.pending && adopted.scope.value == expected.value;
    }
  }

  /** Opening never meets a corrupt checkpoint while one readable copy is guarded, and guards it on. */
  lemma OpeningSucceeds(d: Disk, recovered: bool, expected: Option<Scope>)
    requires ValidDisk(d) && Guarded(d, recovered)
    requires expected.Some? ==> ScopeOk(expected.value)
    ensures Opening(d, expected).Err? ==> Opening(d, expected).error.Invalid?
    ensures Opening(d, expected).Ok? ==>
              ValidState(Opening(d, expected).value.0) && Guarded(d, Opening(d, expected).value.1)
  {
    ReadIsValid(d, recovered);
    ValidateMeansValid(Read(d).value);
    BoundIsValid(Read(d).value, expected);
  }

  /** An open store and its disk at one moment. */
  datatype Snapshot = Snapshot(state: State, recovered: bool, disk: Disk, seen: set<Disk>)

  /** What a call may leave behind: a refusal or a repetition touches nothing; otherwise the decided
      candidate is published, or memory stays and the disk is at a publication point. */
  ghost predicate Carried(before: Snapshot, change: Change, r: Result<(), StoreError>, after: Snapshot) {
    match Decide(before.state, change)
    case Refuse(e) => r == Err(e) && after == before
    case Keep => r == Ok(()) && after == before
    case Publish(candidate) => Transacted(before, candidate, r, after)
  }

  ghost predicate Transacted(before: Snapshot, candidate: State, r: Result<(), StoreError>, after: Snapshot) {
    after.state == (if r.Ok? then candidate else before.state) &&
    Attempted(before, Copies(before.disk, before.recovered), candidate, r, after)
  }

  /** A publication that reports success has settled the candidate; one that fails leaves memory alone. */
  ghost predicate Attempted(before: Snapshot, saves: bool, candidate: State, r: Result<(), StoreError>, after: Snapshot) {
    (r.Ok? ==> !after.recovered && after.disk.primary == Whole(candidate) && after.disk.unsettled == {}) &&
    (r.Err? ==> r.error == Io && after.recovered == before.recovered) &&
    Points(before, saves, candidate, after)
  }

  /** What restoring an export may leave behind: a refusal touches nothing; otherwise the payload is
      published, or memory stays and the disk is at a publication point. */
  ghost predicate Restored(before: Snapshot, export_: Export, r: Result<(), StoreError>, after: Snapshot) {
    if ValidateExport(export_).Err? then r == ValidateExport(export_) && after == before
    else if export_.payload.scope != before.state.scope then r.Err? && r.error.Invalid? && after == before
    else
      after.state == (if r.Ok? then export_.payload else before.state) &&
      Attempted(before, false, export_.payload, r, after)
  }

  /** What opening may leave behind: the files as they are, and the lock taken exactly when a store
      comes out, which then holds what the files and the scope determine. */
  ghost predicate Opened(d: Disk, locked: bool, expected: Option<Scope>, r: Result<(State, bool), StoreError>, lockedAfter: bool) {
    if expected.Some? && !ScopeOk(expected.value) then r.Err? && r.error.Invalid? && lockedAfter == locked
    else if locked then r.Err? && r.error.Invalid? && lockedAfter
    else r == Opening(d, expected) && lockedAfter == r.Ok?
  }

  /** Every disk since `before` is a point of publishing the candidate. */
  ghost predicate Points(before: Snapshot, saves: bool, candidate: State, after: Snapshot) {
    PublicationPoint(before.disk, saves, candidate, after.disk) &&
    forall d :: d in after.seen ==> d in before.seen || PublicationPoint(before.disk, saves, candidate, d)
  }

  /** Collects a snapshot into a map. */
  method Collect(items: seq<Observed>) returns (replacement: map<string, Observed>)
    ensures replacement == ById(items)
  {
    replacement := map[];
    for k := 0 to |items|
      invariant replacement == ById(items[..k])
    {
      assert items[..k + 1][..k] == items[..k];
      replacement := replacement[items[k].resourceId := items[k]];
    }
    assert items[..|items|] == items;
  }

  ghost function Part(m: map<string, Tombstone>, ids: seq<string>): map<string, Tombstone> {
    map id | id in m && id in ids :: m[id]
  }

  lemma PartStep(kept: map<string, Tombstone>, m: map<string, Tombstone>, ids: seq<string>, id: string)
    ensures kept + Part(m, ids + [id]) ==
            if id in m then (kept + Part(m, ids))[id := m[id]] else kept + Part(m, ids)
  {
    if id !in m {
      assert Part(m, ids + [id]) == Part(m, ids);
    }
  }

  /** Adds a tombstone for every observed resource that the snapshot omits. */
  method BuryOmitted(s: State, ids: seq<string>, replacement: map<string, Observed>, kept: map<string, Tombstone>)
    returns (tombstones: map<string, Tombstone>)
    requires forall id :: id in ids <==> id in s.observed
    ensures tombstones == kept + Omitted(s, replacement)
  {
    tombstones := kept;
    ghost var buried := Omitted(s, replacement);
    for k := 0 to |ids|
      invariant tombstones == kept + Part(buried, ids[..k])
    {
      var id := ids[k];
      assert ids[..k + 1] == ids[..k] + [id] && id in ids;
      PartStep(kept, buried, ids[..k], id);
      if id !in replacement {
        tombstones := tombstones[id := BuryObserved(id, s.observed[id])];
      }
    }
    assert ids[..|ids|] == ids && Part(buried, ids) == buried;
  }

  class Store {
    const fs: FileSystem
    var state: State
    var fault: CommitFault
    var recovered: bool

    ghost predicate Valid()
      reads this, fs
    {
      fs.locked && ValidState(state) && ValidDisk(fs.disk) && Guarded(fs.disk, recovered)
    }

    ghost function Now(): Snapshot
      reads this, fs
    {
      Snapshot(state, recovered, fs.disk, fs.seen)
    }

    constructor Adopt(fs: FileSystem, state: State, recovered: bool)
      ensures this.fs == fs && this.state == state && this.recovered == recovered && fault == NoFault
    {
      this.fs := fs;
      this.state := state;
      this.recovered := recovered;
      fault := NoFault;
    }

    /** Takes the lock, reads and validates. The lock stays only if a store comes out. */
    static method Open(fs: FileSystem, expected: Option<Scope>) returns (r: Result<Store, StoreError>)
      modifies fs
      ensures fs.disk == old(fs.disk) && fs.seen == old(fs.seen)
      ensures Opened(old(fs.disk), old(fs.locked), expected,
                     if r.Ok? then Ok((r.value.state, r.value.recovered)) else Err(r.error), fs.locked)
      ensures r.Ok? ==> fresh(r.value) && r.value.fs == fs && r.value.fault == NoFault &&
                        (ValidDisk(fs.disk) ==> r.value.Valid())
    {
      if expected.Some? && !ScopeOk(expected.value) {
        return Err(Invalid("invalid sync scope"));
      }
      if fs.locked {
        return Err(Invalid("sync store is already open by another writer"));
      }
      fs.locked := true;
      var state, recovered;
      var d := fs.disk;
      if d.primary.Whole? {
        state, recovered := d.primary.state, false;
      } else if d.backup.Whole? {
        state, recovered := d.backup.state, true;
      } else if d.primary.Absent? && d.backup.Absent? {
        state, recovered := Initial, false;
      } else {
        fs.locked := false;
        return Err(Corrupt);
      }
      var valid := Validate(state);
      if valid.Err? {
        fs.locked := false;
        return Err(valid.error);
      }
      var bound := BindScope(state, expected);
      if bound.Err? {
        fs.locked := false;
        return Err(bound.error);
      }
      if ValidDisk(d) {
        OpeningSucceeds(d, recovered, expected);
      }
      var store := new Store.Adopt(fs, bound.value, recovered);
      return Ok(store);
    }

    /** Dropping the store releases the lock. */
    method Close()
      requires Valid()
      modifies fs
      ensures !fs.locked && fs.disk == old(fs.disk) && fs.seen == old(fs.seen)
    {
      fs.locked := false;
    }

    /** Publishes the candidate. Every disk on the way, and so every crash, shows the old state or
        the candidate; success makes the candidate durable, failure leaves memory alone. */
    method Commit(candidate: State) returns (r: Result<(), StoreError>)
      requires Valid() && ValidState(candidate)
      modifies this`recovered, fs
      ensures Valid()
      ensures Attempted(old(Now()), Copies(old(fs.disk), old(recovered)), candidate, r, Now())
      ensures fault in {BeforeWrite, PartialWrite, BeforeRename} ==>
                r.Err? && Staging(old(fs.disk), Copies(old(fs.disk), old(recovered)), fs.disk)
      ensures fault == BeforeDirectorySync ==> r.Err?
    {
      ghost var before, saves := fs.disk, Copies(fs.disk, recovered);
      if fault == BeforeWrite {
        return Err(Io);
      }
      var ok := fs.WriteTemporary(candidate);
      if fault == PartialWrite {
        fs.RemoveTemporary();
        PublicationKeepsValid(before, saves, candidate, fs.disk);
        return Err(Io);
      }
      if !ok {
        return Err(Io);
      }
      if fs.disk.primary != Absent && !recovered {
        ok := fs.CopyToBackup();
        if !ok {
          PublicationKeepsValid(before, saves, candidate, fs.disk);
          return Err(Io);
        }
      }
      assert Staging(before, saves, fs.disk);
      if fault == BeforeRename {
        fs.RemoveTemporary();
        PublicationKeepsValid(before, saves, candidate, fs.disk);
        return Err(Io);
      }
      ok := fs.Rename();
      if ok {
        assert Published(before, saves, candidate, fs.disk);
      }
      PublicationKeepsValid(before, saves, candidate, fs.disk);
      if !ok || fault == BeforeDirectorySync {
        return Err(Io);
      }
      ok := fs.SyncDirectory();
      PublicationKeepsValid(before, saves, candidate, fs.disk);
      if !ok {
        return Err(Io);
      }
      recovered := false;
      return Ok(());
    }

    /** One transaction: counts a generation, validates, commits, and only then moves memory on. */
    method Transaction(changed: State) returns (r: Result<(), StoreError>)
      requires Valid() && ValidState(Tick(changed))
      modifies this`state, this`recovered, fs
      ensures Valid()
      ensures Transacted(old(Now()), Tick(changed), r, Now())
    {
      var candidate := Tick(changed);
      ValidateMeansValid(candidate);
      var valid := Validate(candidate);
      if valid.Err? {
        r := valid;
      } else {
        r := Commit(candidate);
        if r.Ok? {
          state := candidate;
        }
      }
    }

    method Observe(item: Observed) returns (r: Result<(), StoreError>)
      requires Valid()
      modifies this`state, this`recovered, fs
      ensures Valid() && Carried(old(Now()), Observing(item), r, Now())
      ensures r.Ok? ==> Effect(old(state), Observing(item), state) && fs.disk.primary == Whole(state)
      ensures r.Err? ==> state == old(state)
    {
      EffectIs(state, Observing(item));
      var changed := state.(observed := state.observed[item.resourceId := item]);
      r := Transaction(changed);
    }

    /** Replaces the whole snapshot; what it omits becomes a tombstone. */
    method ReplaceObserved(items: seq<Observed>, resurrect: bool) returns (r: Result<(), StoreError>)
      requires Valid()
      modifies this`state, this`recovered, fs
      ensures Valid() && Carried(old(Now()), Replacing(items, resurrect), r, Now())
      ensures r.Ok? ==> Effect(old(state), Replacing(items, resurrect), state) && fs.disk.primary == Whole(state)
      ensures r.Err? ==> state == old(state)
    {
      var replacement := Collect(items);
      if !resurrect {
        var back := replacement.Keys * state.tombstones.Keys;
        if back != {} {
          return Err(Resurrection(Least(back)));
        }
      }
      var kept := if resurrect then state.tombstones - replacement.Keys else state.tombstones;
      var tombstones := BuryOmitted(state, SortedKeys(state.observed.Keys), replacement, kept);
      var changed := state.(observed := replacement, tombstones := tombstones);
      assert changed == Replaced(state, replacement, resurrect);
      EffectIs(state, Replacing(items, resurrect));
      r := Transaction(changed);
    }

    method Enqueue(operation: Operation) returns (r: Result<(), StoreError>)
      requires Valid()
      modifies this`state, this`recovered, fs
      ensures Valid() && Carried(old(Now()), Enqueueing(operation), r, Now())
      ensures r.Ok? ==> state.pending == old(state.pending)[operation.operationId := operation] &&
                        state.observed == old(state.observed) && state.tombstones == old(state.tombstones)
      ensures r.Ok? && operation.operationId !in old(state.pending) ==>
                fs.disk.primary == Whole(state) && Effect(old(state), Enqueueing(operation), state)
      ensures r.Err? ==> state == old(state)
    {
      if Trim(operation.operationId) == "" {
        return Err(Invalid("operation ID is empty"));
      }
      if operation.operationId in state.pending {
        if state.pending[operation.operationId] != operation {
          return Err(Invalid("operation ID reused with different operation"));
        }
        return Ok(());
      }
      EffectIs(state, Enqueueing(operation));
      r := Transaction(state.(pending := state.pending[operation.operationId := operation]));
    }

    method MarkApplied(id: string, outcome: Option<Observed>) returns (r: Result<(), StoreError>)
      requires Valid()
      modifies this`state, this`recovered, fs
      ensures Valid() && Carried(old(Now()), Applying(id, outcome), r, Now())
      ensures r.Ok? ==> Effect(old(state), Applying(id, outcome), state) && fs.disk.primary == Whole(state)
      ensures r.Err? ==> state == old(state)
    {
      if id !in state.pending {
        return Err(Invalid("unknown operation ID"));
      }
      var operation := state.pending[id];
      var candidate := state.(pending := state.pending - {id});
      if outcome.Some? {
        candidate := candidate.(observed := candidate.observed[outcome.value.resourceId := outcome.value]);
      }
      if operation.kind == Archive || operation.kind == Delete {
        if operation.resourceId in candidate.observed {
          var last := candidate.observed[operation.resourceId];
          candidate := candidate.(observed := candidate.observed - {operation.resourceId},
                                  tombstones := candidate.tombstones[operation.resourceId := BuryObserved(last.resourceId, last)]);
        }
      }
      assert candidate == Applied(state, id, outcome);
      EffectIs(state, Applying(id, outcome));
      r := Transaction(candidate);
    }

    method RecordTombstone(tombstone: Tombstone) returns (r: Result<(), StoreError>)
      requires Valid()
      modifies this`state, this`recovered, fs
      ensures Valid() && Carried(old(Now()), Burying(tombstone), r, Now())
      ensures r.Ok? ==> Effect(old(state), Burying(tombstone), state) && fs.disk.primary == Whole(state)
      ensures r.Err? ==> state == old(state)
    {
      EffectIs(state, Burying(tombstone));
      r := Transaction(state.(observed := state.observed - {tombstone.resourceId},
                              tombstones := state.tombstones[tombstone.resourceId := tombstone]));
    }

    /** Publishes a validated export of the same scope, without saving the primary first. */
    method RestoreExport(export_: Export) returns (r: Result<(), StoreError>)
      requires Valid()
      modifies this`state, this`recovered, fs
      ensures Valid()
      ensures Restored(old(Now()), export_, r, Now())
    {
      var valid := ValidateExport(export_);
      if valid.Err? {
        return Err(valid.error);
      }
      ValidateMeansValid(export_.payload);
      if state.scope != export_.payload.scope {
        return Err(Invalid("sync export binding scope mismatch"));
      }
      ghost var before := fs.disk;
      var ok := fs.WriteTemporary(export_.payload);
      if !ok {
        return Err(Io);
      }
      ok := fs.Rename();
      if !ok {
        fs.RemoveTemporary();
        return Err(Io);
      }
      PublicationKeepsValid(before, false, export_.payload, fs.disk);
      ok := fs.SyncDirectory();
      PublicationKeepsValid(before, false, export_.payload, fs.disk);
      if !ok {
        return Err(Io);
      }
      state := export_.payload;
      recovered := false;
      return Ok(());
    }
  }
}
