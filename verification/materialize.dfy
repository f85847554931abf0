/** Materializing references: reads many sources and writes one destination space. */
module Materialization {
  import opened Wrappers
  import opened Text
  import opened Envelope
  import opened Composition
  import opened MaterializedRecords
  import opened DestinationSpace
  import A = AnytypeObjects

  // ----- indexing what was scanned ----------------------------------------

  /** `existing.retain(…)`: the rows of one profile. */
  method Retain(rows: seq<Loaded>, profile: string, ghost objects: Objects) returns (kept: seq<Loaded>)
    requires Complete(rows, objects)
    ensures Mirrors(kept, objects, profile)
  {
    hide Live, HasRow;
    kept := [];
    for n := 0 to |rows|
      invariant forall k :: 0 <= k < |kept| ==> Shows(kept[k], objects, profile)
      invariant forall k :: 0 <= k < |kept| ==> exists j :: 0 <= j < n && rows[j].id == kept[k].id
      invariant forall j, k :: 0 <= j < k < |kept| ==> kept[j].id != kept[k].id
      invariant forall j :: 0 <= j < n && rows[j].record.profile == profile ==> HasRow(kept, rows[j].id)
    {
      assert ShowsLive(rows[n], objects);
      ghost var before := kept;
      if rows[n].record.profile == profile {
        kept := kept + [rows[n]];
        RowKept(before, rows[n]);
      }
      forall j | 0 <= j < n && rows[j].record.profile == profile ensures HasRow(kept, rows[j].id) {
        RowStays(before, kept, rows[j].id);
      }
    }
    forall id | Belongs(objects, profile, id) ensures HasRow(kept, id) {
      RowOf(rows, id);
      var j :| 0 <= j < |rows| && rows[j].id == id;
      assert ShowsLive(rows[j], objects);
    }
  }

  lemma RowKept(rows: seq<Loaded>, row: Loaded)
    ensures HasRow(rows + [row], row.id)
  {
    assert (rows + [row])[|rows|] == row;
  }

  lemma RowStays(rows: seq<Loaded>, more: seq<Loaded>, id: string)
    requires rows <= more && HasRow(rows, id)
    ensures HasRow(more, id)
  {
    var k :| 0 <= k < |rows| && rows[k].id == id;
    assert more[k] == rows[k];
  }

  lemma RowOf(rows: seq<Loaded>, id: string)
    requires HasRow(rows, id)
    ensures exists j :: 0 <= j < |rows| && rows[j].id == id
  {
  }

  /** Two rows that a sound destination would not both hold. */
  predicate Clash(a: Loaded, b: Loaded) {
    a.record.key == b.record.key || IdentityAt(a.record) == IdentityAt(b.record)
  }

  ghost predicate HasClash(rows: seq<Loaded>) {
    exists j, k :: 0 <= j < k < |rows| && Clash(rows[j], rows[k])
  }

  predicate Indexes(ix: Index) {
    DistinctKeys(ix.rows) && IdentityIndexed(ix) && KeyIndexed(ix, {}) &&
    forall key :: key in ix.byKey ==> ix.byKey[key] < |ix.rows| && ix.rows[ix.byKey[key]].record.key == key
  }

  /** Both indexes of the rows, unless two rows share a key or an identity. */
  method BuildIndex(rows: seq<Loaded>) returns (r: Result<Index, Error>)
    ensures r.Ok? ==> r.value.rows == rows && Indexes(r.value)
    ensures r.Err? <==> HasClash(rows)
  {
    hide IdentityOf;
    var ix := Index([], map[], map[]);
    for n := 0 to |rows|
      invariant ix.rows == rows[..n] && Indexes(ix)
    {
      var row := rows[n];
      assert rows[..n + 1] == rows[..n] + [row];
      if row.record.key in ix.byKey || IdentityAt(row.record) in ix.byIdentity {
        ghost var j := if row.record.key in ix.byKey then ix.byKey[row.record.key] else ix.byIdentity[IdentityAt(row.record)];
        assert rows[j] == ix.rows[j] && Clash(rows[j], rows[n]);
        return Err(DuplicateDestinationReference);
      }
      AppendIndexes(ix, row);
      ix := Append(ix, row);
    }
    assert rows[..|rows|] == rows;
    NoClash(ix);
    return Ok(ix);
  }

  lemma AppendIndexes(ix: Index, row: Loaded)
    requires Indexes(ix) && row.record.key !in ix.byKey && IdentityAt(row.record) !in ix.byIdentity
    ensures Indexes(Append(ix, row))
  {
    hide IdentityOf;
  }

  lemma NoClash(ix: Index)
    requires Indexes(ix)
    ensures !HasClash(ix.rows)
  {
    hide IdentityOf;
  }

  lemma ClashIsNotUnique(rows: seq<Loaded>, objects: Objects, profile: string)
    requires Mirrors(rows, objects, profile) && HasClash(rows)
    ensures !Unique(objects, profile)
  {
    hide RecordOk, IdentityOf;
    var j, k :| 0 <= j < k < |rows| && Clash(rows[j], rows[k]);
    assert Shows(rows[j], objects, profile) && Shows(rows[k], objects, profile);
  }

  /** Scanning and indexing: the live records of the profile, or an error when they are not unique. */
  method Load(d: Destination, profile: string) returns (r: Result<Index, Error>)
    ensures r.Ok? ==> Tracks(r.value, d.objects, profile, {})
    ensures !Unique(d.objects, profile) ==> r.Err?
  {
    hide Complete, Mirrors, Unique, HasClash, IdentityIndexed, DistinctKeys;
    var scanned := Scan(d);
    if scanned.Err? { return Err(scanned.error); }
    var rows := Retain(scanned.value, profile, d.objects);
    r := BuildIndex(rows);
    if r.Ok? {
      assert KeyIndexed(r.value, {});
      TrackedIsUnique(r.value, d.objects, profile, {});
    }
  }

  // ----- reading a source and choosing its row ----------------------------

  /** What the source repository answered for a resource. */
  datatype SourceRead = Found(foreign: Foreign, fields: FieldMap, archived: bool) | Missing | Denied | Broken

  predicate KindFits(collection: CollectionKind, kind: string) {
    match collection
    case Contacts => kind == "Contact"
    case Tasks => kind == "Task"
    case CompositionKind => false
  }

  /** The snapshot that the answer stands for; without an object it can only speak of a known reference. */
  function SnapshotOf(key: Key, read: SourceRead, known: Option<Reference>): Result<Snapshot, Error> {
    match read
    case Found(foreign, fields, archived) =>
      if !KindFits(key.collection, foreign.kind) then Err(SourceKindMismatch)
      else
        var s := Snapshot(foreign, fields, if archived then Archived else Available);
        (match ValidateSnapshot(s)
         case Err(e) => Err(Merging(e))
         case Ok(_) => Ok(s))
    case Missing =>
      (match known
       case None => Err(SourceNotFound(key))
       case Some(reference) => Ok(Snapshot(reference.foreign, map[], Deleted)))
    case Denied =>
      (match known
       case None => Err(SourceUnavailableWithoutReference(key))
       case Some(reference) => Ok(Snapshot(reference.foreign, map[], Unavailable)))
    case Broken => Err(SourceRepository)
  }

  predicate InRows(ix: Index) {
    (forall key :: key in ix.byKey ==> ix.byKey[key] < |ix.rows|) &&
    (forall i :: i in ix.byIdentity ==> ix.byIdentity[i] < |ix.rows|)
  }

  function ReferenceAt(ix: Index, k: Option<nat>): Option<Reference>
    requires k.Some? ==> k.value < |ix.rows|
  {
    if k.Some? then Some(ix.rows[k.value].record.reference) else None
  }

  /** The row to write for a source, if there is one, and what to write. */
  function Decide(ix: Index, profile: string, key: Key, read: SourceRead): Result<(Option<nat>, Merge), Error>
    requires InRows(ix)
  {
    match SnapshotOf(key, read, ReferenceAt(ix, Lookup(ix.byKey, key)))
    case Err(e) => Err(e)
    case Ok(snapshot) =>
      match Selected(ix, key, IdentityOf(snapshot.foreign))
      case None => Err(DuplicateDestinationReference)
      case Some(selected) =>
        match Reconcile(ReferenceAt(ix, selected), snapshot)
        case Err(e) => Err(Merging(e))
        case Ok(merge) =>
          if RecordOk(Record(profile, key, merge.reference)) then Ok((selected, merge)) else Err(MalformedDestinationRecord)
  }

  /** The reference already says what this answer of its source would make it say. */
  predicate Settles(key: Key, read: SourceRead, reference: Reference) {
    SnapshotOf(key, read, Some(reference)).Ok? &&
    Reconcile(Some(reference), SnapshotOf(key, read, Some(reference)).value) == Ok(Merge(reference, Unchanged))
  }

  predicate SettledAs(objects: Objects, profile: string, key: Key, read: SourceRead, id: string) {
    Belongs(objects, profile, id) && RecordAt(objects, id).key == key && Settles(key, read, RecordAt(objects, id).reference)
  }

  /** What an answer makes of a reference: only an object that was found brings new content, and the
      user's fields are never touched. */
  predicate Told(was: Option<Reference>, now: Reference, read: SourceRead) {
    match read
    case Found(foreign, fields, archived) =>
      now.version == 1 && now.foreign == foreign && now.availability == (if archived then Archived else Available) &&
      now.userFields == (if was.Some? then was.value.userFields else map[]) &&
      now.sourceFields == (if archived && fields == map[] && was.Some? then was.value.sourceFields else fields)
    case Missing => was.Some? && now == was.value.(availability := Deleted)
    case Denied => was.Some? && now == was.value.(availability := Unavailable)
    case Broken => false
  }

  lemma DecidedTells(ix: Index, profile: string, key: Key, read: SourceRead)
    requires InRows(ix) && Decide(ix, profile, key, read).Ok?
    ensures var (selected, merge) := Decide(ix, profile, key, read).value;
            (selected.Some? ==> selected.value < |ix.rows|) &&
            Told(ReferenceAt(ix, selected), merge.reference, read) &&
            Reported(ReferenceAt(ix, selected), merge.reference, merge.kind)
  {
    hide IdentityOf, RecordOk, ValidateForeign, ValidateFields, KindFits, Reported;
    var snapshot := SnapshotOf(key, read, ReferenceAt(ix, Lookup(ix.byKey, key))).value;
    KindIsReported(ReferenceAt(ix, Decide(ix, profile, key, read).value.0), snapshot);
  }

  lemma MergedForeign(existing: Option<Reference>, s: Snapshot)
    requires Reconcile(existing, s).Ok?
    ensures Reconcile(existing, s).value.reference.foreign == s.foreign
    ensures existing.Some? ==> IdentityOf(existing.value.foreign) == IdentityOf(s.foreign)
  {
    hide ValidateReference, ValidateSnapshot;
  }

  lemma DecideFacts(ix: Index, profile: string, key: Key, read: SourceRead)
    requires InRows(ix) && Decide(ix, profile, key, read).Ok?
    ensures var (selected, merge) := Decide(ix, profile, key, read).value;
            Selected(ix, key, IdentityOf(merge.reference.foreign)) == Some(selected) &&
            RecordOk(Record(profile, key, merge.reference)) &&
            (selected.Some? ==> selected.value < |ix.rows|) &&
            (selected.Some? ==> IdentityAt(ix.rows[selected.value].record) == IdentityOf(merge.reference.foreign))
  {
    hide IdentityOf, RecordOk, Reconcile, SnapshotOf;
    var snapshot := SnapshotOf(key, read, ReferenceAt(ix, Lookup(ix.byKey, key))).value;
    var selected := Selected(ix, key, IdentityOf(snapshot.foreign)).value;
    MergedForeign(ReferenceAt(ix, selected), snapshot);
  }

  /** What is decided for a source settles it. */
  lemma DecidedSettles(ix: Index, profile: string, key: Key, read: SourceRead)
    requires InRows(ix) && Decide(ix, profile, key, read).Ok?
    ensures Settles(key, read, Decide(ix, profile, key, read).value.1.reference)
  {
    hide IdentityOf, RecordOk, Reconcile, ValidateSnapshot, KindFits;
    var known := ReferenceAt(ix, Lookup(ix.byKey, key));
    var snapshot := SnapshotOf(key, read, known).value;
    var selected := Selected(ix, key, IdentityOf(snapshot.foreign)).value;
    MergedForeign(ReferenceAt(ix, selected), snapshot);
    ReapplyIsUnchanged(ReferenceAt(ix, selected), snapshot);
  }

  /** A settled record is selected for its source, and decided to stay as it is. */
  lemma SettledDecides(ix: Index, objects: Objects, profile: string, done: set<Key>, key: Key, read: SourceRead, id: string)
    returns (k: nat)
    requires InRows(ix) && Tracks(ix, objects, profile, done) && key !in done && SettledAs(objects, profile, key, read, id)
    ensures k < |ix.rows| && Shows(ix.rows[k], objects, profile) && ix.rows[k].record.key == key && ix.rows[k].id == id
    ensures Decide(ix, profile, key, read) == Ok((Some(k), Merge(ix.rows[k].record.reference, Unchanged)))
  {
    hide IdentityOf, RecordOk, Reconcile, SnapshotOf;
    RowOf(ix.rows, id);
    k :| 0 <= k < |ix.rows| && ix.rows[k].id == id;
    assert Shows(ix.rows[k], objects, profile);
    var reference := ix.rows[k].record.reference;
    MergedForeign(Some(reference), SnapshotOf(key, read, Some(reference)).value);
    assert ix.rows[k].record == Record(profile, key, reference);
  }

  /** The names in a record are fit to be written. */
  predicate Writable(profile: string, key: Key) {
    FingerprintOk(profile) && !IsEmptyName(key.domainId) && !IsEmptyName(key.resourceId) &&
    (forall c :: c in key.resourceId ==> !IsControl(c)) && key.collection != CompositionKind
  }

  lemma RowIsValid(ix: Index, objects: Objects, profile: string, done: set<Key>, k: nat)
    requires Tracks(ix, objects, profile, done) && k < |ix.rows|
    ensures Valid(ix.rows[k].record.reference)
  {
    hide ValidateReference;
    assert Shows(ix.rows[k], objects, profile);
  }

  lemma DecidesIf(ix: Index, profile: string, key: Key, read: SourceRead)
    requires InRows(ix) && Writable(profile, key)
    ensures var snapshot := SnapshotOf(key, read, ReferenceAt(ix, Lookup(ix.byKey, key)));
            Decide(ix, profile, key, read).Ok? <==>
            snapshot.Ok? &&
            var selected := Selected(ix, key, IdentityOf(snapshot.value.foreign));
            selected.Some? && Reconcile(ReferenceAt(ix, selected.value), snapshot.value).Ok?
  {
    hide IdentityOf, SnapshotOf, FingerprintOk;
    var snapshot := SnapshotOf(key, read, ReferenceAt(ix, Lookup(ix.byKey, key)));
    if snapshot.Ok? {
      var selected := Selected(ix, key, IdentityOf(snapshot.value.foreign));
      if selected.Some? {
        ReconciledIsValid(ReferenceAt(ix, selected.value), snapshot.value);
      }
      hide Valid, Reconcile;
    }
  }

  lemma ReconciledIsValid(existing: Option<Reference>, s: Snapshot)
    ensures Reconcile(existing, s).Ok? ==> Valid(Reconcile(existing, s).value.reference)
  {
    hide ValidateReference, ValidateSnapshot;
  }

  /** Exactly when an object that was found is recorded: its kind fits its collection, it is well
      formed, a row of the same key is for the same object, and no field of it is one of the user's. */
  lemma FoundAccepted(ix: Index, objects: Objects, profile: string, done: set<Key>, key: Key, foreign: Foreign, fields: FieldMap,
                      archived: bool)
    requires InRows(ix) && Tracks(ix, objects, profile, done) && Writable(profile, key)
    ensures Decide(ix, profile, key, Found(foreign, fields, archived)).Ok? <==>
            ((key.collection == Contacts && foreign.kind == "Contact") || (key.collection == Tasks && foreign.kind == "Task")) &&
            ValidateSnapshot(Snapshot(foreign, fields, Available)).Ok? &&
            (key in ix.byKey ==> IdentityAt(ix.rows[ix.byKey[key]].record) == IdentityOf(foreign)) &&
            (IdentityOf(foreign) in ix.byIdentity ==>
              fields.Keys !! ix.rows[ix.byIdentity[IdentityOf(foreign)]].record.reference.userFields.Keys)
  {
    hide Tracks, ValidateForeign, ValidateFields, FingerprintOk, IdentityOf, Decide, Reconcile, Selected;
    var s := Snapshot(foreign, fields, if archived then Archived else Available);
    DecidesIf(ix, profile, key, Found(foreign, fields, archived));
    if ValidateSnapshot(s).Ok? {
      FoundMerges(ix, objects, profile, done, key, s);
    }
  }

  lemma FoundMerges(ix: Index, objects: Objects, profile: string, done: set<Key>, key: Key, s: Snapshot)
    requires InRows(ix) && Tracks(ix, objects, profile, done) && ValidateSnapshot(s).Ok? && s.availability in {Available, Archived}
    ensures var selected := Selected(ix, key, IdentityOf(s.foreign));
            (selected.Some? ==> selected.value.Some? ==> selected.value.value < |ix.rows|) &&
            (selected.Some? && Reconcile(ReferenceAt(ix, selected.value), s).Ok? <==>
              (key in ix.byKey ==> IdentityAt(ix.rows[ix.byKey[key]].record) == IdentityOf(s.foreign)) &&
              (IdentityOf(s.foreign) in ix.byIdentity ==>
                s.fields.Keys !! ix.rows[ix.byIdentity[IdentityOf(s.foreign)]].record.reference.userFields.Keys))
  {
    hide IdentityOf, ValidateReference, ValidateSnapshot, Reconcile, Mirrors, Valid;
    var selected := Selected(ix, key, IdentityOf(s.foreign));
    if selected.Some? {
      if selected.value.None? {
        NewIsAsSeen(s);
      } else {
        var reference := ix.rows[selected.value.value].record.reference;
        RowIsValid(ix, objects, profile, done, selected.value.value);
        MergeRefusal(reference, s);
        ValidIsDisjoint(reference);
        KeptFields(reference, s);
      }
    }
  }

  lemma KeptFields(r: Reference, s: Snapshot)
    requires r.sourceFields.Keys !! r.userFields.Keys && s.availability in {Available, Archived}
    ensures MergedFields(r.sourceFields, s).Keys * r.userFields.Keys == {} <==> s.fields.Keys !! r.userFields.Keys
  {
    if MergedFields(r.sourceFields, s) == s.fields {
      var shared := s.fields.Keys * r.userFields.Keys;
      assert shared == {} ==> forall key :: key in s.fields.Keys ==> key in r.userFields.Keys ==> key in shared;
    } else {
      assert s.fields.Keys == {};
    }
  }

  lemma AbsentMerges(r: Reference, availability: Availability)
    requires Valid(r) && availability in {Deleted, Unavailable}
    ensures ValidateSnapshot(Snapshot(r.foreign, map[], availability)).Ok?
    ensures Reconcile(Some(r), Snapshot(r.foreign, map[], availability)).Ok?
  {
    hide ValidateForeign;
    ValidIsDisjoint(r);
    MergeRefusal(r, Snapshot(r.foreign, map[], availability));
  }

  /** Which error a refused source ends with. */
  lemma RefusalTells(ix: Index, profile: string, key: Key, read: SourceRead)
    requires InRows(ix) && Decide(ix, profile, key, read).Err?
    ensures var error := Decide(ix, profile, key, read).error;
            (error == SourceRepository <==> read.Broken?) &&
            (error == SourceNotFound(key) <==> read.Missing? && key !in ix.byKey) &&
            (error == SourceUnavailableWithoutReference(key) <==> read.Denied? && key !in ix.byKey) &&
            (error == SourceKindMismatch <==>
              read.Found? && !(key.collection == Contacts && read.foreign.kind == "Contact") &&
              !(key.collection == Tasks && read.foreign.kind == "Task")) &&
            (error == DuplicateDestinationReference && read.Found? ==>
              key in ix.byKey && IdentityOf(read.foreign) in ix.byIdentity && ix.byKey[key] != ix.byIdentity[IdentityOf(read.foreign)])
  {
    hide IdentityOf, RecordOk, Reconcile, ValidateSnapshot;
  }

  /** Exactly when a missing or denied source is recorded: a row of its key is known. */
  lemma AbsentAccepted(ix: Index, objects: Objects, profile: string, done: set<Key>, key: Key, read: SourceRead)
    requires InRows(ix) && Tracks(ix, objects, profile, done) && Writable(profile, key) && !read.Found?
    ensures Decide(ix, profile, key, read).Ok? <==> (read.Missing? || read.Denied?) && key in ix.byKey
  {
    hide Mirrors, Decide, ValidateForeign, ValidateFields, FingerprintOk, IdentityOf, Reconcile;
    DecidesIf(ix, profile, key, read);
    if !read.Broken? && key in ix.byKey {
      var k := ix.byKey[key];
      RowIsValid(ix, objects, profile, done, k);
      AbsentMerges(ix.rows[k].record.reference, if read.Missing? then Deleted else Unavailable);
    }
  }

  lemma TrackedInRows(ix: Index, objects: Objects, profile: string, done: set<Key>)
    requires Tracks(ix, objects, profile, done)
    ensures InRows(ix)
  {
  }

  // ----- writing ----------------------------------------------------------

  predicate WritesRecord(stored: Stored) {
    stored.body.Holds? && RecordOk(stored.body.record) && !stored.archived
  }

  predicate SameSource(row: Loaded, record: Record) {
    IdentityAt(row.record) == IdentityAt(record) && row.record.profile == record.profile &&
    row.record.key.domainId == record.key.domainId && row.record.key.resourceId == record.key.resourceId
  }

  /** A live record of the profile for the record's source; the collection is not compared. */
  predicate IsFor(objects: Objects, id: string, record: Record) {
    Belongs(objects, record.profile, id) && IdentityAt(RecordAt(objects, id)) == IdentityAt(record) &&
    RecordAt(objects, id).key.domainId == record.key.domainId && RecordAt(objects, id).key.resourceId == record.key.resourceId
  }

  /** `reconcile_destination_create`: the one live record for the same source that a scan shows. */
  method ReconcileDestinationCreate(d: Destination, record: Record) returns (r: Result<(string, Stored), Error>)
    ensures r.Ok? ==> Belongs(d.objects, record.profile, r.value.0) && r.value.1 == d.objects[r.value.0] &&
                      IdentityAt(RecordAt(d.objects, r.value.0)) == IdentityAt(record)
    ensures r.Ok? ==> forall id :: IsFor(d.objects, id, record) <==> id == r.value.0
  {
    hide IdentityOf, RecordOk;
    var scanned := Scan(d);
    if scanned.Err? { return Err(scanned.error); }
    var rows := scanned.value;
    var first: Option<(string, Stored)> := None;
    for n := 0 to |rows|
      invariant first.Some? ==> Belongs(d.objects, record.profile, first.value.0) && first.value.1 == d.objects[first.value.0]
      invariant first.Some? ==> IsFor(d.objects, first.value.0, record)
      invariant forall j :: 0 <= j < n && SameSource(rows[j], record) ==> first.Some? && first.value.0 == rows[j].id
    {
      assert ShowsLive(rows[n], d.objects);
      if SameSource(rows[n], record) {
        if first.Some? { return Err(DuplicateDestinationReference); }
        first := Some((rows[n].id, rows[n].stored));
      }
    }
    if first.None? { return Err(DestinationTransport(A.TimedOut)); }
    forall id | IsFor(d.objects, id, record) ensures id == first.value.0 {
      RowOf(rows, id);
      var j :| 0 <= j < |rows| && rows[j].id == id;
      assert ShowsLive(rows[j], d.objects) && SameSource(rows[j], record);
    }
    return Ok(first.value);
  }

  ghost predicate NoIdentity(objects: Objects, profile: string, identity: Identity) {
    forall id :: Belongs(objects, profile, id) ==> IdentityAt(RecordAt(objects, id)) != identity
  }

  lemma OnlyTheNew(before: Objects, at: string, stored: Stored, id: string, profile: string, identity: Identity)
    requires NoIdentity(before, profile, identity) && at !in before
    requires Belongs(before[at := stored], profile, id) && IdentityAt(RecordAt(before[at := stored], id)) == identity
    ensures id == at
  {
    hide IdentityOf, RecordOk;
    assert id != at ==> Belongs(before, profile, id);
  }

  /** Creates one object at `at`, or none; success says that it is there, also after a timeout. */
  method WriteNew(d: Destination, stored: Stored) returns (r: Result<(string, Stored), Error>, ghost at: string)
    requires WritesRecord(stored) && NoIdentity(d.objects, stored.body.record.profile, IdentityAt(stored.body.record))
    modifies d
    ensures old(d.past) <= d.past <= old(d.past) + {d.objects}
    ensures d.objects == old(d.objects) || (at !in old(d.objects) && d.objects == old(d.objects)[at := stored])
    ensures r.Ok? ==> at !in old(d.objects) && d.objects == old(d.objects)[at := stored] && r.value == (at, stored)
  {
    hide IdentityOf, RecordOk, Live;
    at := "";
    if stored.spaceId != d.spaceId { return Err(DestinationBindingMismatch), at; }
    ghost var before := d.objects;
    var answer;
    answer, at := d.Create(stored);
    if answer.Ok? {
      if answer.value.1.spaceId != d.spaceId { return Err(DestinationBindingMismatch), at; }
      return Ok(answer.value), at;
    }
    if answer.error != A.TimedOut { return Err(DestinationTransport(answer.error)), at; }
    var record := stored.body.record;
    r := ReconcileDestinationCreate(d, record);
    if r.Ok? {
      assert d.objects != before;
      OnlyTheNew(before, at, stored, r.value.0, record.profile, IdentityAt(record));
    }
  }

  /** Rewrites one live object, or leaves it; success says that it holds the record, also after a timeout. */
  method WriteOver(d: Destination, id: string, stored: Stored) returns (r: Result<Stored, Error>)
    requires WritesRecord(stored) && Live(d.objects, id) && stored == d.objects[id].(body := stored.body)
    modifies d
    ensures old(d.past) <= d.past <= old(d.past) + {d.objects}
    ensures d.objects == old(d.objects) || d.objects == old(d.objects)[id := stored]
    ensures r.Ok? ==> d.objects == old(d.objects)[id := stored] && r.value == stored
  {
    hide RecordOk;
    if stored.spaceId != d.spaceId { return Err(DestinationBindingMismatch); }
    var answer := d.Update(id, stored);
    if answer.Ok? {
      if answer.value.1.spaceId != d.spaceId || answer.value.0 != id { return Err(DestinationBindingMismatch); }
      return Ok(answer.value.1);
    }
    if answer.error != A.TimedOut { return Err(DestinationTransport(answer.error)); }
    var actual := d.Get(id);
    if actual.Err? { return Err(DestinationTransport(actual.error)); }
    var observed := ReadBody(actual.value.body);
    if observed.None? { return Err(MalformedDestinationRecord); }
    if observed.value != stored.body.record { return Err(DestinationTransport(A.TimedOut)); }
    return Ok(actual.value);
  }

  // ----- one source -------------------------------------------------------

  datatype Outcome = Outcome(objectId: string, created: bool, kind: RefreshKind, reference: Reference)

  /** Every state written meanwhile is the present one. */
  ghost predicate OnlyNow(before: set<Objects>, past: set<Objects>, now: Objects) {
    before <= past <= before + {now}
  }

  /** What holds of a written state: unique records, and nothing written outside the profile. */
  ghost predicate Sound(before: Objects, now: Objects, profile: string) {
    Unique(now, profile) && WithinProfile(before, now, profile)
  }

  lemma SoundRewrite(ix: Index, objects: Objects, profile: string, done: set<Key>, k: nat, record: Record)
    requires Tracks(ix, objects, profile, done) && Fits(record, profile, record.key) && record.key !in done
    requires Selected(ix, record.key, IdentityAt(record)) == Some(Some(k))
    requires k < |ix.rows| && IdentityAt(ix.rows[k].record) == IdentityAt(record)
    ensures var row := Rewritten(ix.rows[k], record);
            Tracks(Rewrite(ix, k, record), objects[row.id := row.stored], profile, done + {record.key}) &&
            Sound(objects, objects[row.id := row.stored], profile)
    ensures Live(objects, ix.rows[k].id) && objects[ix.rows[k].id] == ix.rows[k].stored
  {
    hide Fits, RecordOk, IdentityOf, WithinProfile, Unique, DistinctKeys, IdentityIndexed, KeyIndexed, Selected;
    var row := Rewritten(ix.rows[k], record);
    assert Shows(ix.rows[k], objects, profile);
    hide Mirrors;
    RewriteTracks(ix, objects, profile, done, k, record);
    hide Tracks;
    TrackedIsUnique(Rewrite(ix, k, record), objects[row.id := row.stored], profile, done + {record.key});
  }

  lemma SoundAppend(ix: Index, objects: Objects, profile: string, done: set<Key>, row: Loaded)
    requires Tracks(ix, objects, profile, done) && row.id !in objects && row.record.key !in done
    requires row.stored.body == Holds(row.record) && !row.stored.archived && Fits(row.record, profile, row.record.key)
    requires Selected(ix, row.record.key, IdentityAt(row.record)) == Some(None)
    ensures Tracks(Append(ix, row), objects[row.id := row.stored], profile, done + {row.record.key})
    ensures Sound(objects, objects[row.id := row.stored], profile)
  {
    hide RecordOk, IdentityOf, WithinProfile, Unique, Tracks, Selected;
    assert Shows(row, objects[row.id := row.stored], profile);
    AppendTracks(ix, objects, profile, done, row);
    TrackedIsUnique(Append(ix, row), objects[row.id := row.stored], profile, done + {row.record.key});
  }

  lemma NoneHasIdentity(ix: Index, objects: Objects, profile: string, done: set<Key>, key: Key, identity: Identity)
    requires Tracks(ix, objects, profile, done) && key !in done && Selected(ix, key, identity) == Some(None)
    ensures NoIdentity(objects, profile, identity)
  {
    hide RecordOk, IdentityOf;
    NoneSelected(ix, done, key, identity);
    forall id | Belongs(objects, profile, id) ensures IdentityAt(RecordAt(objects, id)) != identity {
      RowOf(ix.rows, id);
      var k :| 0 <= k < |ix.rows| && ix.rows[k].id == id;
      assert Shows(ix.rows[k], objects, profile);
    }
  }

  /** Rewrites the selected row. */
  method OverRow(d: Destination, profile: string, ix: Index, k: nat, record: Record, ghost done: set<Key>)
    returns (r: Result<(), Error>, next: Index)
    requires Tracks(ix, d.objects, profile, done) && Fits(record, profile, record.key) && record.key !in done
    requires Selected(ix, record.key, IdentityAt(record)) == Some(Some(k))
    requires k < |ix.rows| && IdentityAt(ix.rows[k].record) == IdentityAt(record)
    modifies d
    ensures OnlyNow(old(d.past), d.past, d.objects)
    ensures d.objects == old(d.objects) || d.objects == old(d.objects)[ix.rows[k].id := Rewritten(ix.rows[k], record).stored]
    ensures Sound(old(d.objects), d.objects, profile)
    ensures r.Ok? ==> d.objects == old(d.objects)[ix.rows[k].id := Rewritten(ix.rows[k], record).stored]
    ensures r.Ok? ==> Tracks(next, d.objects, profile, done + {record.key}) && Grows(ix, next)
  {
    hide Tracks, Unique, WithinProfile, RecordOk, IdentityOf, Selected;
    next := ix;
    SoundRewrite(ix, d.objects, profile, done, k, record);
    TrackedIsUnique(ix, d.objects, profile, done);
    SameWithin(d.objects, profile);
    var row := Rewritten(ix.rows[k], record);
    var written := WriteOver(d, row.id, row.stored);
    if written.Err? { return Err(written.error), ix; }
    return Ok(()), Rewrite(ix, k, record);
  }

  lemma SameWithin(objects: Objects, profile: string)
    ensures WithinProfile(objects, objects, profile)
  {
    hide Belongs;
  }

  /** Writes a new row. */
  method NewRow(d: Destination, profile: string, ix: Index, record: Record, ghost done: set<Key>)
    returns (r: Result<string, Error>, next: Index)
    requires Tracks(ix, d.objects, profile, done) && Fits(record, profile, record.key) && record.key !in done
    requires Selected(ix, record.key, IdentityAt(record)) == Some(None)
    modifies d
    ensures OnlyNow(old(d.past), d.past, d.objects)
    ensures Sound(old(d.objects), d.objects, profile)
    ensures r.Ok? ==> r.value !in old(d.objects) && d.objects == old(d.objects)[r.value := NewObject(d.spaceId, record)]
    ensures r.Ok? ==> Tracks(next, d.objects, profile, done + {record.key}) && Grows(ix, next)
  {
    hide Tracks, Unique, WithinProfile, RecordOk, IdentityOf, Selected, NoIdentity;
    next := ix;
    NoneHasIdentity(ix, d.objects, profile, done, record.key, IdentityAt(record));
    TrackedIsUnique(ix, d.objects, profile, done);
    SameWithin(d.objects, profile);
    ghost var before := d.objects;
    var stored := NewObject(d.spaceId, record);
    var written;
    ghost var at;
    written, at := WriteNew(d, stored);
    if d.objects != before {
      SoundAppend(ix, before, profile, done, Loaded(at, stored, record));
    }
    if written.Err? { return Err(written.error), ix; }
    assert before[at := stored] != before;
    next := Append(ix, Loaded(written.value.0, written.value.1, record));
    SelectedNone(ix, record.key, IdentityAt(record));
    return Ok(written.value.0), next;
  }

  function NewObject(spaceId: string, record: Record): Stored {
    Stored(spaceId, [], Holds(record), false)
  }

  lemma WrittenSettles(objects: Objects, profile: string, key: Key, read: SourceRead, id: string, stored: Stored, reference: Reference)
    requires Settles(key, read, reference) && RecordOk(Record(profile, key, reference))
    requires !stored.archived && stored.body == Holds(Record(profile, key, reference))
    ensures SettledAs(objects[id := stored], profile, key, read, id)
  {
    hide RecordOk, Settles;
  }

  /** From one state to another, the answer of a source made the record of this outcome what it is. */
  predicate Reflects(before: Objects, after: Objects, profile: string, key: Key, read: SourceRead, o: Outcome) {
    Belongs(after, profile, o.objectId) && RecordAt(after, o.objectId) == Record(profile, key, o.reference) &&
    (o.created <==> o.objectId !in before) &&
    if o.objectId in before then
      Belongs(before, profile, o.objectId) &&
      after[o.objectId] == before[o.objectId].(body := after[o.objectId].body) &&
      Told(Some(RecordAt(before, o.objectId).reference), o.reference, read) &&
      Reported(Some(RecordAt(before, o.objectId).reference), o.reference, o.kind)
    else
      after[o.objectId].properties == [] && Told(None, o.reference, read) && Reported(None, o.reference, o.kind)
  }

  lemma RewriteReflects(ix: Index, before: Objects, profile: string, done: set<Key>, k: nat, record: Record, read: SourceRead,
                        kind: RefreshKind)
    requires Tracks(ix, before, profile, done) && k < |ix.rows| && Fits(record, profile, record.key)
    requires Told(Some(ix.rows[k].record.reference), record.reference, read)
    requires Reported(Some(ix.rows[k].record.reference), record.reference, kind)
    ensures var row := Rewritten(ix.rows[k], record);
            Reflects(before, before[row.id := row.stored], profile, record.key, read, Outcome(row.id, false, kind, record.reference))
  {
    hide RecordOk, IdentityOf, Told, Reported;
    assert Shows(ix.rows[k], before, profile);
  }

  lemma NewReflects(before: Objects, spaceId: string, record: Record, read: SourceRead, kind: RefreshKind, id: string)
    requires id !in before && RecordOk(record) && Told(None, record.reference, read) && Reported(None, record.reference, kind)
    ensures Reflects(before, before[id := NewObject(spaceId, record)], record.profile, record.key, read,
                     Outcome(id, true, kind, record.reference))
  {
    hide RecordOk, IdentityOf, Told, Reported;
  }

  /** The rows keep their objects, and the keys their rows. */
  predicate Grows(ix: Index, next: Index) {
    |ix.rows| <= |next.rows| && (forall k :: 0 <= k < |ix.rows| ==> next.rows[k].id == ix.rows[k].id) &&
    forall key :: key in ix.byKey ==> key in next.byKey && next.byKey[key] == ix.byKey[key]
  }

  /** The row of a known key is in this object. */
  predicate InRowOf(ix: Index, key: Key, id: string) {
    key in ix.byKey ==> ix.byKey[key] < |ix.rows| && ix.rows[ix.byKey[key]].id == id
  }

  lemma SelectedByKey(ix: Index, key: Key, identity: Identity, k: nat)
    requires InRows(ix) && Selected(ix, key, identity) == Some(Some(k)) && k < |ix.rows|
    ensures InRowOf(ix, key, ix.rows[k].id)
  {
  }

  /** Nothing outside one object changed. */
  predicate OnlyAt(before: Objects, after: Objects, id: string) {
    (forall other :: other in before && other != id ==> other in after && after[other] == before[other]) &&
    (forall other :: other in after && other != id ==> other in before)
  }

  /** One source: decides, writes, and keeps the indexes in step. */
  method One(d: Destination, profile: string, key: Key, read: SourceRead, ix: Index, ghost done: set<Key>)
    returns (r: Result<Outcome, Error>, next: Index)
    requires Tracks(ix, d.objects, profile, done) && key !in done
    modifies d
    ensures OnlyNow(old(d.past), d.past, d.objects) && Sound(old(d.objects), d.objects, profile)
    ensures r.Ok? ==> Tracks(next, d.objects, profile, done + {key})
    ensures r.Ok? ==> SettledAs(d.objects, profile, key, read, r.value.objectId)
    ensures r.Ok? ==> OnlyAt(old(d.objects), d.objects, r.value.objectId)
    ensures r.Ok? && r.value.created ==> r.value.objectId !in old(d.objects) && key !in ix.byKey
    ensures r.Ok? ==> Grows(ix, next) && InRowOf(ix, key, r.value.objectId)
    ensures r.Ok? ==> Reflects(old(d.objects), d.objects, profile, key, read, r.value)
    ensures forall id :: SettledAs(old(d.objects), profile, key, read, id) ==> d.objects == old(d.objects)
    ensures r.Ok? ==> forall id :: SettledAs(old(d.objects), profile, key, read, id) ==>
              r.value.objectId == id && !r.value.created && r.value.kind == Unchanged
  {
    hide Tracks, Sound, RecordOk, IdentityOf, Settles, SettledAs, Decide, Selected, OnlyNow, Told, Reported, Reflects, Grows;
    next := ix;
    ghost var before := d.objects;
    TrackedInRows(ix, before, profile, done);
    NothingWritten(d.past, ix, before, profile, done);
    SettledStays(ix, before, profile, done, key, read);
    var decided := Decide(ix, profile, key, read);
    if decided.Err? { return Err(decided.error), ix; }
    var (selected, merge) := decided.value;
    DecideFacts(ix, profile, key, read);
    DecidedSettles(ix, profile, key, read);
    DecidedTells(ix, profile, key, read);
    var record := Record(profile, key, merge.reference);
    if selected.Some? {
      RewriteReflects(ix, before, profile, done, selected.value, record, read, merge.kind);
      SelectedByKey(ix, key, IdentityAt(record), selected.value);
      var written;
      written, next := OverRow(d, profile, ix, selected.value, record, done);
      if written.Err? { return Err(written.error), ix; }
      var row := Rewritten(ix.rows[selected.value], record);
      WrittenSettles(before, profile, key, read, row.id, row.stored, merge.reference);
      return Ok(Outcome(row.id, false, merge.kind, merge.reference)), next;
    }
    SelectedNone(ix, key, IdentityAt(record));
    var created;
    created, next := NewRow(d, profile, ix, record, done);
    if created.Err? { return Err(created.error), ix; }
    WrittenSettles(before, profile, key, read, created.value, NewObject(d.spaceId, record), merge.reference);
    NewReflects(before, d.spaceId, record, read, merge.kind, created.value);
    return Ok(Outcome(created.value, true, merge.kind, merge.reference)), next;
  }

  lemma SelectedNone(ix: Index, key: Key, identity: Identity)
    requires Selected(ix, key, identity) == Some(None)
    ensures key !in ix.byKey
  {
  }

  lemma NothingWritten(past: set<Objects>, ix: Index, objects: Objects, profile: string, done: set<Key>)
    requires Tracks(ix, objects, profile, done)
    ensures OnlyNow(past, past, objects) && Sound(objects, objects, profile)
  {
    hide Tracks, Unique, WithinProfile;
    TrackedIsUnique(ix, objects, profile, done);
    SameWithin(objects, profile);
  }

  lemma RewrittenAsIs(row: Loaded, objects: Objects, profile: string)
    requires Shows(row, objects, profile)
    ensures row.record == Record(profile, row.record.key, row.record.reference)
    ensures objects[row.id := Rewritten(row, row.record).stored] == objects
  {
    hide RecordOk;
    assert Rewritten(row, row.record).stored == row.stored;
  }

  /** For a settled source the decision is to write back what is there. */
  lemma SettledStays(ix: Index, objects: Objects, profile: string, done: set<Key>, key: Key, read: SourceRead)
    requires InRows(ix) && Tracks(ix, objects, profile, done) && key !in done
    ensures forall id :: SettledAs(objects, profile, key, read, id) ==>
              Decide(ix, profile, key, read).Ok? &&
              var (selected, merge) := Decide(ix, profile, key, read).value;
              selected.Some? && selected.value < |ix.rows| && ix.rows[selected.value].id == id && merge.kind == Unchanged &&
              objects[id := Rewritten(ix.rows[selected.value], Record(profile, key, merge.reference)).stored] == objects
  {
    hide Tracks, RecordOk, IdentityOf, Settles, Decide;
    forall id | SettledAs(objects, profile, key, read, id)
      ensures Decide(ix, profile, key, read).Ok? &&
              var (selected, merge) := Decide(ix, profile, key, read).value;
              selected.Some? && selected.value < |ix.rows| && ix.rows[selected.value].id == id && merge.kind == Unchanged &&
              objects[id := Rewritten(ix.rows[selected.value], Record(profile, key, merge.reference)).stored] == objects
    {
      var k := SettledDecides(ix, objects, profile, done, key, read, id);
      RewrittenAsIs(ix.rows[k], objects, profile);
    }
  }

  // ----- the whole run ----------------------------------------------------

  /** A source scope of the run. */
  datatype Scope = Scope(domainId: string, collection: CollectionKind, resourceId: Option<string>)

  predicate ScopeOk(s: Scope) {
    s.collection != CompositionKind &&
    (s.resourceId.Some? ==>
      !IsEmptyName(s.resourceId.value) && ByteLength(s.resourceId.value) <= 512 &&
      forall c :: c in s.resourceId.value ==> !IsControl(c))
  }

  lemma ScopeIsPlain(s: Scope)
    ensures ScopeOk(s) <==>
            (s.collection == Contacts || s.collection == Tasks) && (s.resourceId.Some? ==> Plain(s.resourceId.value, 512))
  {
    if s.resourceId.Some? {
      EmptyNameIs(s.resourceId.value);
    }
  }

  predicate NoRepeats(scopes: seq<Scope>) {
    forall j, k :: 0 <= j < k < |scopes| ==> scopes[j] != scopes[k]
  }

  /** The checks of `authorize_composition` on the scopes themselves. */
  method CheckScopes(scopes: seq<Scope>) returns (r: Result<(), Error>)
    ensures r.Ok? <==>
            scopes != [] && NoRepeats(scopes) &&
            forall k :: 0 <= k < |scopes| ==>
              (scopes[k].collection == Contacts || scopes[k].collection == Tasks) &&
              (scopes[k].resourceId.Some? ==> Plain(scopes[k].resourceId.value, 512))
  {
    if scopes == [] { return Err(EmptySources); }
    forall k | 0 <= k < |scopes|
      ensures ScopeOk(scopes[k]) <==>
              (scopes[k].collection == Contacts || scopes[k].collection == Tasks) &&
              (scopes[k].resourceId.Some? ==> Plain(scopes[k].resourceId.value, 512))
    {
      ScopeIsPlain(scopes[k]);
    }
    hide ScopeOk, Plain;
    var seen: set<Scope> := {};
    for n := 0 to |scopes|
      invariant forall k :: 0 <= k < n ==> ScopeOk(scopes[k]) && scopes[k] in seen
      invariant forall s :: s in seen ==> exists k :: 0 <= k < n && scopes[k] == s
      invariant forall j, k :: 0 <= j < k < n ==> scopes[j] != scopes[k]
    {
      if !ScopeOk(scopes[n]) {
        return Err(if scopes[n].collection == CompositionKind then SourceCollectionUnsupported else InvalidResourceId);
      }
      if scopes[n] in seen { return Err(DuplicateSourceScope); }
      seen := seen + {scopes[n]};
    }
    return Ok(());
  }

  function KeyOf(s: Scope): Key
    requires s.resourceId.Some?
  {
    Key(s.domainId, s.collection, s.resourceId.value)
  }

  /** Every source has a live record of the profile that already says what its answer makes it say. */
  ghost predicate AllSettled(objects: Objects, profile: string, scopes: seq<Scope>, answers: seq<SourceRead>)
    requires |scopes| == |answers|
  {
    forall k :: 0 <= k < |scopes| ==> Settled(objects, profile, scopes[k], answers[k])
  }

  ghost predicate Settled(objects: Objects, profile: string, scope: Scope, read: SourceRead) {
    scope.resourceId.Some? && exists id :: SettledAs(objects, profile, KeyOf(scope), read, id)
  }

  /** The source of this outcome is settled in the outcome's object. */
  predicate Achieved(objects: Objects, profile: string, scope: Scope, read: SourceRead, outcome: Outcome) {
    scope.resourceId.Some? && SettledAs(objects, profile, KeyOf(scope), read, outcome.objectId)
  }

  lemma AchievedStays(before: Objects, after: Objects, profile: string, scope: Scope, read: SourceRead, outcome: Outcome, id: string)
    requires Achieved(before, profile, scope, read, outcome) && OnlyAt(before, after, id) && outcome.objectId != id
    ensures Achieved(after, profile, scope, read, outcome)
  {
    hide RecordOk, Settles;
  }

  /** Results so far: settled, each in its own object. */
  predicate Done(objects: Objects, profile: string, scopes: seq<Scope>, answers: seq<SourceRead>, results: seq<Outcome>,
                 touched: set<string>)
    requires |scopes| == |answers| >= |results|
  {
    forall k :: 0 <= k < |results| ==>
      results[k].objectId in touched && Achieved(objects, profile, scopes[k], answers[k], results[k])
  }

  lemma DoneMore(before: Objects, after: Objects, profile: string, scopes: seq<Scope>, answers: seq<SourceRead>,
                 results: seq<Outcome>, touched: set<string>, outcome: Outcome)
    requires |scopes| == |answers| > |results| && Done(before, profile, scopes, answers, results, touched)
    requires OnlyAt(before, after, outcome.objectId) && outcome.objectId !in touched
    requires Achieved(after, profile, scopes[|results|], answers[|results|], outcome)
    ensures Done(after, profile, scopes, answers, results + [outcome], touched + {outcome.objectId})
  {
    hide Achieved, OnlyAt;
    var more := results + [outcome];
    forall k | 0 <= k < |more|
      ensures more[k].objectId in touched + {outcome.objectId} && Achieved(after, profile, scopes[k], answers[k], more[k])
    {
      if k < |results| {
        AchievedStays(before, after, profile, scopes[k], answers[k], results[k], outcome.objectId);
      }
    }
  }

  lemma WithinTransitive(a: Objects, b: Objects, c: Objects, profile: string)
    requires WithinProfile(a, b, profile) && WithinProfile(b, c, profile)
    ensures WithinProfile(a, c, profile)
  {
    hide RecordOk, Live;
    forall id | id in c && !(id in a && c[id] == a[id]) ensures Belongs(c, profile, id) {
      if id in b && c[id] == b[id] {
        assert Belongs(b, profile, id);
        SameObjectBelongs(b, c, profile, id);
      }
    }
  }

  lemma SameObjectBelongs(b: Objects, c: Objects, profile: string, id: string)
    requires Belongs(b, profile, id) && id in c && c[id] == b[id]
    ensures Belongs(c, profile, id)
  {
    hide RecordOk;
  }

  /** No live record of the profile is for this source. */
  ghost predicate NoneFor(objects: Objects, profile: string, scope: Scope) {
    scope.resourceId.Some? && forall id :: Belongs(objects, profile, id) ==> RecordAt(objects, id).key != KeyOf(scope)
  }

  /** Every key of the profile leads to its object. */
  ghost predicate KeysLead(objects: Objects, profile: string, ix: Index) {
    forall id :: Belongs(objects, profile, id) ==>
      RecordAt(objects, id).key in ix.byKey && InRowOf(ix, RecordAt(objects, id).key, id)
  }

  lemma KeysIndexed(ix: Index, objects: Objects, profile: string)
    requires Tracks(ix, objects, profile, {})
    ensures KeysLead(objects, profile, ix)
  {
    hide RecordOk;
    forall id | Belongs(objects, profile, id)
      ensures RecordAt(objects, id).key in ix.byKey && InRowOf(ix, RecordAt(objects, id).key, id)
    {
      RowOf(ix.rows, id);
      var k :| 0 <= k < |ix.rows| && ix.rows[k].id == id;
      assert Shows(ix.rows[k], objects, profile);
    }
  }

  lemma KeysStillLead(objects: Objects, profile: string, ix: Index, next: Index)
    requires KeysLead(objects, profile, ix) && Grows(ix, next)
    ensures KeysLead(objects, profile, next)
  {
    hide RecordOk;
  }

  lemma UnknownKey(objects: Objects, profile: string, ix: Index, scope: Scope)
    requires KeysLead(objects, profile, ix) && scope.resourceId.Some? && KeyOf(scope) !in ix.byKey
    ensures NoneFor(objects, profile, scope)
  {
    hide RecordOk;
  }

  /** A record that had this key was in this object. */
  ghost predicate KeyStays(objects: Objects, profile: string, key: Key, id: string) {
    forall other :: Belongs(objects, profile, other) && RecordAt(objects, other).key == key ==> other == id
  }

  lemma KeyIsThere(objects: Objects, profile: string, ix: Index, key: Key, id: string)
    requires KeysLead(objects, profile, ix) && InRowOf(ix, key, id)
    ensures KeyStays(objects, profile, key, id)
  {
    hide RecordOk;
  }

  // ----- what the answers made of the records -----------------------------

  function ObjectsOf(results: seq<Outcome>): set<string> {
    set k | 0 <= k < |results| :: results[k].objectId
  }

  predicate OwnObjects(results: seq<Outcome>) {
    forall j, k :: 0 <= j < k < |results| ==> results[j].objectId != results[k].objectId
  }

  lemma OwnObjectsMore(results: seq<Outcome>, o: Outcome)
    requires OwnObjects(results) && o.objectId !in ObjectsOf(results)
    ensures OwnObjects(results + [o]) && ObjectsOf(results + [o]) == ObjectsOf(results) + {o.objectId}
    ensures forall k :: 0 <= k < |results| ==> results[k].objectId != o.objectId
  {
    var more := results + [o];
    assert forall k :: 0 <= k < |results| ==> more[k] == results[k] && results[k].objectId in ObjectsOf(results);
    assert more[|results|].objectId == o.objectId;
    assert forall id :: id in ObjectsOf(results) ==> exists k :: 0 <= k < |results| && more[k].objectId == id;
  }

  lemma SameOutsideMore(start: Objects, before: Objects, now: Objects, touched: set<string>, id: string)
    requires SameOutside(start, before, touched) && OnlyAt(before, now, id)
    ensures SameOutside(start, now, touched + {id})
  {
  }

  /** Nothing outside these objects changed. */
  predicate SameOutside(before: Objects, after: Objects, touched: set<string>) {
    (forall id :: id in before && id !in touched ==> id in after && after[id] == before[id]) &&
    (forall id :: id in after && id !in touched ==> id in before)
  }

  /** The record of this outcome is what its source's answer made of the object that had the key. */
  ghost predicate Answered(start: Objects, now: Objects, profile: string, scope: Scope, read: SourceRead, o: Outcome) {
    scope.resourceId.Some? && Reflects(start, now, profile, KeyOf(scope), read, o) &&
    KeyStays(start, profile, KeyOf(scope), o.objectId)
  }

  /** The outcomes so far, each in an object of its own. */
  ghost predicate AllAnswered(start: Objects, now: Objects, profile: string, scopes: seq<Scope>, answers: seq<SourceRead>,
                              results: seq<Outcome>, touched: set<string>)
    requires |scopes| == |answers| >= |results|
  {
    SameOutside(start, now, touched) && touched == ObjectsOf(results) && OwnObjects(results) &&
    forall k :: 0 <= k < |results| ==> Answered(start, now, profile, scopes[k], answers[k], results[k])
  }

  lemma ReflectsSince(start: Objects, before: Objects, now: Objects, profile: string, key: Key, read: SourceRead, o: Outcome,
                      touched: set<string>)
    requires SameOutside(start, before, touched) && o.objectId !in touched && Reflects(before, now, profile, key, read, o)
    ensures Reflects(start, now, profile, key, read, o)
  {
    hide RecordOk, Told, Reported;
  }

  lemma ReflectsStill(start: Objects, before: Objects, now: Objects, profile: string, key: Key, read: SourceRead, o: Outcome, id: string)
    requires Reflects(start, before, profile, key, read, o) && OnlyAt(before, now, id) && id != o.objectId
    ensures Reflects(start, now, profile, key, read, o)
  {
    hide RecordOk, Told, Reported;
  }

  lemma AnsweredMore(start: Objects, before: Objects, now: Objects, profile: string, scopes: seq<Scope>, answers: seq<SourceRead>,
                     results: seq<Outcome>, touched: set<string>, o: Outcome)
    requires |scopes| == |answers| > |results| && AllAnswered(start, before, profile, scopes, answers, results, touched)
    requires o.objectId !in touched && scopes[|results|].resourceId.Some? && OnlyAt(before, now, o.objectId)
    requires Reflects(before, now, profile, KeyOf(scopes[|results|]), answers[|results|], o)
    requires KeyStays(start, profile, KeyOf(scopes[|results|]), o.objectId)
    ensures AllAnswered(start, now, profile, scopes, answers, results + [o], touched + {o.objectId})
  {
    hide Reflects, KeyStays, SameOutside, OnlyAt, OwnObjects, ObjectsOf;
    var more, n := results + [o], |results|;
    ReflectsSince(start, before, now, profile, KeyOf(scopes[n]), answers[n], o, touched);
    SameOutsideMore(start, before, now, touched, o.objectId);
    OwnObjectsMore(results, o);
    forall k | 0 <= k < |more| ensures Answered(start, now, profile, scopes[k], answers[k], more[k]) {
      if k < n {
        assert Answered(start, before, profile, scopes[k], answers[k], results[k]);
        ReflectsStill(start, before, now, profile, KeyOf(scopes[k]), answers[k], results[k], o.objectId);
      }
    }
  }

  /** The keys of the scopes before `n`. */
  predicate KeysBefore(done: set<Key>, scopes: seq<Scope>, n: nat) {
    n <= |scopes| && forall key :: key in done ==> exists j :: 0 <= j < n && scopes[j].resourceId.Some? && KeyOf(scopes[j]) == key
  }

  lemma KeyIsNew(done: set<Key>, scopes: seq<Scope>, n: nat)
    requires KeysBefore(done, scopes, n) && n < |scopes| && NoRepeats(scopes) && scopes[n].resourceId.Some?
    ensures KeyOf(scopes[n]) !in done && KeysBefore(done + {KeyOf(scopes[n])}, scopes, n + 1)
  {
    forall j | 0 <= j < n && scopes[j].resourceId.Some? ensures KeyOf(scopes[j]) != KeyOf(scopes[n]) {
      assert scopes[j] != scopes[n];
    }
  }

  /** The claims about created objects, and about a run that finds everything settled. */
  ghost predicate Reports(before: Objects, profile: string, scopes: seq<Scope>, results: seq<Outcome>, settled: bool) {
    |results| <= |scopes| && forall k :: 0 <= k < |results| ==>
      (results[k].created ==> NoneFor(before, profile, scopes[k])) &&
      (settled ==> !results[k].created && results[k].kind == Unchanged)
  }

  /** Every state written since is sound. */
  ghost predicate AllSound(start: Objects, past: set<Objects>, written: set<Objects>, profile: string) {
    forall s :: s in past && s !in written ==> Sound(start, s, profile)
  }

  /** Where a run stands after `n` sources: the indexes, the written states and the results. */
  ghost predicate Standing(start: Objects, objects: Objects, profile: string, scopes: seq<Scope>, answers: seq<SourceRead>,
                           n: nat, ix: Index, done: set<Key>, results: seq<Outcome>, touched: set<string>)
    requires |scopes| == |answers|
  {
    |results| == n <= |scopes| && Tracks(ix, objects, profile, done) && KeysBefore(done, scopes, n) &&
    KeysLead(start, profile, ix) && Sound(start, objects, profile) &&
    AllAnswered(start, objects, profile, scopes, answers, results, touched) && Done(objects, profile, scopes, answers, results, touched) &&
    Reports(start, profile, scopes, results, AllSettled(start, profile, scopes, answers)) &&
    (AllSettled(start, profile, scopes, answers) ==> objects == start)
  }

  lemma Starting(start: Objects, profile: string, scopes: seq<Scope>, answers: seq<SourceRead>, ix: Index)
    requires |scopes| == |answers| && Tracks(ix, start, profile, {})
    ensures Standing(start, start, profile, scopes, answers, 0, ix, {}, [], {})
  {
    hide Unique, Tracks, WithinProfile, KeysLead, Achieved, NoneFor;
    TrackedIsUnique(ix, start, profile, {});
    SameWithin(start, profile);
    KeysIndexed(ix, start, profile);
  }

  /** One more source: written, recorded, and told apart from the objects touched before. */
  method Advance(d: Destination, profile: string, scopes: seq<Scope>, answers: seq<SourceRead>, n: nat, ix: Index,
                 ghost done: set<Key>, results: seq<Outcome>, touched: set<string>, ghost start: Objects)
    returns (r: Result<Outcome, Error>, next: Index, ghost doneNow: set<Key>)
    requires |scopes| == |answers| && n < |scopes| && NoRepeats(scopes)
    requires Standing(start, d.objects, profile, scopes, answers, n, ix, done, results, touched)
    modifies d
    ensures OnlyNow(old(d.past), d.past, d.objects) && Sound(start, d.objects, profile)
    ensures AllSettled(start, profile, scopes, answers) ==> d.objects == start
    ensures r.Ok? ==> Standing(start, d.objects, profile, scopes, answers, n + 1, next, doneNow, results + [r.value],
                               touched + {r.value.objectId})
  {
    hide Tracks, KeysLead, KeyStays, InRowOf, Grows, AllAnswered, Reflects, Achieved, OnlyAt, SettledAs, ScopeOk, Done, Reports, KeysBefore, Sound, AllSettled, OnlyNow, NoRepeats;
    ghost var before, settled := d.objects, AllSettled(start, profile, scopes, answers);
    next, doneNow := ix, done;
    if scopes[n].resourceId.None? {
      Unwritten(d.past, before);
      return Err(SourceResourceRequired), next, done;
    }
    var key := KeyOf(scopes[n]);
    KeyIsNew(done, scopes, n);
    var outcome;
    outcome, next := One(d, profile, key, answers[n], ix, done);
    SoundAfter(start, before, d.objects, profile);
    OneSettled(start, profile, scopes, answers, n);
    if outcome.Err? { return Err(outcome.error), next, done; }
    if outcome.value.objectId in touched { return Err(DuplicateDestinationReference), next, done; }
    doneNow := done + {key};
    ReportsMore(start, profile, scopes, results, settled, ix, outcome.value);
    IsAchieved(d.objects, profile, scopes[n], answers[n], outcome.value);
    DoneMore(before, d.objects, profile, scopes, answers, results, touched, outcome.value);
    KeyIsThere(start, profile, ix, key, outcome.value.objectId);
    AnsweredMore(start, before, d.objects, profile, scopes, answers, results, touched, outcome.value);
    KeysStillLead(start, profile, ix, next);
    return Ok(outcome.value), next, doneNow;
  }

  lemma OneSettled(objects: Objects, profile: string, scopes: seq<Scope>, answers: seq<SourceRead>, n: nat)
    requires |scopes| == |answers| && n < |scopes|
    ensures AllSettled(objects, profile, scopes, answers) ==> Settled(objects, profile, scopes[n], answers[n])
  {
  }

  lemma IsAchieved(objects: Objects, profile: string, scope: Scope, read: SourceRead, outcome: Outcome)
    requires scope.resourceId.Some? && SettledAs(objects, profile, KeyOf(scope), read, outcome.objectId)
    ensures Achieved(objects, profile, scope, read, outcome)
  {
  }

  lemma Unwritten(past: set<Objects>, now: Objects)
    ensures OnlyNow(past, past, now)
  {
  }

  /** `materialize_references_with_type` behind its authorization: every state it writes holds at most
      one live record of the profile per source and per foreign identity, whatever fails; on success
      every source is settled, in an object of its own that reflects the source's answer and is the one
      that had its key, and no other object changed; and where every source is settled already, the
      space stays as it is. */
  method Materialize(d: Destination, profile: string, scopes: seq<Scope>, answers: seq<SourceRead>)
    returns (r: Result<seq<Outcome>, Error>)
    requires |scopes| == |answers|
    modifies d
    ensures AllSound(old(d.objects), d.past, old(d.past), profile)
    ensures d.objects == old(d.objects) || Sound(old(d.objects), d.objects, profile)
    ensures !Unique(old(d.objects), profile) ==> r.Err? && d.objects == old(d.objects) && d.past == old(d.past)
    ensures r.Ok? ==> |r.value| == |scopes| && AllSettled(d.objects, profile, scopes, answers)
    ensures r.Ok? ==> forall k :: 0 <= k < |scopes| ==> Achieved(d.objects, profile, scopes[k], answers[k], r.value[k])
    ensures r.Ok? ==> forall k :: 0 <= k < |scopes| ==> Answered(old(d.objects), d.objects, profile, scopes[k], answers[k], r.value[k])
    ensures r.Ok? ==> OwnObjects(r.value)
    ensures r.Ok? ==> SameOutside(old(d.objects), d.objects, ObjectsOf(r.value))
    ensures r.Ok? ==> Reports(old(d.objects), profile, scopes, r.value, AllSettled(old(d.objects), profile, scopes, answers))
    ensures AllSettled(old(d.objects), profile, scopes, answers) ==> d.objects == old(d.objects)
  {
    hide Unique, Tracks, Achieved, SettledAs, ScopeOk, Sound, NoRepeats, Standing, AllSettled, Reports, Answered, SameOutside;
    var checked := CheckScopes(scopes);
    if checked.Err? { return Err(checked.error); }
    var loaded := Load(d, profile);
    if loaded.Err? { return Err(loaded.error); }
    var ix := loaded.value;
    var results: seq<Outcome> := [];
    var touched: set<string> := {};
    ghost var start, written, done: set<Key> := d.objects, d.past, {};
    TrackedIsUnique(ix, start, profile, done);
    Starting(start, profile, scopes, answers, ix);
    for n := 0 to |scopes|
      invariant Standing(start, d.objects, profile, scopes, answers, n, ix, done, results, touched)
      invariant AllSound(start, d.past, written, profile)
    {
      ghost var past := d.past;
      var outcome;
      ghost var more;
      outcome, ix, more := Advance(d, profile, scopes, answers, n, ix, done, results, touched, start);
      SoundMore(start, d.objects, profile, past, d.past, written);
      if outcome.Err? { return Err(outcome.error); }
      done, touched, results := more, touched + {outcome.value.objectId}, results + [outcome.value];
    }
    Finished(start, d.objects, profile, scopes, answers, ix, done, results, touched);
    return Ok(results);
  }

  /** A second run over the same answers creates nothing and changes nothing, even if it fails. */
  method RunTwice(d: Destination, profile: string, scopes: seq<Scope>, answers: seq<SourceRead>)
    returns (first: Result<seq<Outcome>, Error>, second: Result<seq<Outcome>, Error>, ghost between: Objects)
    requires |scopes| == |answers|
    modifies d
    ensures first.Ok? ==> d.objects == between && AllSettled(between, profile, scopes, answers)
    ensures first.Ok? && second.Ok? ==> |second.value| == |scopes|
    ensures first.Ok? && second.Ok? ==>
              forall k :: 0 <= k < |scopes| ==> !second.value[k].created && second.value[k].kind == Unchanged
  {
    hide AllSettled, AllSound, Sound, Unique, Achieved, NoneFor;
    first := Materialize(d, profile, scopes, answers);
    between := d.objects;
    second := Materialize(d, profile, scopes, answers);
  }

  lemma SoundMore(start: Objects, now: Objects, profile: string, past: set<Objects>, pastNow: set<Objects>, written: set<Objects>)
    requires Sound(start, now, profile) && OnlyNow(past, pastNow, now) && AllSound(start, past, written, profile)
    ensures AllSound(start, pastNow, written, profile)
  {
    hide Sound;
  }

  lemma Finished(start: Objects, objects: Objects, profile: string, scopes: seq<Scope>, answers: seq<SourceRead>,
                 ix: Index, done: set<Key>, results: seq<Outcome>, touched: set<string>)
    requires |scopes| == |answers| && Standing(start, objects, profile, scopes, answers, |scopes|, ix, done, results, touched)
    ensures |results| == |scopes| && AllSettled(objects, profile, scopes, answers) && Sound(start, objects, profile)
    ensures forall k :: 0 <= k < |scopes| ==> Achieved(objects, profile, scopes[k], answers[k], results[k])
    ensures Reports(start, profile, scopes, results, AllSettled(start, profile, scopes, answers))
    ensures AllSettled(start, profile, scopes, answers) ==> objects == start
    ensures AllAnswered(start, objects, profile, scopes, answers, results, touched)
  {
    hide Tracks, SettledAs, Sound, Reports, KeysLead, KeysBefore, AllAnswered;
    forall k | 0 <= k < |scopes| ensures Achieved(objects, profile, scopes[k], answers[k], results[k]) {
    }
  }

  lemma ReportsMore(start: Objects, profile: string, scopes: seq<Scope>, results: seq<Outcome>, settled: bool,
                    ix: Index, outcome: Outcome)
    requires Reports(start, profile, scopes, results, settled) && |results| < |scopes| && scopes[|results|].resourceId.Some?
    requires KeysLead(start, profile, ix) && (outcome.created ==> KeyOf(scopes[|results|]) !in ix.byKey)
    requires settled ==> !outcome.created && outcome.kind == Unchanged
    ensures Reports(start, profile, scopes, results + [outcome], settled)
  {
    hide NoneFor, KeysLead;
    if outcome.created {
      UnknownKey(start, profile, ix, scopes[|results|]);
    }
  }

  lemma SoundAfter(start: Objects, before: Objects, now: Objects, profile: string)
    requires Sound(start, before, profile) && Sound(before, now, profile)
    ensures Sound(start, now, profile)
  {
    hide Unique, WithinProfile;
    WithinTransitive(start, before, now, profile);
  }
}
