/** Materialized references: what the source owns, what the destination's user owns, and how both change. */
module Composition {
  import opened Wrappers
  import opened Text
  import opened Envelope

  const PROFILE_VERSION: nat := 1
  const REFERENCE_VERSION: nat := 1

  type FieldMap = map<string, Json>

  datatype Foreign = Foreign(account: string, spaceId: string, objectId: string, kind: string, davUid: Option<string>)

  datatype Availability = Available | Archived | Deleted | Unavailable

  datatype Snapshot = Snapshot(foreign: Foreign, fields: FieldMap, availability: Availability)

  datatype Reference = Reference(version: nat, foreign: Foreign, sourceFields: FieldMap, userFields: FieldMap,
                                 availability: Availability)

  datatype RefreshKind =
    | Created | SourceRefreshed | SourceUnavailable | SourceArchived | SourceDeleted | Reauthorized | Unchanged

  datatype Merge = Merge(reference: Reference, kind: RefreshKind)

  datatype CompositionError =
    | UnsupportedVersion | InvalidField(name: string) | InvalidFingerprint | DuplicateSourceDomain
    | DestinationInSources | IdentityMismatch | FieldOwnershipConflict(key: string) | SourceDomainNotAllowed
    | DestinationNotPrivate

  // ----- validation -------------------------------------------------------

  predicate FingerprintOk(s: string) {
    ByteLength(s) == 64 && forall c :: c in s ==> IsHexDigit(c)
  }

  predicate OpaqueOk(s: string) {
    Trim(s) != "" && ByteLength(s) <= 512 && forall c :: c in s ==> !IsControl(c)
  }

  function ValidateForeign(f: Foreign): Result<(), CompositionError> {
    if !FingerprintOk(f.account) then Err(InvalidFingerprint)
    else if !OpaqueOk(f.spaceId) then Err(InvalidField("source_space_id"))
    else if !OpaqueOk(f.objectId) then Err(InvalidField("source_object_id"))
    else if f.davUid.Some? && !OpaqueOk(f.davUid.value) then Err(InvalidField("dav_uid"))
    else Ok(())
  }

  predicate FieldNameOk(key: string) {
    Trim(key) != "" && ByteLength(key) <= 128 && forall c :: c in key ==> !IsControl(c)
  }

  function ValidateFields(fields: FieldMap): Result<(), CompositionError> {
    if forall key :: key in fields ==> FieldNameOk(key) then Ok(()) else Err(InvalidField("fields"))
  }

  function ValidateSnapshot(s: Snapshot): Result<(), CompositionError> {
    match ValidateForeign(s.foreign)
    case Err(e) => Err(e)
    case Ok(_) => ValidateFields(s.fields)
  }

  /** Between 1 and `most` bytes, not all of them whitespace, and no control character. */
  predicate Plain(text: string, most: nat) {
    !IsBlankText(text) && ByteLength(text) <= most && forall c :: c in text ==> !IsControl(c)
  }

  /** Exactly which snapshots are well formed: the account is 64 hexadecimal digits, the identifiers are
      plain texts of at most 512 bytes, and the names of the fields of at most 128. */
  lemma SnapshotAccepted(s: Snapshot)
    ensures ValidateSnapshot(s).Ok? <==>
            |s.foreign.account| == 64 && (forall c :: c in s.foreign.account ==> IsHexDigit(c)) &&
            Plain(s.foreign.spaceId, 512) && Plain(s.foreign.objectId, 512) &&
            (s.foreign.davUid.Some? ==> Plain(s.foreign.davUid.value, 512)) &&
            forall key :: key in s.fields ==> Plain(key, 128)
  {
    hide Trim, ByteLength, IsBlankText, IsControl;
    HexIsBytes(s.foreign.account);
    TrimCuts(s.foreign.spaceId);
    TrimCuts(s.foreign.objectId);
    if s.foreign.davUid.Some? { TrimCuts(s.foreign.davUid.value); }
    FieldsAccepted(s.fields);
    hide Plain, ValidateFields;
    assert OpaqueOk(s.foreign.spaceId) <==> Plain(s.foreign.spaceId, 512) by { OpaqueIsPlain(s.foreign.spaceId); }
    assert OpaqueOk(s.foreign.objectId) <==> Plain(s.foreign.objectId, 512) by { OpaqueIsPlain(s.foreign.objectId); }
    if s.foreign.davUid.Some? { OpaqueIsPlain(s.foreign.davUid.value); }
  }

  lemma OpaqueIsPlain(text: string)
    ensures OpaqueOk(text) <==> Plain(text, 512)
  {
    TrimCuts(text);
  }

  lemma FieldsAccepted(fields: FieldMap)
    ensures ValidateFields(fields).Ok? <==> forall key :: key in fields ==> Plain(key, 128)
  {
    forall key ensures FieldNameOk(key) <==> Plain(key, 128) {
      TrimCuts(key);
    }
  }

  lemma HexIsBytes(text: string)
    ensures (forall c :: c in text ==> IsHexDigit(c)) ==> ByteLength(text) == |text|
  {
    if forall c :: c in text ==> IsHexDigit(c) {
      ByteLengthAscii(text);
    }
  }

  /** The first key, in order, that both sides claim. */
  function Conflict(sourceFields: FieldMap, userFields: FieldMap): Option<string> {
    var shared := sourceFields.Keys * userFields.Keys;
    if shared == {} then None else Some(Least(shared))
  }

  function ValidateReference(r: Reference): Result<(), CompositionError> {
    if r.version != REFERENCE_VERSION then Err(UnsupportedVersion)
    else
      match ValidateForeign(r.foreign)
      case Err(e) => Err(e)
      case Ok(_) =>
        match ValidateFields(r.sourceFields)
        case Err(e) => Err(e)
        case Ok(_) =>
          match ValidateFields(r.userFields)
          case Err(e) => Err(e)
          case Ok(_) =>
            match Conflict(r.sourceFields, r.userFields)
            case Some(key) => Err(FieldOwnershipConflict(key))
            case None => Ok(())
  }

  /** What makes two references to a foreign object the same; the digest over it is injective. */
  datatype Identity = Identity(account: string, spaceId: string, objectId: string)

  function IdentityOf(f: Foreign): Identity {
    Identity(Lower(f.account), f.spaceId, f.objectId)
  }

  /** Two references are to the same object when space and object are equal, and the account up to the
      case of its letters. */
  lemma SameIdentity(a: Foreign, b: Foreign)
    ensures IdentityOf(a) == IdentityOf(b) <==>
            a.spaceId == b.spaceId && a.objectId == b.objectId && |a.account| == |b.account| &&
            forall i :: 0 <= i < |a.account| ==> SameLetter(a.account[i], b.account[i])
  {
    LowerSame(a.account, b.account);
  }

  lemma LowerSame(a: string, b: string)
    ensures Lower(a) == Lower(b) <==> |a| == |b| && forall i :: 0 <= i < |a| ==> SameLetter(a[i], b[i])
  {
    var x, y := Lower(a), Lower(b);
    hide Lower;
    if |x| == |y| {
      forall i | 0 <= i < |x| ensures x[i] == y[i] <==> SameLetter(a[i], b[i]) {
        assert x[i] == LowerChar(a[i]) && y[i] == LowerChar(b[i]);
      }
    }
  }

  predicate SameLetter(c: char, d: char) {
    c == d || ('a' <= c <= 'z' && d as int == c as int - 32) || ('a' <= d <= 'z' && c as int == d as int - 32)
  }

  /** A conflict names the first key, in order, that both sides claim. */
  lemma ConflictIs(sourceFields: FieldMap, userFields: FieldMap)
    ensures match Conflict(sourceFields, userFields)
            case None => sourceFields.Keys !! userFields.Keys
            case Some(key) =>
              key in sourceFields && key in userFields &&
              forall other :: other in sourceFields && other in userFields && other != key ==> Less(key, other)
  {
    var shared := sourceFields.Keys * userFields.Keys;
    assert forall key :: key in sourceFields && key in userFields ==> key in shared;
  }

  // ----- merging a snapshot -----------------------------------------------

  /** The cached source fields after a snapshot. */
  function MergedFields(cached: FieldMap, s: Snapshot): FieldMap {
    match s.availability
    case Available => s.fields
    case Unavailable => if cached == map[] && s.fields != map[] then s.fields else cached
    case Archived => if s.fields != map[] then s.fields else cached
    case Deleted => if s.fields != map[] then s.fields else cached
  }

  function Merged(existing: Reference, s: Snapshot): Reference {
    existing.(foreign := s.foreign, availability := s.availability, sourceFields := MergedFields(existing.sourceFields, s))
  }

  function KindOf(existing: Reference, merged: Reference): RefreshKind {
    if merged == existing then Unchanged
    else
      match merged.availability
      case Available => if existing.availability != Available then Reauthorized else SourceRefreshed
      case Unavailable => SourceUnavailable
      case Archived => SourceArchived
      case Deleted => SourceDeleted
  }

  function NewReference(s: Snapshot): Reference {
    Reference(REFERENCE_VERSION, s.foreign, s.fields, map[], s.availability)
  }

  function Reconcile(existing: Option<Reference>, s: Snapshot): Result<Merge, CompositionError> {
    match ValidateSnapshot(s)
    case Err(e) => Err(e)
    case Ok(_) =>
      match existing
      case None =>
        (match ValidateReference(NewReference(s))
         case Err(e) => Err(e)
         case Ok(_) => Ok(Merge(NewReference(s), Created)))
      case Some(known) =>
        match ValidateReference(known)
        case Err(e) => Err(e)
        case Ok(_) =>
          if IdentityOf(known.foreign) != IdentityOf(s.foreign) then Err(IdentityMismatch)
          else
            match ValidateReference(Merged(known, s))
            case Err(e) => Err(e)
            case Ok(_) => Ok(Merge(Merged(known, s), KindOf(known, Merged(known, s))))
  }

  /** Assigns the merged fields one by one to a copy, as the program does. */
  method ReconcileSnapshot(existing: Option<Reference>, s: Snapshot) returns (r: Result<Merge, CompositionError>)
    ensures r == Reconcile(existing, s)
  {
    hide ValidateSnapshot, ValidateReference;
    var valid := ValidateSnapshot(s);
    if valid.Err? { return Err(valid.error); }
    if existing.None? {
      var created := NewReference(s);
      valid := ValidateReference(created);
      if valid.Err? { return Err(valid.error); }
      return Ok(Merge(created, Created));
    }
    var known := existing.value;
    valid := ValidateReference(known);
    if valid.Err? { return Err(valid.error); }
    if IdentityOf(known.foreign) != IdentityOf(s.foreign) { return Err(IdentityMismatch); }
    var merged := known;
    merged := merged.(foreign := s.foreign);
    merged := merged.(availability := s.availability);
    if s.availability == Available {
      merged := merged.(sourceFields := s.fields);
    } else if s.availability == Unavailable {
      if merged.sourceFields == map[] && s.fields != map[] {
        merged := merged.(sourceFields := s.fields);
      }
    } else if s.fields != map[] {
      merged := merged.(sourceFields := s.fields);
    }
    assert merged == Merged(known, s);
    valid := ValidateReference(merged);
    if valid.Err? { return Err(valid.error); }
    return Ok(Merge(merged, KindOf(known, merged)));
  }

  // ----- the destination's edits ------------------------------------------

  datatype Mutation = ReplaceUserFields(fields: FieldMap) | DeleteReference

  datatype MutationResult = Updated(reference: Reference) | DeletedReference(identity: Identity)

  function ApplyMutation(existing: Reference, mutation: Mutation): Result<MutationResult, CompositionError> {
    match ValidateReference(existing)
    case Err(e) => Err(e)
    case Ok(_) =>
      match mutation
      case DeleteReference => Ok(DeletedReference(IdentityOf(existing.foreign)))
      case ReplaceUserFields(fields) =>
        match ValidateFields(fields)
        case Err(e) => Err(e)
        case Ok(_) =>
          match Conflict(existing.sourceFields, fields)
          case Some(key) => Err(FieldOwnershipConflict(key))
          case None =>
            var updated := existing.(userFields := fields);
            match ValidateReference(updated)
            case Err(e) => Err(e)
            case Ok(_) => Ok(Updated(updated))
  }

  // ----- what every reference keeps ---------------------------------------

  predicate Valid(r: Reference) {
    ValidateReference(r).Ok?
  }

  lemma ValidIsDisjoint(r: Reference)
    requires Valid(r)
    ensures r.sourceFields.Keys !! r.userFields.Keys
  {
    hide ValidateForeign, ValidateFields;
    assert Conflict(r.sourceFields, r.userFields).None?;
    var shared := r.sourceFields.Keys * r.userFields.Keys;
    assert forall key :: key in r.sourceFields && key in r.userFields ==> key in shared;
  }

  datatype Ownership = SourceOwned | UserOwned

  function FieldOwnership(r: Reference, key: string): Option<Ownership> {
    if key in r.sourceFields then Some(SourceOwned) else if key in r.userFields then Some(UserOwned) else None
  }

  /** Every field of a valid reference has exactly one owner. */
  lemma OneOwner(r: Reference, key: string)
    requires Valid(r)
    ensures FieldOwnership(r, key) == Some(SourceOwned) <==> key in r.sourceFields && key !in r.userFields
    ensures FieldOwnership(r, key) == Some(UserOwned) <==> key in r.userFields && key !in r.sourceFields
  {
    ValidIsDisjoint(r);
  }

  /** A merge keeps the reference valid, its identity and the user's fields. */
  lemma MergeKeeps(r: Reference, s: Snapshot)
    requires Reconcile(Some(r), s).Ok?
    ensures var m := Reconcile(Some(r), s).value.reference;
            Valid(m) && IdentityOf(m.foreign) == IdentityOf(r.foreign) && m.userFields == r.userFields &&
            m.availability == s.availability && m.version == r.version
  {
  }

  /** What the kind of a refresh says about a reference. */
  predicate Reported(was: Option<Reference>, now: Reference, kind: RefreshKind) {
    (kind == Created <==> was.None?) &&
    (kind == Unchanged <==> was == Some(now)) &&
    (kind == SourceDeleted ==> now.availability == Deleted) &&
    (kind == SourceArchived ==> now.availability == Archived) &&
    (kind == SourceUnavailable ==> now.availability == Unavailable) &&
    (kind == SourceRefreshed ==> now.availability == Available && was.value.availability == Available) &&
    (kind == Reauthorized ==> now.availability == Available && was.value.availability != Available)
  }

  lemma KindIsReported(existing: Option<Reference>, s: Snapshot)
    requires Reconcile(existing, s).Ok?
    ensures Reported(existing, Reconcile(existing, s).value.reference, Reconcile(existing, s).value.kind)
  {
    hide ValidateReference, ValidateSnapshot, IdentityOf;
  }

  /** A first snapshot is accepted whenever it is well formed, and is recorded as it was seen. */
  lemma NewIsAsSeen(s: Snapshot)
    ensures Reconcile(None, s).Ok? <==> ValidateSnapshot(s).Ok?
    ensures Reconcile(None, s).Ok? ==>
              Reconcile(None, s).value == Merge(Reference(1, s.foreign, s.fields, map[], s.availability), Created)
  {
    hide ValidateForeign;
  }

  /** What an accepted snapshot caches: the fields of an available object as they are, also when it
      has none; those of an archived or deleted one if there are any; and those of an unavailable one
      only where nothing was cached. */
  lemma MergeReplaces(r: Reference, s: Snapshot)
    requires Reconcile(Some(r), s).Ok?
    ensures var m := Reconcile(Some(r), s).value.reference;
            m.foreign == s.foreign &&
            (s.availability == Available ==> m.sourceFields == s.fields) &&
            (s.availability in {Archived, Deleted} && s.fields != map[] ==> m.sourceFields == s.fields) &&
            (s.availability == Unavailable && r.sourceFields == map[] ==> m.sourceFields == s.fields)
  {
    hide ValidateReference, ValidateSnapshot, IdentityOf;
  }

  /** A snapshot of a source that is not available and shows nothing never erases what is cached. */
  lemma StaleKeepsCache(r: Reference, s: Snapshot)
    requires Reconcile(Some(r), s).Ok? && s.availability != Available && s.fields == map[]
    ensures Reconcile(Some(r), s).value.reference.sourceFields == r.sourceFields
  {
  }

  /** An unavailable source never replaces cached fields, not even by others. */
  lemma UnavailableKeepsCache(r: Reference, s: Snapshot)
    requires Reconcile(Some(r), s).Ok? && s.availability == Unavailable && r.sourceFields != map[]
    ensures Reconcile(Some(r), s).value.reference.sourceFields == r.sourceFields
  {
  }

  /** Applying a snapshot twice changes nothing more, and says so. */
  lemma ReapplyIsUnchanged(existing: Option<Reference>, s: Snapshot)
    requires Reconcile(existing, s).Ok?
    ensures var m := Reconcile(existing, s).value.reference;
            Reconcile(Some(m), s) == Ok(Merge(m, Unchanged))
  {
    var m := Reconcile(existing, s).value.reference;
    assert Merged(m, s) == m;
  }

  /** Exactly when a snapshot of a known, valid reference is refused: it names another object, or
      claims a field that the user owns. */
  lemma MergeRefusal(r: Reference, s: Snapshot)
    requires Valid(r) && ValidateSnapshot(s).Ok?
    ensures Reconcile(Some(r), s).Err? <==>
            IdentityOf(r.foreign) != IdentityOf(s.foreign) || MergedFields(r.sourceFields, s).Keys * r.userFields.Keys != {}
  {
    hide ValidateForeign;
    assert ValidateFields(MergedFields(r.sourceFields, s)).Ok?;
  }

  /** Exactly when an edit of a valid reference is accepted: the fields are well named and none of them
      is the source's. It replaces the user's fields and nothing else, and the result is valid again. */
  lemma EditAcceptance(r: Reference, fields: FieldMap)
    requires Valid(r)
    ensures var result := ApplyMutation(r, ReplaceUserFields(fields));
            (result.Ok? <==> (forall key :: key in fields ==> Plain(key, 128)) && r.sourceFields.Keys !! fields.Keys) &&
            (result.Ok? ==> result.value == Updated(r.(userFields := fields)) && Valid(r.(userFields := fields)))
    ensures ApplyMutation(r, DeleteReference) == Ok(DeletedReference(IdentityOf(r.foreign)))
  {
    hide ValidateForeign, Plain;
    FieldsAccepted(fields);
    hide ValidateFields;
    var shared := r.sourceFields.Keys * fields.Keys;
    assert forall key :: key in r.sourceFields.Keys && key in fields.Keys ==> key in shared;
  }

  // ----- runs -------------------------------------------------------------

  datatype Event = Seeing(snapshot: Snapshot) | Editing(fields: FieldMap)

  /** A refused event leaves the reference as it is. */
  function Step(r: Reference, e: Event): Reference {
    match e
    case Seeing(snapshot) =>
      (match Reconcile(Some(r), snapshot)
       case Ok(merge) => merge.reference
       case Err(_) => r)
    case Editing(fields) =>
      match ApplyMutation(r, ReplaceUserFields(fields))
      case Ok(Updated(updated)) => updated
      case _ => r
  }

  predicate Accepts(r: Reference, e: Event) {
    match e
    case Seeing(snapshot) => Reconcile(Some(r), snapshot).Ok?
    case Editing(fields) => ApplyMutation(r, ReplaceUserFields(fields)).Ok?
  }

  function Run(r: Reference, events: seq<Event>): Reference {
    if events == [] then r else Step(Run(r, events[..|events| - 1]), events[|events| - 1])
  }

  /** The fields of the last accepted edit, if there was one. */
  function LastEdit(r: Reference, events: seq<Event>): Option<FieldMap> {
    if events == [] then None
    else
      var before, last := events[..|events| - 1], events[|events| - 1];
      if last.Editing? && Accepts(Run(r, before), last) then Some(last.fields) else LastEdit(r, before)
  }

  lemma StepKeeps(r: Reference, e: Event)
    requires Valid(r)
    ensures Valid(Step(r, e)) && IdentityOf(Step(r, e).foreign) == IdentityOf(r.foreign)
    ensures Step(r, e).userFields == if e.Editing? && Accepts(r, e) then e.fields else r.userFields
  {
    if e.Seeing? && Accepts(r, e) {
      MergeKeeps(r, e.snapshot);
    }
  }

  /** Over every run of snapshots and edits, in any order and whatever is refused: the reference is
      valid, so that source and user fields never overlap; it stands for the same object; and the
      user's fields are those of the last accepted edit. */
  lemma {:induction false} RunKeeps(r: Reference, events: seq<Event>)
    requires Valid(r)
    ensures Valid(Run(r, events)) && IdentityOf(Run(r, events).foreign) == IdentityOf(r.foreign)
    ensures Run(r, events).sourceFields.Keys !! Run(r, events).userFields.Keys
    ensures Run(r, events).userFields ==
            if LastEdit(r, events).Some? then LastEdit(r, events).value else r.userFields
  {
    hide ValidateReference, Accepts, Step;
    if events != [] {
      var before := events[..|events| - 1];
      RunKeeps(r, before);
      StepKeeps(Run(r, before), events[|events| - 1]);
    }
    ValidIsDisjoint(Run(r, events));
  }

  /** A snapshot that may put other source fields in place of cached ones. */
  predicate Refreshes(e: Event) {
    e.Seeing? && (e.snapshot.availability == Available || (e.snapshot.availability != Unavailable && e.snapshot.fields != map[]))
  }

  /** A snapshot that shows an available object without any fields. */
  predicate ShowsNone(e: Event) {
    e.Seeing? && e.snapshot.availability == Available && e.snapshot.fields == map[]
  }

  lemma StepKeepsSource(r: Reference, e: Event)
    requires r.sourceFields != map[]
    ensures !Refreshes(e) ==> Step(r, e).sourceFields == r.sourceFields
    ensures !ShowsNone(e) ==> Step(r, e).sourceFields != map[]
  {
    if e.Seeing? && Accepts(r, e) && e.snapshot.availability != Available {
      if e.snapshot.availability == Unavailable {
        UnavailableKeepsCache(r, e.snapshot);
      } else if e.snapshot.fields == map[] {
        StaleKeepsCache(r, e.snapshot);
      }
    }
  }

  /** Over every run, refusals included: cached source fields stay as they are until a snapshot that
      may replace them, and they vanish only by one of an available object that has none. */
  lemma {:induction false} RunKeepsSource(r: Reference, events: seq<Event>)
    requires r.sourceFields != map[]
    ensures (forall e :: e in events ==> !Refreshes(e)) ==> Run(r, events).sourceFields == r.sourceFields
    ensures (forall e :: e in events ==> !ShowsNone(e)) ==> Run(r, events).sourceFields != map[]
  {
    hide Step, Accepts, Refreshes, ShowsNone;
    if events != [] {
      var before, last := events[..|events| - 1], events[|events| - 1];
      assert last in events && forall e :: e in before ==> e in events;
      RunKeepsSource(r, before);
      if Run(r, before).sourceFields != map[] {
        StepKeepsSource(Run(r, before), last);
      }
    }
  }

  /** The last accepted snapshot, if there was one. */
  function LastSeen(r: Reference, events: seq<Event>): Option<Snapshot> {
    if events == [] then None
    else
      var before, last := events[..|events| - 1], events[|events| - 1];
      if last.Seeing? && Accepts(Run(r, before), last) then Some(last.snapshot) else LastSeen(r, before)
  }

  /** The fields of the last accepted snapshot of an available object, or of another one that shows
      fields, where those of an unavailable object count only while nothing is cached. */
  function LastShown(r: Reference, events: seq<Event>): Option<FieldMap> {
    if events == [] then None
    else
      var before, last := events[..|events| - 1], events[|events| - 1];
      if last.Seeing? && Accepts(Run(r, before), last) &&
         (last.snapshot.availability == Available ||
          (last.snapshot.fields != map[] && (last.snapshot.availability != Unavailable || Run(r, before).sourceFields == map[])))
      then Some(last.snapshot.fields)
      else LastShown(r, before)
  }

  lemma StepShows(r: Reference, e: Event)
    ensures Accepts(r, e) && e.Seeing? ==>
              Step(r, e).foreign == e.snapshot.foreign && Step(r, e).availability == e.snapshot.availability
    ensures !(Accepts(r, e) && e.Seeing?) ==>
              Step(r, e).foreign == r.foreign && Step(r, e).availability == r.availability && Step(r, e).sourceFields == r.sourceFields
    ensures Accepts(r, e) && e.Seeing? ==>
              Step(r, e).sourceFields ==
              if e.snapshot.availability == Available ||
                 (e.snapshot.fields != map[] && (e.snapshot.availability != Unavailable || r.sourceFields == map[]))
              then e.snapshot.fields else r.sourceFields
  {
    hide ValidateReference, ValidateSnapshot, IdentityOf;
    if Accepts(r, e) && e.Seeing? {
      MergeReplaces(r, e.snapshot);
      if e.snapshot.availability == Unavailable && r.sourceFields != map[] {
        UnavailableKeepsCache(r, e.snapshot);
      } else if e.snapshot.availability != Available && e.snapshot.fields == map[] {
        StaleKeepsCache(r, e.snapshot);
      }
    }
  }

  /** Over every run the source's side is the last word of the source: its object and availability
      are those of the last accepted snapshot, and its fields those last shown. */
  lemma {:induction false} RunShows(r: Reference, events: seq<Event>)
    ensures var now, seen := Run(r, events), LastSeen(r, events);
            now.foreign == (if seen.Some? then seen.value.foreign else r.foreign) &&
            now.availability == (if seen.Some? then seen.value.availability else r.availability) &&
            now.sourceFields == if LastShown(r, events).Some? then LastShown(r, events).value else r.sourceFields
  {
    hide Step, Accepts;
    if events != [] {
      var before := events[..|events| - 1];
      RunShows(r, before);
      StepShows(Run(r, before), events[|events| - 1]);
    }
  }

  // ----- profiles ---------------------------------------------------------

  datatype Profile = Profile(version: nat, principalId: string, destinationId: string, sourceIds: seq<string>)

  predicate IdentifierOk(s: string) {
    s != "" && ByteLength(s) <= 128 && forall c :: c in s ==> IdentifierChar(c)
  }

  predicate IdentifierChar(c: char) {
    '0' <= c <= '9' || 'a' <= c <= 'z' || 'A' <= c <= 'Z' || c == '-' || c == '_' || c == '.'
  }

  /** Exactly which texts are identifiers: 1 to 128 letters, digits, hyphens, underscores and dots. */
  lemma IdentifierIs(s: string)
    ensures IdentifierOk(s) <==>
            1 <= |s| <= 128 &&
            forall c :: c in s ==> '0' <= c <= '9' || 'a' <= c <= 'z' || 'A' <= c <= 'Z' || c in "-_."
  {
    if forall c :: c in s ==> IdentifierChar(c) {
      ByteLengthAscii(s);
    }
  }

  /** Some configured source at or before `k` is faulty. */
  predicate SourceFault(p: Profile, k: nat)
    requires k < |p.sourceIds|
  {
    !IdentifierOk(p.sourceIds[k]) || p.sourceIds[k] == p.destinationId || p.sourceIds[k] in p.sourceIds[..k]
  }

  /** Accepted are exactly the profiles with valid names, at least one source, no source twice and
      none that is the destination. */
  method ValidateProfile(p: Profile) returns (r: Result<(), CompositionError>)
    ensures r.Ok? <==>
            p.version == PROFILE_VERSION && IdentifierOk(p.principalId) && IdentifierOk(p.destinationId) &&
            p.sourceIds != [] && (forall k :: 0 <= k < |p.sourceIds| ==> !SourceFault(p, k))
  {
    if p.version != PROFILE_VERSION { return Err(UnsupportedVersion); }
    if !IdentifierOk(p.principalId) { return Err(InvalidField("principal_id")); }
    if !IdentifierOk(p.destinationId) { return Err(InvalidField("destination_domain_id")); }
    if p.sourceIds == [] { return Err(InvalidField("source_domain_ids")); }
    var known: set<string> := {};
    for k := 0 to |p.sourceIds|
      invariant known == set id | id in p.sourceIds[..k]
      invariant forall j :: 0 <= j < k ==> !SourceFault(p, j)
    {
      var id := p.sourceIds[k];
      if !IdentifierOk(id) { assert SourceFault(p, k); return Err(InvalidField("source_domain_ids")); }
      if id == p.destinationId { assert SourceFault(p, k); return Err(DestinationInSources); }
      if id in known { assert SourceFault(p, k); return Err(DuplicateSourceDomain); }
      known := known + {id};
      assert p.sourceIds[..k + 1] == p.sourceIds[..k] + [id];
    }
    return Ok(());
  }
}
