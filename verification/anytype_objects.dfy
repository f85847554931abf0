/** Remote objects, the envelopes in their bodies, and the cache that a listing of them builds. */
module AnytypeObjects {
  import opened Wrappers
  import opened Text
  import opened ContentLines
  import opened Envelope
  import opened Repository

  /** A markdown body: empty, the JSON text of an envelope, JSON that only resembles one, or something else.
      JSON is taken as lossless, so an encoded envelope is the envelope. */
  datatype Body = NoBody | Encoded(envelope: Envelope) | Broken | Other(text: string)

  datatype ObjectRecord = ObjectRecord(id: string, spaceId: string, properties: seq<(string, string)>, body: Body,
                                       archived: bool, revision: U64)

  /** One page of a listing, and the cursor of the next. */
  datatype Page = Page(data: seq<ObjectRecord>, next: Option<string>)

  datatype Kind = Creating | Updating | Archiving | Deleting

  datatype TransportError =
    | NotFound | Conflict | Auth | Forbidden | RateLimited | TimedOut | MalformedAnswer | DelayedVisibility
    | InvalidRequest | Unavailable | OtherFailure

  datatype AdapterError = Local(error: RepoError) | Remote(reason: TransportError) | MalformedRemote | InvalidBody

  predicate Served(kind: string) {
    kind == "Contact" || kind == "Task"
  }

  function CollectionName(kind: string): string {
    if kind == "Contact" then "Contacts" else "Tasks"
  }

  /** The body that is written for an envelope: its canonical text. */
  function CanonicalBody(e: Envelope): Body {
    Encoded(NormalEnvelope(e))
  }

  /** The object that is written for an envelope when no properties are projected. */
  function ObjectFor(e: Envelope, spaceId: string): ObjectRecord {
    ObjectRecord(e.objectId, spaceId, [], CanonicalBody(e), false, e.revision)
  }

  // ----- matching ---------------------------------------------------------

  /** Whether a read proves that an ambiguous update, archive or delete took effect. */
  predicate MutationMatches(expected: ObjectRecord, actual: ObjectRecord, kind: Kind) {
    expected.id == actual.id && expected.spaceId == actual.spaceId &&
    match kind
    case Creating => !actual.archived && actual.body == expected.body && actual.properties == expected.properties
    case Updating => !actual.archived && actual.body == expected.body && actual.properties == expected.properties
    case Archiving => actual.archived
    case Deleting => actual.archived
  }

  predicate IsMarker(property: (string, string)) {
    property.0 == "dav_uid" || property.0 == "dav_kind"
  }

  function FromJson(body: Body, digest: Digest): Option<Envelope> {
    if body.Encoded? && digest.valid(body.envelope) then Some(body.envelope) else None
  }

  /** Two bodies name the same DAV resource. */
  predicate CanonicalIdentityMatches(expected: Body, actual: Body, digest: Digest) {
    match (FromJson(expected, digest), FromJson(actual, digest))
    case (Some(a), Some(b)) =>
      a.collectionId == b.collectionId && a.resourceId == b.resourceId && a.kind == b.kind && a.davUid == b.davUid
    case _ => false
  }

  predicate CreateIdentityMatches(expected: ObjectRecord, actual: ObjectRecord, digest: Digest) {
    actual.spaceId == expected.spaceId && !actual.archived &&
    if exists p :: p in expected.properties && IsMarker(p) then
      forall p :: p in expected.properties && IsMarker(p) ==> p in actual.properties
    else
      (actual.body == expected.body && actual.properties == expected.properties) ||
      CanonicalIdentityMatches(expected.body, actual.body, digest)
  }

  predicate RemoteIdentityMatches(record: ObjectRecord, e: Envelope, digest: Digest) {
    (("dav_uid", e.davUid) in record.properties && ("dav_kind", e.kind) in record.properties) ||
    CanonicalIdentityMatches(CanonicalBody(e), record.body, digest)
  }

  /** The last value stored under a key. */
  function LastValue(properties: seq<(string, string)>, key: string): Option<string> {
    if properties == [] then None
    else
      var last := properties[|properties| - 1];
      if last.0 == key then Some(last.1) else LastValue(properties[..|properties| - 1], key)
  }

  /** Stored markers, if any, agree with the envelope. */
  predicate PropertiesAgree(record: ObjectRecord, e: Envelope) {
    LastValue(record.properties, "dav_uid") in {None, Some(e.davUid)} &&
    LastValue(record.properties, "dav_kind") in {None, Some(e.kind)}
  }

  // ----- building the cache -----------------------------------------------

  /** What an object contributes to the cache: nothing when it is no DAV resource of a served kind. */
  function StageObject(record: ObjectRecord, digest: Digest): Result<Option<Envelope>, AdapterError> {
    if record.body.NoBody? || record.body.Other? then Ok(None)
    else
      match FromJson(record.body, digest)
      case None => Err(InvalidBody)
      case Some(e) =>
        if !Served(e.kind) then Ok(None)
        else if record.revision != 0 && e.revision != record.revision then Err(MalformedRemote)
        else if IsEmptyName(record.id) then Err(MalformedRemote)
        else if e.objectId != record.id && !RemoteIdentityMatches(record, e, digest) then Err(MalformedRemote)
        else
          var owned := e.(objectId := record.id);
          if PropertiesAgree(record, owned) then Ok(Some(owned)) else Err(MalformedRemote)
  }

  function StageAll(objects: seq<ObjectRecord>, digest: Digest): Result<seq<Envelope>, AdapterError> {
    if objects == [] then Ok([])
    else
      var n := |objects| - 1;
      match StageAll(objects[..n], digest)
      case Err(e) => Err(e)
      case Ok(staged) =>
        match StageObject(objects[n], digest)
        case Err(e) => Err(e)
        case Ok(one) => Ok(if one.Some? then staged + [one.value] else staged)
  }

  /** Creates a collection unless it is there. */
  function EnsureCollection(r: Repo, c: Collection): Result<Repo, AdapterError> {
    var (next, reply) := AfterCreateCollection(r, c);
    if reply.Refused? && !reply.error.CollectionAlreadyExists? then Err(Local(reply.error)) else Ok(next)
  }

  function AddResource(r: Repo, e: Envelope): Result<Repo, AdapterError> {
    match EnsureCollection(r, Collection(e.collectionId, CollectionName(e.kind)))
    case Err(error) => Err(error)
    case Ok(ready) =>
      var (next, reply) := AfterCreate(ready, e, Unconditional);
      if reply.Refused? then Err(Local(reply.error)) else Ok(next)
  }

  function Rebuild(r: Repo, staged: seq<Envelope>): Result<Repo, AdapterError> {
    if staged == [] then Ok(r)
    else
      var n := |staged| - 1;
      match Rebuild(r, staged[..n])
      case Err(e) => Err(e)
      case Ok(next) => AddResource(next, staged[n])
  }

  function Configure(r: Repo, collections: seq<Collection>): Result<Repo, AdapterError> {
    if collections == [] then Ok(r)
    else
      var n := |collections| - 1;
      match Configure(r, collections[..n])
      case Err(e) => Err(e)
      case Ok(next) => EnsureCollection(next, collections[n])
  }

  /** The cache after a refresh that read these objects, with the collections configured before. */
  function Refreshed(digest: Digest, clock: U64, objects: seq<ObjectRecord>, configured: seq<Collection>): Result<Repo, AdapterError> {
    match StageAll(objects, digest)
    case Err(e) => Err(e)
    case Ok(staged) =>
      match Rebuild(Empty(digest, clock), staged)
      case Err(e) => Err(e)
      case Ok(rebuilt) => Configure(rebuilt, configured)
  }

  // ----- what a refreshed cache holds -------------------------------------

  function NameFor(kind: string): string {
    if kind == "Contact" then "Contacts" else "Tasks"
  }

  lemma EnsureKeeps(r: Repo, c: Collection)
    requires Valid(r) && EnsureCollection(r, c).Ok? && r.failures == []
    ensures var next := EnsureCollection(r, c).value;
            Valid(next) && next.resources == r.resources && next.collections.Keys == r.collections.Keys + {c.id} &&
            next.failures == [] && next.digest == r.digest && (c.id !in r.collections ==> next.collections[c.id] == c) &&
            forall k :: k in r.collections ==> next.collections[k] == r.collections[k]
  {
    CreateCollectionKeepsValid(r, c);
  }

  lemma AddHolds(r: Repo, e: Envelope)
    requires Valid(r) && r.failures == [] && AddResource(r, e).Ok?
    ensures var next := AddResource(r, e).value;
            Valid(next) && next.failures == [] && next.digest == r.digest &&
            e.resourceId !in r.resources &&
            next.resources.Keys == r.resources.Keys + {e.resourceId} &&
            next.resources[e.resourceId].envelope == e && next.resources[e.resourceId].etag == r.digest.tag(e) &&
            !next.resources[e.resourceId].archived &&
            (forall k :: k in r.resources ==> next.resources[k] == r.resources[k]) &&
            next.collections.Keys == r.collections.Keys + {e.collectionId} &&
            (e.collectionId !in r.collections ==>
               next.collections[e.collectionId] ==
               Collection(e.collectionId, NameFor(e.kind))) &&
            (forall k :: k in r.collections ==> next.collections[k] == r.collections[k])
  {
    hide Valid, EnsureCollection, IdentityInUse;
    var c := Collection(e.collectionId, CollectionName(e.kind));
    EnsureKeeps(r, c);
    CreateKeepsValid(EnsureCollection(r, c).value, e, Unconditional);
  }

  predicate StoredAs(r: Repo, e: Envelope) {
    e.resourceId in r.resources && r.resources[e.resourceId].envelope == e &&
    r.resources[e.resourceId].etag == r.digest.tag(e) && !r.resources[e.resourceId].archived
  }

  function ResourceIds(staged: seq<Envelope>): set<string> {
    if staged == [] then {} else ResourceIds(staged[..|staged| - 1]) + {staged[|staged| - 1].resourceId}
  }

  function CollectionIds(staged: seq<Envelope>): set<string> {
    if staged == [] then {} else CollectionIds(staged[..|staged| - 1]) + {staged[|staged| - 1].collectionId}
  }

  function ConfiguredIds(collections: seq<Collection>): set<string> {
    if collections == [] then {} else ConfiguredIds(collections[..|collections| - 1]) + {collections[|collections| - 1].id}
  }

  /** A rebuilt cache holds each staged envelope under its id and tag, and nothing else. */
  ghost predicate Holds(r: Repo, staged: seq<Envelope>) {
    Valid(r) && r.failures == [] && r.resources.Keys == ResourceIds(staged) &&
    forall i :: 0 <= i < |staged| ==> StoredAs(r, staged[i])
  }

  lemma {:induction false} RebuildHolds(digest: Digest, clock: U64, staged: seq<Envelope>)
    requires Rebuild(Empty(digest, clock), staged).Ok?
    ensures var r := Rebuild(Empty(digest, clock), staged).value;
            Holds(r, staged) && r.digest == digest && r.collections.Keys == CollectionIds(staged)
  {
    hide AddResource, Valid;
    if staged != [] {
      var n := |staged| - 1;
      RebuildHolds(digest, clock, staged[..n]);
      AddExtends(Rebuild(Empty(digest, clock), staged[..n]).value, staged[..n], staged[n]);
      assert staged == staged[..n] + [staged[n]];
    }
  }

  lemma AddExtends(before: Repo, front: seq<Envelope>, last: Envelope)
    requires Holds(before, front) && AddResource(before, last).Ok?
    ensures var r := AddResource(before, last).value;
            Holds(r, front + [last]) && r.digest == before.digest &&
            r.collections.Keys == before.collections.Keys + {last.collectionId}
  {
    hide AddResource, Valid;
    var staged, r := front + [last], AddResource(before, last).value;
    AddHolds(before, last);
    assert staged[..|staged| - 1] == front;
    forall i | 0 <= i < |staged| ensures StoredAs(r, staged[i]) {
      if i < |front| {
        assert StoredAs(before, front[i]);
      }
    }
  }

  lemma {:induction false} ConfigureKeeps(r: Repo, collections: seq<Collection>, staged: seq<Envelope>)
    requires Holds(r, staged)
    ensures Configure(r, collections).Ok?
    ensures var next := Configure(r, collections).value;
            Holds(next, staged) && next.digest == r.digest && next.resources == r.resources &&
            next.collections.Keys == r.collections.Keys + ConfiguredIds(collections)
  {
    hide EnsureCollection;
    if collections != [] {
      var n := |collections| - 1;
      var front, last := collections[..n], collections[n];
      ConfigureKeeps(r, front, staged);
      var before := Configure(r, front).value;
      EnsureSucceeds(before, last);
      EnsureKeeps(before, last);
      forall i | 0 <= i < |staged| ensures StoredAs(EnsureCollection(before, last).value, staged[i]) {
        assert StoredAs(before, staged[i]);
      }
    }
  }

  lemma EnsureSucceeds(r: Repo, c: Collection)
    requires r.failures == []
    ensures EnsureCollection(r, c).Ok?
  {
  }

  /** A successful refresh: the cache holds exactly the served envelopes of the space, and the
      collections are theirs and the configured ones. */
  lemma RefreshedHolds(digest: Digest, clock: U64, objects: seq<ObjectRecord>, configured: seq<Collection>)
    requires Refreshed(digest, clock, objects, configured).Ok?
    ensures StageAll(objects, digest).Ok?
    ensures var r, staged := Refreshed(digest, clock, objects, configured).value, StageAll(objects, digest).value;
            Holds(r, staged) && r.digest == digest &&
            r.collections.Keys == CollectionIds(staged) + ConfiguredIds(configured)
  {
    hide Configure, Rebuild;
    var staged := StageAll(objects, digest).value;
    RebuildHolds(digest, clock, staged);
    ConfigureKeeps(Rebuild(Empty(digest, clock), staged).value, configured, staged);
  }

  /** What is staged are the served objects' envelopes, under the objects' own ids. */
  lemma {:induction false} StagedObjects(objects: seq<ObjectRecord>, digest: Digest, e: Envelope)
    requires StageAll(objects, digest).Ok?
    ensures e in StageAll(objects, digest).value <==>
            exists i :: 0 <= i < |objects| && StageObject(objects[i], digest) == Ok(Some(e))
  {
    hide StageObject;
    if objects != [] {
      var n := |objects| - 1;
      var front := objects[..n];
      StagedObjects(front, digest, e);
      if e in StageAll(front, digest).value {
        var i :| 0 <= i < |front| && StageObject(front[i], digest) == Ok(Some(e));
        assert objects[i] == front[i];
      }
      if i :| 0 <= i < |objects| && StageObject(objects[i], digest) == Ok(Some(e)) {
        if i < n { assert front[i] == objects[i]; }
      }
    }
  }

  /** No text in the value has a carriage return. */
  predicate Clean(j: Json) {
    match j
    case Str(text) => '\r' !in text
    case Array(items) => CleanItems(items)
    case Object(fields) => CleanFields(fields)
    case _ => true
  }

  predicate CleanItems(items: Items) {
    match items
    case NoItems => true
    case Item(head, tail) => Clean(head) && CleanItems(tail)
  }

  predicate CleanFields(fields: Fields) {
    match fields
    case NoFields => true
    case Field(_, value, rest) => Clean(value) && CleanFields(rest)
  }

  /** Normalizing a value, however nested, takes every carriage return out of its texts, and leaves
      exactly the values alone that have none. */
  lemma {:induction false} NormalValueExactly(j: Json)
    ensures Clean(Normalize(j)) && (Normalize(j) == j <==> Clean(j))
  {
    match j
    case Str(text) =>
      NormalExactly(text);
      NormalizedLineEndsStay(text);
      NormalExactly(NormalizeLineEnds(text));
    case Array(items) => NormalItemsExactly(items);
    case Object(fields) => NormalFieldsExactly(fields);
    case _ =>
  }

  lemma {:induction false} NormalItemsExactly(items: Items)
    ensures CleanItems(NormalizeItems(items)) && (NormalizeItems(items) == items <==> CleanItems(items))
  {
    if items.Item? {
      NormalValueExactly(items.head);
      NormalItemsExactly(items.tail);
    }
  }

  lemma {:induction false} NormalFieldsExactly(fields: Fields)
    ensures CleanFields(NormalizeFields(fields)) && (NormalizeFields(fields) == fields <==> CleanFields(fields))
  {
    if fields.Field? {
      NormalValueExactly(fields.value);
      NormalFieldsExactly(fields.rest);
    }
  }

  // ----- exactly what an object contributes -------------------------------

  predicate IsLast(properties: seq<(string, string)>, k: nat, key: string) {
    k < |properties| && properties[k].0 == key && forall j :: k < j < |properties| ==> properties[j].0 != key
  }

  /** The last property with this key, if there is one, has this value. */
  predicate LastIs(properties: seq<(string, string)>, key: string, value: string) {
    forall k :: 0 <= k < |properties| && IsLast(properties, k, key) ==> properties[k].1 == value
  }

  lemma {:induction false} LastValueIs(properties: seq<(string, string)>, key: string, value: string)
    ensures LastValue(properties, key) in {None, Some(value)} <==> LastIs(properties, key, value)
  {
    if properties != [] {
      var n := |properties| - 1;
      var front := properties[..n];
      LastValueIs(front, key, value);
      if properties[n].0 == key {
        assert IsLast(properties, n, key);
      } else {
        assert forall k :: 0 <= k < n ==> front[k] == properties[k];
        if LastIs(front, key, value) {
          forall k | 0 <= k < |properties| && IsLast(properties, k, key) ensures properties[k].1 == value {
            assert IsLast(front, k, key);
          }
        }
        if LastIs(properties, key, value) {
          forall k | 0 <= k < n && IsLast(front, k, key) ensures front[k].1 == value {
            assert IsLast(properties, k, key);
          }
        }
      }
    }
  }

  /** The body is an envelope that its object may own: the object's own id, or its markers, or ids
      without a carriage return, vouch for it. */
  predicate Owned(record: ObjectRecord, e: Envelope, digest: Digest) {
    !IsBlankText(record.id) && (record.revision == 0 || record.revision == e.revision) &&
    (e.objectId == record.id ||
     (("dav_uid", e.davUid) in record.properties && ("dav_kind", e.kind) in record.properties) ||
     (digest.valid(NormalEnvelope(e)) &&
      '\r' !in e.collectionId && '\r' !in e.resourceId && '\r' !in e.kind && '\r' !in e.davUid)) &&
    LastIs(record.properties, "dav_uid", e.davUid) && LastIs(record.properties, "dav_kind", e.kind)
  }

  /** Exactly what an object contributes to the cache: its envelope under its own id, if it is a contact
      or a task and the object may own it; nothing, if it holds no envelope or one of another kind; and
      an error that stops the refresh otherwise. */
  lemma StagedExactly(record: ObjectRecord, digest: Digest)
    ensures var body := record.body;
            StageObject(record, digest) ==
            if body.NoBody? || body.Other? then Ok(None)
            else if !body.Encoded? || !digest.valid(body.envelope) then Err(InvalidBody)
            else if body.envelope.kind != "Contact" && body.envelope.kind != "Task" then Ok(None)
            else if Owned(record, body.envelope, digest) then Ok(Some(body.envelope.(objectId := record.id)))
            else Err(MalformedRemote)
  {
    hide LastIs, LastValue, IsEmptyName, IsBlankText, RemoteIdentityMatches, NormalizeLineEnds, NormalDocument;
    if record.body.Encoded? && digest.valid(record.body.envelope) {
      var e := record.body.envelope;
      BlankIsEmpty(record.id);
      LastValueIs(record.properties, "dav_uid", e.davUid);
      LastValueIs(record.properties, "dav_kind", e.kind);
      VouchedIs(record, digest);
    }
  }

  lemma VouchedIs(record: ObjectRecord, digest: Digest)
    requires record.body.Encoded? && digest.valid(record.body.envelope)
    ensures var e := record.body.envelope;
            RemoteIdentityMatches(record, e, digest) <==>
            (("dav_uid", e.davUid) in record.properties && ("dav_kind", e.kind) in record.properties) ||
            (digest.valid(NormalEnvelope(e)) &&
             '\r' !in e.collectionId && '\r' !in e.resourceId && '\r' !in e.kind && '\r' !in e.davUid)
  {
    hide NormalizeLineEnds, NormalDocument;
    var e := record.body.envelope;
    NormalExactly(e.collectionId);
    NormalExactly(e.resourceId);
    NormalExactly(e.kind);
    NormalExactly(e.davUid);
  }

  /** The first of these envelopes in the collection. */
  predicate IsFirst(staged: seq<Envelope>, i: nat, id: string) {
    i < |staged| && staged[i].collectionId == id && forall j :: 0 <= j < i ==> staged[j].collectionId != id
  }

  /** The first of these envelopes in a collection names it, by its kind. */
  ghost predicate NamedByFirst(collections: map<string, Collection>, staged: seq<Envelope>, id: string) {
    id in collections && exists i: nat :: IsFirst(staged, i, id) && collections[id] == Collection(id, NameFor(staged[i].kind))
  }

  lemma {:induction false} RebuildNames(digest: Digest, clock: U64, staged: seq<Envelope>, id: string)
    requires Rebuild(Empty(digest, clock), staged).Ok?
    ensures var r := Rebuild(Empty(digest, clock), staged).value;
            id in r.collections ==> NamedByFirst(r.collections, staged, id)
  {
    hide AddResource, Valid, StoredAs, NamedByFirst;
    if staged != [] {
      var n := |staged| - 1;
      RebuildNames(digest, clock, staged[..n], id);
      RebuildHolds(digest, clock, staged[..n]);
      var before := Rebuild(Empty(digest, clock), staged[..n]).value;
      HoldsIsValid(before, staged[..n]);
      AddHolds(before, staged[n]);
      AddNames(before.collections, AddResource(before, staged[n]).value.collections, staged[..n], staged[n], id);
      assert staged == staged[..n] + [staged[n]];
    }
  }

  lemma AddNames(before: map<string, Collection>, after: map<string, Collection>, front: seq<Envelope>, last: Envelope, id: string)
    requires before.Keys == CollectionIds(front) && after.Keys == before.Keys + {last.collectionId}
    requires forall k :: k in before ==> after[k] == before[k]
    requires last.collectionId !in before ==>
               after[last.collectionId] == Collection(last.collectionId, NameFor(last.kind))
    requires id in before ==> NamedByFirst(before, front, id)
    ensures id in after ==> NamedByFirst(after, front + [last], id)
  {
    hide CollectionIds, NameFor;
    CollectionIdsAre(front, id);
    FirstOf(front, last, id);
    if id in before {
      var i: nat :| IsFirst(front, i, id) && before[id] == Collection(id, NameFor(front[i].kind));
      assert IsFirst(front + [last], i, id) && (front + [last])[i] == front[i];
    } else if id in after {
      assert IsFirst(front + [last], |front|, id);
    }
  }

  lemma FirstOf(front: seq<Envelope>, last: Envelope, id: string)
    ensures forall i: nat :: IsFirst(front, i, id) ==> IsFirst(front + [last], i, id) && (front + [last])[i] == front[i]
    ensures (forall i :: 0 <= i < |front| ==> front[i].collectionId != id) && last.collectionId == id ==>
              IsFirst(front + [last], |front|, id) && (front + [last])[|front|] == last
  {
    var staged := front + [last];
    assert forall i :: 0 <= i < |front| ==> staged[i] == front[i];
  }

  lemma {:induction false} CollectionIdsAre(staged: seq<Envelope>, id: string)
    ensures id in CollectionIds(staged) <==> exists i :: 0 <= i < |staged| && staged[i].collectionId == id
  {
    if staged != [] {
      var n := |staged| - 1;
      CollectionIdsAre(staged[..n], id);
      if i :| 0 <= i < n && staged[i].collectionId == id {
        assert staged[..n][i] == staged[i];
      }
    }
  }

  lemma {:induction false} ConfigureKeepsNames(r: Repo, collections: seq<Collection>, staged: seq<Envelope>, id: string)
    requires Holds(r, staged) && id in r.collections && Configure(r, collections).Ok?
    ensures id in Configure(r, collections).value.collections
    ensures Configure(r, collections).value.collections[id] == r.collections[id]
  {
    hide EnsureCollection, Holds;
    if collections != [] {
      var n := |collections| - 1;
      ConfigureKeepsNames(r, collections[..n], staged, id);
      ConfigureKeeps(r, collections[..n], staged);
      HoldsIsValid(Configure(r, collections[..n]).value, staged);
      EnsureKeeps(Configure(r, collections[..n]).value, collections[n]);
    }
  }

  lemma HoldsIsValid(r: Repo, staged: seq<Envelope>)
    requires Holds(r, staged)
    ensures Valid(r) && r.failures == []
  {
  }

  /** In a refreshed cache a collection with resources has the name of its first resource's kind. */
  lemma RefreshedNames(digest: Digest, clock: U64, objects: seq<ObjectRecord>, configured: seq<Collection>, id: string)
    requires Refreshed(digest, clock, objects, configured).Ok? && id in CollectionIds(StageAll(objects, digest).value)
    ensures id in Refreshed(digest, clock, objects, configured).value.collections
    ensures NamedByFirst(Refreshed(digest, clock, objects, configured).value.collections, StageAll(objects, digest).value, id)
  {
    hide Configure, Rebuild, Holds, IsFirst;
    var staged := StageAll(objects, digest).value;
    RebuildHolds(digest, clock, staged);
    RebuildNames(digest, clock, staged, id);
    ConfigureKeepsNames(Rebuild(Empty(digest, clock), staged).value, configured, staged, id);
  }

  // ----- read your write --------------------------------------------------

  /** What a create or an update returns: the caller's envelope under the object's id, with its tag. */
  function Returned(e: Envelope, remoteId: string): Envelope {
    e.(objectId := remoteId)
  }

  lemma NormalTwice(e: Envelope)
    ensures NormalEnvelope(NormalEnvelope(e)) == NormalEnvelope(e)
  {
    NormalizedLineEndsStay(e.collectionId);
    NormalizedLineEndsStay(e.resourceId);
    NormalizedLineEndsStay(e.kind);
    NormalizedLineEndsStay(e.objectId);
    NormalizedLineEndsStay(e.davUid);
    NormalizeIdempotent(e.document.content);
    if e.document.opaqueCalendar.Some? {
      NormalizeIdempotent(e.document.opaqueCalendar.value);
    }
  }

  /** The stored body gives back an envelope with the returned tag, whatever id the server chose. */
  lemma StoredTagIsReturned(e: Envelope, remoteId: string)
    ensures TagOf(NormalEnvelope(e).(objectId := remoteId)) == TagOf(Returned(e, remoteId))
  {
    NormalTwice(e);
    TagsAgree(NormalEnvelope(e).(objectId := remoteId), Returned(e, remoteId));
  }

  lemma {:induction false} StagedEach(objects: seq<ObjectRecord>, digest: Digest, i: nat)
    requires i < |objects| && StageAll(objects, digest).Ok?
    ensures StageObject(objects[i], digest).Ok?
    decreases |objects|
  {
    hide StageObject;
    if i < |objects| - 1 {
      StagedEach(objects[..|objects| - 1], digest, i);
    }
  }

  /** Whatever served envelope a listed object holds, a refresh that succeeds shows under the object's id. */
  lemma HeldIsShown(clock: U64, objects: seq<ObjectRecord>, configured: seq<Collection>, i: nat, held: Envelope, digest: Digest)
    requires i < |objects| && objects[i].body == Encoded(held) && digest.valid(held) && Served(held.kind)
    requires Refreshed(digest, clock, objects, configured).Ok?
    ensures var r, owned := Refreshed(digest, clock, objects, configured).value, Returned(held, objects[i].id);
            r.digest == digest && StoredAs(r, owned)
  {
    hide Refreshed, StageAll;
    var owned := Returned(held, objects[i].id);
    RefreshedHolds(digest, clock, objects, configured);
    StagedEach(objects, digest, i);
    assert StageObject(objects[i], digest) == Ok(Some(owned));
    hide StageObject;
    StagedObjects(objects, digest, owned);
    var staged := StageAll(objects, digest).value;
    var k :| 0 <= k < |staged| && staged[k] == owned;
    assert StoredAs(Refreshed(digest, clock, objects, configured).value, staged[k]);
  }

  lemma {:induction false} ReplaceKeeps(s: string, from: string, to: string, c: char)
    requires |from| > 0 && c in s && c !in from
    ensures c in Replace(s, from, to)
    decreases |s|
  {
    if |s| >= |from| {
      if s[..|from|] == from {
        assert s == from + s[|from|..];
        ReplaceKeeps(s[|from|..], from, to, c);
      } else {
        assert s == [s[0]] + s[1..];
        if s[0] != c {
          ReplaceKeeps(s[1..], from, to, c);
        }
      }
    }
  }

  lemma {:induction false} NameIsEmptyWhenBlank(name: string, i: nat)
    requires i <= |name|
    ensures SolidFrom(name, i) == |name| <==> forall k :: i <= k < |name| ==> IsWhitespace(name[k])
    decreases |name| - i
  {
    if i < |name| && IsWhitespace(name[i]) {
      NameIsEmptyWhenBlank(name, i + 1);
    }
  }

  lemma NamedStaysNamed(name: string)
    requires !IsEmptyName(name)
    ensures !IsEmptyName(NormalizeLineEnds(name))
  {
    NameIsEmptyWhenBlank(name, 0);
    var k :| 0 <= k < |name| && !IsWhitespace(name[k]);
    var c, once := name[k], Replace(name, "\r\n", "\n");
    ReplaceKeeps(name, "\r\n", "\n", c);
    ReplaceKeeps(once, "\r", "\n", c);
    var normal := NormalizeLineEnds(name);
    NameIsEmptyWhenBlank(normal, 0);
    var i :| 0 <= i < |normal| && normal[i] == c;
  }

  lemma NormalIsValid(e: Envelope)
    requires ValidEnvelope(e)
    ensures ValidEnvelope(NormalEnvelope(e))
  {
    NamedStaysNamed(e.collectionId);
    NamedStaysNamed(e.resourceId);
    NamedStaysNamed(e.objectId);
    NamedStaysNamed(e.davUid);
  }

  lemma {:induction false} ReplaceLeaves(s: string, from: string, to: string, c: char, d: char)
    requires |from| > 0 && c in s && d in to
    ensures c in Replace(s, from, to) || d in Replace(s, from, to)
    decreases |s|
  {
    if |s| >= |from| && s[..|from|] != from {
      assert s == [s[0]] + s[1..];
      if s[0] != c {
        ReplaceLeaves(s[1..], from, to, c, d);
      }
    }
  }

  /** Normalizing leaves exactly the texts without carriage returns as they are. */
  lemma NormalExactly(s: string)
    ensures NormalizeLineEnds(s) == s <==> '\r' !in s
    ensures '\r' in s ==> '\n' in NormalizeLineEnds(s)
  {
    hide Replace;
    var once := Replace(s, "\r\n", "\n");
    ReplaceRemoves(once, '\r', "\n");
    if '\r' in s {
      ReplaceLeaves(s, "\r\n", "\n", '\r', '\n');
      if '\r' in once {
        ReplaceLeaves(once, "\r", "\n", '\r', '\n');
      } else {
        ReplaceKeeps(once, "\r", "\n", '\n');
      }
    } else {
      ReplaceSkips(s, "", "\r\n", "\n");
      ReplaceSkips(s, "", "\r", "\n");
      NothingToReplace("\r\n", "\n");
      NothingToReplace("\r", "\n");
      assert s + "" == s;
    }
  }

  lemma NothingToReplace(from: string, to: string)
    requires |from| > 0
    ensures Replace("", from, to) == ""
  {
  }

  lemma ServedExactly(kind: string)
    ensures Served(NormalizeLineEnds(kind)) <==> Served(kind)
    ensures Served(kind) ==> NormalizeLineEnds(kind) == kind
  {
    NormalExactly(kind);
    assert '\r' !in "Contact" && '\n' !in "Contact" && '\r' !in "Task" && '\n' !in "Task";
  }

  /** Read your write, with the program's own canonical text and digest: where the space lists an
      object that holds the written envelope, a refresh that succeeds shows the tag that the write
      returned, whatever id, revision or properties the server gave the object. This is so for
      contacts and tasks; an object of another kind adds nothing to the cache. */
  lemma ReadYourWrite(clock: U64, objects: seq<ObjectRecord>, configured: seq<Collection>, i: nat, e: Envelope)
    requires i < |objects| && objects[i].body == CanonicalBody(e) && ValidEnvelope(e)
    requires Refreshed(Canonical, clock, objects, configured).Ok?
    ensures var r, id := Refreshed(Canonical, clock, objects, configured).value, NormalizeLineEnds(e.resourceId);
            if Served(e.kind) then
              id in r.resources && r.resources[id].etag == TagOf(Returned(e, objects[i].id)) &&
              r.resources[id].envelope.objectId == objects[i].id
            else StageObject(objects[i], Canonical) == Ok(None)
  {
    hide Refreshed, TagOf, ValidEnvelope;
    NormalIsValid(e);
    ServedExactly(e.kind);
    StoredTagIsReturned(e, objects[i].id);
    if Served(e.kind) {
      HeldIsShown(clock, objects, configured, i, NormalEnvelope(e), Canonical);
    }
  }

  // ----- time apart -------------------------------------------------------

  predicate AlikeAt(a: Repo, b: Repo, k: string) {
    (k in a.resources <==> k in b.resources) &&
    (k in a.resources ==> a.resources[k].(modifiedAt := 0) == b.resources[k].(modifiedAt := 0))
  }

  /** Two caches that differ at most in their times. */
  ghost predicate Alike(a: Repo, b: Repo) {
    a.digest == b.digest && a.collections == b.collections && a.failures == b.failures && forall k :: AlikeAt(a, b, k)
  }

  ghost predicate SameButTimes(a: Result<Repo, AdapterError>, b: Result<Repo, AdapterError>) {
    match a
    case Ok(x) => b.Ok? && Alike(x, b.value)
    case Err(error) => b == Err(error)
  }

  lemma EnsureAlike(a: Repo, b: Repo, c: Collection)
    requires Alike(a, b)
    ensures SameButTimes(EnsureCollection(a, c), EnsureCollection(b, c))
  {
    hide AlikeAt;
    var x, y := AfterCreateCollection(a, c), AfterCreateCollection(b, c);
    assert x.1 == y.1;
    forall k ensures AlikeAt(x.0, y.0, k) {
      assert AlikeAt(a, b, k);
      SameResourcesAlike(a, b, x.0, y.0, k);
    }
  }

  lemma SameResourcesAlike(a: Repo, b: Repo, x: Repo, y: Repo, k: string)
    requires AlikeAt(a, b, k) && x.resources == a.resources && y.resources == b.resources
    ensures AlikeAt(x, y, k)
  {
  }

  lemma IdentityAlike(a: Repo, b: Repo, e: Envelope)
    requires Alike(a, b)
    ensures IdentityInUse(a.resources, e, None) <==> IdentityInUse(b.resources, e, None)
  {
    if IdentityInUse(a.resources, e, None) {
      var k :| k in a.resources && SharesIdentity(a.resources[k], e);
      assert AlikeAt(a, b, k);
    }
    if IdentityInUse(b.resources, e, None) {
      var k :| k in b.resources && SharesIdentity(b.resources[k], e);
      assert AlikeAt(a, b, k);
    }
  }

  lemma CreateAlike(a: Repo, b: Repo, e: Envelope)
    requires Alike(a, b)
    ensures var x, y := AfterCreate(a, e, Unconditional), AfterCreate(b, e, Unconditional);
            Alike(x.0, y.0) && x.1.Refused? == y.1.Refused? && (x.1.Refused? ==> x.1 == y.1)
  {
    hide IdentityInUse;
    IdentityAlike(a, b, e);
    assert AlikeAt(a, b, e.resourceId);
    var x, y := AfterCreate(a, e, Unconditional), AfterCreate(b, e, Unconditional);
    forall k ensures AlikeAt(x.0, y.0, k) {
      assert AlikeAt(a, b, k);
    }
  }

  lemma AddAlike(a: Repo, b: Repo, e: Envelope)
    requires Alike(a, b)
    ensures SameButTimes(AddResource(a, e), AddResource(b, e))
  {
    hide EnsureCollection, AfterCreate, Alike;
    var c := Collection(e.collectionId, CollectionName(e.kind));
    EnsureAlike(a, b, c);
    if EnsureCollection(a, c).Ok? {
      CreateAlike(EnsureCollection(a, c).value, EnsureCollection(b, c).value, e);
    }
  }

  lemma {:induction false} RebuildAlike(a: Repo, b: Repo, staged: seq<Envelope>)
    requires Alike(a, b)
    ensures SameButTimes(Rebuild(a, staged), Rebuild(b, staged))
  {
    hide AddResource, Alike;
    if staged != [] {
      var n := |staged| - 1;
      RebuildAlike(a, b, staged[..n]);
      if Rebuild(a, staged[..n]).Ok? {
        AddAlike(Rebuild(a, staged[..n]).value, Rebuild(b, staged[..n]).value, staged[n]);
      }
    }
  }

  lemma {:induction false} ConfigureAlike(a: Repo, b: Repo, collections: seq<Collection>)
    requires Alike(a, b)
    ensures SameButTimes(Configure(a, collections), Configure(b, collections))
  {
    hide EnsureCollection, Alike;
    if collections != [] {
      var n := |collections| - 1;
      ConfigureAlike(a, b, collections[..n]);
      if Configure(a, collections[..n]).Ok? {
        EnsureAlike(Configure(a, collections[..n]).value, Configure(b, collections[..n]).value, collections[n]);
      }
    }
  }

  /** What a refresh gives does not depend on when it runs, but for the times it notes. */
  lemma RefreshedAlike(digest: Digest, one: U64, other: U64, objects: seq<ObjectRecord>, configured: seq<Collection>)
    ensures SameButTimes(Refreshed(digest, one, objects, configured), Refreshed(digest, other, objects, configured))
  {
    hide Rebuild, Configure, StageAll;
    if StageAll(objects, digest).Ok? {
      var staged := StageAll(objects, digest).value;
      assert Alike(Empty(digest, one), Empty(digest, other));
      hide Alike;
      RebuildAlike(Empty(digest, one), Empty(digest, other), staged);
      if Rebuild(Empty(digest, one), staged).Ok? {
        ConfigureAlike(Rebuild(Empty(digest, one), staged).value, Rebuild(Empty(digest, other), staged).value, configured);
      }
    }
  }

  /** Nor on the collections that were configured, as to whether it succeeds. */
  lemma RefreshedAnyway(digest: Digest, one: U64, other: U64, objects: seq<ObjectRecord>, a: seq<Collection>, b: seq<Collection>)
    requires Refreshed(digest, one, objects, a).Ok?
    ensures Refreshed(digest, other, objects, b).Ok?
  {
    hide Rebuild, Configure, StageAll;
    RefreshedAlike(digest, one, other, objects, a);
    var staged := StageAll(objects, digest).value;
    RebuildHolds(digest, other, staged);
    ConfigureKeeps(Rebuild(Empty(digest, other), staged).value, b, staged);
  }
}
