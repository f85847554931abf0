/** The in-memory repository as a function from calls to states and replies. */
module Repository {
  import opened Wrappers
  import opened Text
  import opened Envelope

  datatype Collection = Collection(id: string, name: string)

  datatype Stored = Stored(envelope: Envelope, etag: ETag, archived: bool, modifiedAt: U64)

  datatype WriteCondition = Unconditional | IfMatch(etag: ETag) | IfNoneMatch

  datatype FailureMode = Timeout | MalformedState | ArchiveFailure | ReadAfterWriteDelay | DuplicateWrite

  datatype RepoError =
    | InvalidEnvelope
    | CollectionNotFound(id: string)
    | ResourceNotFound(id: string)
    | CollectionAlreadyExists(id: string)
    | ResourceAlreadyExists(id: string)
    | IdentityAlreadyExists
    | PreconditionFailed(expected: Option<ETag>, actual: Option<ETag>)
    | Failed(mode: FailureMode)

  /** How envelopes are checked and tagged; `Canonical` is the program's own way. */
  datatype Digest = Digest(valid: Envelope -> bool, tag: Envelope -> ETag)

  const Canonical: Digest := Digest(e => ValidEnvelope(e), e => TagOf(e))

  datatype Repo = Repo(digest: Digest, collections: map<string, Collection>, resources: map<string, Stored>,
                       failures: seq<FailureMode>, clock: U64)

  datatype Call =
    | ListCollections
    | GetCollection(id: string)
    | CreateCollection(collection: Collection)
    | DeleteCollection(id: string)
    | ListResources(collectionId: string, includeArchived: bool)
    | GetResource(id: string)
    | CreateResource(envelope: Envelope, condition: WriteCondition)
    | UpdateResource(envelope: Envelope, condition: WriteCondition)
    | ArchiveResource(id: string, condition: WriteCondition)
    | DeleteResource(id: string, condition: WriteCondition)
    | SetClock(seconds: U64)
    | InjectFailure(mode: FailureMode)

  datatype Reply =
    | Refused(error: RepoError)
    | Done
    | Wrote(stored: Stored)

  // ----- the pieces of a call ---------------------------------------------

  function Saturating(n: U64): U64 {
    if n < MAX_U64 then n + 1 else MAX_U64
  }

  /** The clock's time, or one second past `modified` when the clock is not ahead of it. */
  function After(modified: U64, clock: U64): (r: U64)
    ensures r >= clock && (modified < MAX_U64 ==> r > modified)
  {
    if clock > modified then clock else Saturating(modified)
  }

  /** A queued failure is used up by the first check that asks for it. */
  function FirstFailure(failures: seq<FailureMode>, wanted: set<FailureMode>): Option<FailureMode> {
    if failures != [] && failures[0] in wanted then Some(failures[0]) else None
  }

  const READ_FAILURES: set<FailureMode> := {Timeout, MalformedState, ReadAfterWriteDelay}
  const WRITE_FAILURES: set<FailureMode> := {Timeout, MalformedState}

  predicate Fails(r: Repo, wanted: set<FailureMode>) {
    FirstFailure(r.failures, wanted).Some?
  }

  function Consumed(r: Repo): Repo
    requires r.failures != []
  {
    r.(failures := r.failures[1..])
  }

  function Failing(r: Repo): (Repo, Reply)
    requires r.failures != []
  {
    (Consumed(r), Refused(Failed(r.failures[0])))
  }

  function CheckCondition(condition: WriteCondition, current: Option<Stored>): Option<RepoError> {
    var actual := if current.Some? then Some(current.value.etag) else None;
    match condition
    case Unconditional => None
    case IfNoneMatch => if current.None? then None else Some(PreconditionFailed(None, actual))
    case IfMatch(expected) =>
      if actual == Some(expected) then None else Some(PreconditionFailed(Some(expected), actual))
  }

  function Current(r: Repo, id: string): Option<Stored> {
    if id in r.resources then Some(r.resources[id]) else None
  }

  predicate SharesIdentity(stored: Stored, e: Envelope) {
    stored.envelope.objectId == e.objectId || stored.envelope.davUid == e.davUid
  }

  /** Another resource than the exempt one already has the object id or the DAV UID. */
  predicate IdentityInUse(resources: map<string, Stored>, e: Envelope, exempt: Option<string>) {
    exists k :: k in resources && exempt != Some(resources[k].envelope.resourceId) && SharesIdentity(resources[k], e)
  }

  function Rejection(r: Repo, e: Envelope): Option<RepoError> {
    if !r.digest.valid(e) then Some(InvalidEnvelope)
    else if e.collectionId !in r.collections then Some(CollectionNotFound(e.collectionId))
    else None
  }

  // ----- one call ---------------------------------------------------------

  function AfterCreateCollection(r: Repo, c: Collection): (Repo, Reply) {
    if Fails(r, WRITE_FAILURES) then Failing(r)
    else if Fails(r, {DuplicateWrite}) then (Consumed(r), Refused(CollectionAlreadyExists(c.id)))
    else if c.id in r.collections then (r, Refused(CollectionAlreadyExists(c.id)))
    else (r.(collections := r.collections[c.id := c]), Done)
  }

  function AfterDeleteCollection(r: Repo, id: string): (Repo, Reply) {
    if Fails(r, WRITE_FAILURES) then Failing(r)
    else if id !in r.collections then (r, Refused(CollectionNotFound(id)))
    else
      (r.(collections := r.collections - {id},
          resources := map k | k in r.resources && r.resources[k].envelope.collectionId != id :: r.resources[k]), Done)
  }

  function AfterCreate(r: Repo, e: Envelope, condition: WriteCondition): (Repo, Reply) {
    var current := Current(r, e.resourceId);
    if Fails(r, WRITE_FAILURES) then Failing(r)
    else if Rejection(r, e).Some? then (r, Refused(Rejection(r, e).value))
    else if CheckCondition(condition, current).Some? then (r, Refused(CheckCondition(condition, current).value))
    else if current.Some? then (r, Refused(ResourceAlreadyExists(e.resourceId)))
    else if Fails(r, {DuplicateWrite}) then (Consumed(r), Refused(ResourceAlreadyExists(e.resourceId)))
    else if IdentityInUse(r.resources, e, None) then (r, Refused(IdentityAlreadyExists))
    else
      var stored := Stored(e, r.digest.tag(e), false, r.clock);
      (r.(clock := After(r.clock, r.clock), resources := r.resources[e.resourceId := stored]), Wrote(stored))
  }

  function Updated(r: Repo, e: Envelope): Stored
    requires e.resourceId in r.resources
  {
    var current := r.resources[e.resourceId];
    var next := e.(revision := Saturating(current.envelope.revision));
    Stored(next, r.digest.tag(next), current.archived, After(current.modifiedAt, r.clock))
  }

  function AfterUpdate(r: Repo, e: Envelope, condition: WriteCondition): (Repo, Reply) {
    var current := Current(r, e.resourceId);
    if Fails(r, WRITE_FAILURES) then Failing(r)
    else if Rejection(r, e).Some? then (r, Refused(Rejection(r, e).value))
    else if current.None? then (r, Refused(ResourceNotFound(e.resourceId)))
    else if CheckCondition(condition, current).Some? then (r, Refused(CheckCondition(condition, current).value))
    else if IdentityInUse(r.resources, e, Some(e.resourceId)) then (r, Refused(IdentityAlreadyExists))
    else
      var stored := Updated(r, e);
      (r.(clock := stored.modifiedAt, resources := r.resources[e.resourceId := stored]), Wrote(stored))
  }

  function AfterArchive(r: Repo, id: string, condition: WriteCondition): (Repo, Reply) {
    var current := Current(r, id);
    if Fails(r, WRITE_FAILURES) then Failing(r)
    else if Fails(r, {ArchiveFailure}) then Failing(r)
    else if current.None? then (r, Refused(ResourceNotFound(id)))
    else if CheckCondition(condition, current).Some? then (r, Refused(CheckCondition(condition, current).value))
    else
      var stored := current.value.(archived := true, modifiedAt := After(current.value.modifiedAt, r.clock));
      (r.(clock := stored.modifiedAt, resources := r.resources[id := stored]), Wrote(stored))
  }

  function AfterDelete(r: Repo, id: string, condition: WriteCondition): (Repo, Reply) {
    var current := Current(r, id);
    if Fails(r, WRITE_FAILURES) then Failing(r)
    else if current.None? then (r, Refused(ResourceNotFound(id)))
    else if CheckCondition(condition, current).Some? then (r, Refused(CheckCondition(condition, current).value))
    else (r.(resources := r.resources - {id}), Wrote(current.value))
  }

  /** Reads change nothing but the queue of failures; listing a collection needs the collection. */
  function AfterRead(r: Repo, collectionId: Option<string>): (Repo, Reply) {
    if Fails(r, READ_FAILURES) then Failing(r)
    else if collectionId.Some? && collectionId.value !in r.collections then
      (r, Refused(CollectionNotFound(collectionId.value)))
    else (r, Done)
  }

  function Step(r: Repo, call: Call): (Repo, Reply) {
    match call
    case ListCollections => AfterRead(r, None)
    case GetCollection(id) => AfterRead(r, None)
    case ListResources(collectionId, _) => AfterRead(r, Some(collectionId))
    case GetResource(id) => AfterRead(r, None)
    case CreateCollection(c) => AfterCreateCollection(r, c)
    case DeleteCollection(id) => AfterDeleteCollection(r, id)
    case CreateResource(e, condition) => AfterCreate(r, e, condition)
    case UpdateResource(e, condition) => AfterUpdate(r, e, condition)
    case ArchiveResource(id, condition) => AfterArchive(r, id, condition)
    case DeleteResource(id, condition) => AfterDelete(r, id, condition)
    case SetClock(seconds) => (r.(clock := seconds), Done)
    case InjectFailure(mode) => (r.(failures := r.failures + [mode]), Done)
  }

  // ----- what is asked of a digest ----------------------------------------

  predicate SameButRevision(e: Envelope, f: Envelope) {
    e.(revision := f.revision) == f
  }

  /** Validity does not depend on the revision. */
  ghost predicate RevisionIsFree(d: Digest) {
    forall e, f :: SameButRevision(e, f) && d.valid(e) ==> d.valid(f)
  }

  /** Envelopes of different revisions have different tags. */
  ghost predicate TagsRevisions(d: Digest) {
    forall a, b :: d.tag(a) == d.tag(b) ==> a.revision == b.revision
  }

  lemma CanonicalDigest()
    ensures RevisionIsFree(Canonical) && TagsRevisions(Canonical)
  {
    forall a, b | Canonical.tag(a) == Canonical.tag(b) ensures a.revision == b.revision {
      TagsAgree(a, b);
    }
  }

  // ----- the invariant ----------------------------------------------------

  predicate WellStored(r: Repo, k: string)
    requires k in r.resources
  {
    var stored := r.resources[k];
    stored.envelope.resourceId == k && r.digest.valid(stored.envelope) &&
    stored.envelope.collectionId in r.collections && stored.etag == r.digest.tag(stored.envelope)
  }

  predicate Apart(a: Stored, b: Stored) {
    a.envelope.objectId != b.envelope.objectId && a.envelope.davUid != b.envelope.davUid
  }

  /** Keys are the resources' ids, tags are the digests of the envelopes, collections exist, and no
      two resources share an object id or a DAV UID. */
  ghost predicate Valid(r: Repo) {
    (forall k :: k in r.resources ==> WellStored(r, k)) &&
    (forall k :: k in r.collections ==> r.collections[k].id == k) &&
    forall j, k :: j in r.resources && k in r.resources && j != k ==> Apart(r.resources[j], r.resources[k])
  }

  function Empty(digest: Digest, clock: U64): (r: Repo)
    ensures Valid(r)
  {
    Repo(digest, map[], map[], [], clock)
  }

  lemma PutKeepsValid(r: Repo, stored: Stored, next: Repo)
    requires Valid(r) && r.digest.valid(stored.envelope) && stored.envelope.collectionId in r.collections
    requires stored.etag == r.digest.tag(stored.envelope)
    requires next.collections == r.collections && next.digest == r.digest
    requires next.resources == r.resources[stored.envelope.resourceId := stored]
    requires forall k :: k in r.resources && k != stored.envelope.resourceId ==> Apart(r.resources[k], stored)
    ensures Valid(next)
  {
    forall k | k in next.resources ensures WellStored(next, k) {
      if k != stored.envelope.resourceId {
        assert WellStored(r, k);
      }
    }
  }

  lemma DropKeepsValid(r: Repo, next: Repo)
    requires Valid(r) && next.digest == r.digest
    requires forall k :: k in next.resources ==>
               k in r.resources && next.resources[k] == r.resources[k] &&
               next.resources[k].envelope.collectionId in next.collections
    requires forall k :: k in next.collections ==> k in r.collections && next.collections[k] == r.collections[k]
    ensures Valid(next)
  {
    forall k | k in next.resources ensures WellStored(next, k) {
      assert WellStored(r, k);
    }
  }

  lemma FreeIdentityIsApart(r: Repo, e: Envelope, stored: Stored, exempt: Option<string>)
    requires Valid(r) && !IdentityInUse(r.resources, e, exempt)
    requires stored.envelope.objectId == e.objectId && stored.envelope.davUid == e.davUid
    requires exempt == Some(e.resourceId) || (exempt == None && e.resourceId !in r.resources)
    ensures forall k :: k in r.resources && k != e.resourceId ==> Apart(r.resources[k], stored)
  {
    forall k | k in r.resources && k != e.resourceId ensures Apart(r.resources[k], stored) {
      assert WellStored(r, k);
      assert !SharesIdentity(r.resources[k], e);
    }
  }

  lemma CreateKeepsValid(r: Repo, e: Envelope, condition: WriteCondition)
    requires Valid(r)
    ensures Valid(AfterCreate(r, e, condition).0)
  {
    var (next, reply) := AfterCreate(r, e, condition);
    if reply.Wrote? {
      FreeIdentityIsApart(r, e, reply.stored, None);
      PutKeepsValid(r, reply.stored, next);
    } else {
      KeepsValid(r, next);
    }
  }

  lemma UpdateKeepsValid(r: Repo, e: Envelope, condition: WriteCondition)
    requires Valid(r) && RevisionIsFree(r.digest)
    ensures Valid(AfterUpdate(r, e, condition).0)
  {
    var (next, reply) := AfterUpdate(r, e, condition);
    if reply.Wrote? {
      FreeIdentityIsApart(r, e, reply.stored, Some(e.resourceId));
      assert SameButRevision(e, reply.stored.envelope);
      PutKeepsValid(r, reply.stored, next);
    } else {
      KeepsValid(r, next);
    }
  }

  lemma ArchiveKeepsValid(r: Repo, id: string, condition: WriteCondition)
    requires Valid(r)
    ensures Valid(AfterArchive(r, id, condition).0)
  {
    var (next, reply) := AfterArchive(r, id, condition);
    if reply.Wrote? {
      assert WellStored(r, id);
      PutKeepsValid(r, reply.stored, next);
    } else {
      KeepsValid(r, next);
    }
  }

  lemma KeepsValid(r: Repo, next: Repo)
    requires Valid(r) && next.resources == r.resources && next.collections == r.collections && next.digest == r.digest
    ensures Valid(next)
  {
    forall k | k in next.resources ensures WellStored(next, k) {
      assert WellStored(r, k);
    }
  }

  lemma CollectionsExist(r: Repo)
    requires Valid(r)
    ensures forall k :: k in r.resources ==> r.resources[k].envelope.collectionId in r.collections
  {
    forall k | k in r.resources ensures r.resources[k].envelope.collectionId in r.collections {
      assert WellStored(r, k);
    }
  }

  lemma CreateCollectionKeepsValid(r: Repo, c: Collection)
    requires Valid(r)
    ensures Valid(AfterCreateCollection(r, c).0)
  {
    var next := AfterCreateCollection(r, c).0;
    forall k | k in next.resources ensures WellStored(next, k) {
      assert WellStored(r, k);
    }
  }

  lemma DeleteCollectionKeepsValid(r: Repo, id: string)
    requires Valid(r)
    ensures Valid(AfterDeleteCollection(r, id).0)
  {
    CollectionsExist(r);
    DropKeepsValid(r, AfterDeleteCollection(r, id).0);
  }

  lemma DeleteKeepsValid(r: Repo, id: string, condition: WriteCondition)
    requires Valid(r)
    ensures Valid(AfterDelete(r, id, condition).0)
  {
    CollectionsExist(r);
    DropKeepsValid(r, AfterDelete(r, id, condition).0);
  }

  /** Every call, successful or not, keeps the invariant. */
  lemma StepKeepsValid(r: Repo, call: Call)
    requires Valid(r) && RevisionIsFree(r.digest)
    ensures Valid(Step(r, call).0)
  {
    match call
    case CreateResource(e, condition) => CreateKeepsValid(r, e, condition);
    case UpdateResource(e, condition) => UpdateKeepsValid(r, e, condition);
    case ArchiveResource(id, condition) => ArchiveKeepsValid(r, id, condition);
    case CreateCollection(c) => CreateCollectionKeepsValid(r, c);
    case DeleteCollection(id) => DeleteCollectionKeepsValid(r, id);
    case DeleteResource(id, condition) => DeleteKeepsValid(r, id, condition);
    case _ => KeepsValid(r, Step(r, call).0);
  }

  /** A refused call changes no resource, no collection and no clock. */
  lemma RefusalChangesNothing(r: Repo, call: Call)
    requires Step(r, call).1.Refused?
    ensures Step(r, call).0.resources == r.resources && Step(r, call).0.collections == r.collections
    ensures Step(r, call).0.clock == r.clock
  {
  }

  // ----- what each call does ----------------------------------------------

  /** The failures that a call uses up when one of them is the first in the queue. */
  function Heeds(call: Call): set<FailureMode> {
    if call.SetClock? || call.InjectFailure? then {}
    else if call.ListCollections? || call.GetCollection? || call.ListResources? || call.GetResource? then
      {Timeout, MalformedState, ReadAfterWriteDelay}
    else if call.ArchiveResource? then {Timeout, MalformedState, ArchiveFailure}
    else if call.CreateCollection? || call.CreateResource? then {Timeout, MalformedState, DuplicateWrite}
    else {Timeout, MalformedState}
  }

  predicate Undisturbed(r: Repo, call: Call) {
    r.failures == [] || r.failures[0] !in Heeds(call)
  }

  predicate Meets(condition: WriteCondition, r: Repo, id: string) {
    match condition
    case Unconditional => true
    case IfNoneMatch => id !in r.resources
    case IfMatch(tag) => id in r.resources && r.resources[id].etag == tag
  }

  /** No other resource has the object id or the DAV UID. */
  predicate FreeFor(r: Repo, e: Envelope) {
    forall k :: k in r.resources && k != e.resourceId ==>
      r.resources[k].envelope.objectId != e.objectId && r.resources[k].envelope.davUid != e.davUid
  }

  /** What has to hold for a call to be accepted when no failure is queued for it. */
  predicate Acceptable(r: Repo, call: Call) {
    match call
    case CreateCollection(c) => c.id !in r.collections
    case DeleteCollection(id) => id in r.collections
    case ListResources(collectionId, _) => collectionId in r.collections
    case CreateResource(e, condition) =>
      r.digest.valid(e) && e.collectionId in r.collections && e.resourceId !in r.resources &&
      Meets(condition, r, e.resourceId) && FreeFor(r, e)
    case UpdateResource(e, condition) =>
      r.digest.valid(e) && e.collectionId in r.collections && e.resourceId in r.resources &&
      Meets(condition, r, e.resourceId) && FreeFor(r, e)
    case ArchiveResource(id, condition) => id in r.resources && Meets(condition, r, id)
    case DeleteResource(id, condition) => id in r.resources && Meets(condition, r, id)
    case _ => true
  }

  lemma InUseExactly(r: Repo, e: Envelope)
    requires Valid(r)
    ensures IdentityInUse(r.resources, e, Some(e.resourceId)) <==> !FreeFor(r, e)
    ensures e.resourceId !in r.resources ==> (IdentityInUse(r.resources, e, None) <==> !FreeFor(r, e))
  {
    forall k | k in r.resources ensures r.resources[k].envelope.resourceId == k {
      assert WellStored(r, k);
    }
  }

  /** Exactly when a call is accepted; a call that meets a queued failure is refused and uses it up. */
  lemma AcceptedExactly(r: Repo, call: Call)
    requires Valid(r)
    ensures Undisturbed(r, call) ==> (!Step(r, call).1.Refused? <==> Acceptable(r, call))
    ensures !Undisturbed(r, call) && r.failures[0] != DuplicateWrite ==>
              Step(r, call) == (r.(failures := r.failures[1..]), Refused(Failed(r.failures[0])))
    ensures !Undisturbed(r, call) && r.failures[0] == DuplicateWrite ==>
              Step(r, call).1.Refused? &&
              (Acceptable(r, call) ==>
                 Step(r, call) == (r.(failures := r.failures[1..]),
                                   Refused(if call.CreateCollection? then CollectionAlreadyExists(call.collection.id)
                                           else ResourceAlreadyExists(call.envelope.resourceId))))
  {
    hide Valid, IdentityInUse, FreeFor;
    if call.CreateResource? || call.UpdateResource? {
      InUseExactly(r, call.envelope);
    }
  }

  /** What an accepted call leaves, besides the queue of failures. */
  ghost predicate Leaves(r: Repo, call: Call, next: Repo) {
    match call
    case CreateCollection(c) =>
      next.collections == r.collections[c.id := c] && next.resources == r.resources && next.clock == r.clock
    case DeleteCollection(id) =>
      next.collections == r.collections - {id} && next.clock == r.clock &&
      (forall k :: k in next.resources <==> k in r.resources && r.resources[k].envelope.collectionId != id) &&
      forall k :: k in next.resources ==> next.resources[k] == r.resources[k]
    case CreateResource(e, _) =>
      next.collections == r.collections && next.clock == Saturating(r.clock) &&
      next.resources == r.resources[e.resourceId := Stored(e, r.digest.tag(e), false, r.clock)]
    case UpdateResource(e, _) =>
      e.resourceId in r.resources && next.collections == r.collections &&
      next.clock == After(r.resources[e.resourceId].modifiedAt, r.clock) &&
      var saved := e.(revision := Saturating(r.resources[e.resourceId].envelope.revision));
      next.resources == r.resources[e.resourceId :=
        Stored(saved, r.digest.tag(saved), r.resources[e.resourceId].archived, next.clock)]
    case ArchiveResource(id, _) =>
      id in r.resources && next.collections == r.collections && next.clock == After(r.resources[id].modifiedAt, r.clock) &&
      next.resources == r.resources[id := Stored(r.resources[id].envelope, r.resources[id].etag, true, next.clock)]
    case DeleteResource(id, _) =>
      next.collections == r.collections && next.resources == r.resources - {id} && next.clock == r.clock
    case SetClock(seconds) =>
      next.collections == r.collections && next.resources == r.resources && next.clock == seconds
    case _ => next.collections == r.collections && next.resources == r.resources && next.clock == r.clock
  }

  /** The effect of an accepted call: a deleted resource is gone, an archived one is marked, an updated
      one has the caller's document under the next revision, and everything else is as it was. */
  lemma EffectExactly(r: Repo, call: Call)
    requires !Step(r, call).1.Refused?
    ensures var (next, reply) := Step(r, call);
            Leaves(r, call, next) && next.digest == r.digest &&
            next.failures == r.failures + (if call.InjectFailure? then [call.mode] else []) &&
            (reply.Wrote? <==> call.CreateResource? || call.UpdateResource? || call.ArchiveResource? || call.DeleteResource?) &&
            (call.CreateResource? || call.UpdateResource? ==> reply.stored == next.resources[call.envelope.resourceId]) &&
            (call.ArchiveResource? ==> reply.stored == next.resources[call.id]) &&
            (call.DeleteResource? ==> call.id in r.resources && reply.stored == r.resources[call.id])
  {
  }

  /** An error tells what is wrong. */
  ghost predicate TellsWhy(r: Repo, call: Call, error: RepoError) {
    match error
    case InvalidEnvelope => (call.CreateResource? || call.UpdateResource?) && !r.digest.valid(call.envelope)
    case CollectionNotFound(id) => id !in r.collections
    case ResourceNotFound(id) => id !in r.resources
    case CollectionAlreadyExists(id) => id in r.collections || (r.failures != [] && r.failures[0] == DuplicateWrite)
    case ResourceAlreadyExists(id) => id in r.resources || (r.failures != [] && r.failures[0] == DuplicateWrite)
    case IdentityAlreadyExists => (call.CreateResource? || call.UpdateResource?) && !FreeFor(r, call.envelope)
    case PreconditionFailed(expected, actual) =>
      expected != actual &&
      exists id :: actual == (if id in r.resources then Some(r.resources[id].etag) else None) && Names(call, id, expected)
    case Failed(mode) => r.failures != [] && r.failures[0] == mode
  }

  /** The call names this resource and, with `IfMatch`, this tag. */
  predicate Names(call: Call, id: string, expected: Option<ETag>) {
    match call
    case CreateResource(e, condition) => e.resourceId == id && Asks(condition, expected)
    case UpdateResource(e, condition) => e.resourceId == id && Asks(condition, expected)
    case ArchiveResource(target, condition) => target == id && Asks(condition, expected)
    case DeleteResource(target, condition) => target == id && Asks(condition, expected)
    case _ => false
  }

  predicate Asks(condition: WriteCondition, expected: Option<ETag>) {
    (condition == IfNoneMatch && expected == None) || (expected.Some? && condition == IfMatch(expected.value))
  }

  lemma ErrorExplains(r: Repo, call: Call)
    requires Valid(r) && Step(r, call).1.Refused?
    ensures TellsWhy(r, call, Step(r, call).1.error)
  {
    hide Valid, IdentityInUse, FreeFor;
    var error := Step(r, call).1.error;
    if call.CreateResource? || call.UpdateResource? {
      InUseExactly(r, call.envelope);
      assert error.PreconditionFailed? ==> Names(call, call.envelope.resourceId, error.expected);
    } else if call.ArchiveResource? || call.DeleteResource? {
      assert error.PreconditionFailed? ==> Names(call, call.id, error.expected);
    }
  }

  // ----- the derived indexes ----------------------------------------------

  function ObjectIdOf(r: Repo): map<string, string> {
    map k | k in r.resources :: r.resources[k].envelope.objectId
  }

  function DavUidOf(r: Repo): map<string, string> {
    map k | k in r.resources :: r.resources[k].envelope.davUid
  }

  lemma {:induction false} InjectiveValues<K, V>(m: map<K, V>)
    requires forall j, k :: j in m && k in m && m[j] == m[k] ==> j == k
    ensures |m.Values| == |m.Keys|
  {
    if m == map[] {
      assert m.Values == {};
    } else {
      var k :| k in m;
      var rest := m - {k};
      InjectiveValues(rest);
      assert m.Keys == rest.Keys + {k};
      assert m.Values == rest.Values + {m[k]} by {
        forall v ensures v in m.Values <==> v in rest.Values || v == m[k] {
          if v in m.Values && v != m[k] {
            var j :| j in m && m[j] == v;
            assert j in rest && rest[j] == v;
          }
          if v in rest.Values {
            var j :| j in rest && rest[j] == v;
            assert j in m && m[j] == v;
          }
        }
      }
      assert m[k] !in rest.Values;
    }
  }

  lemma IdentitiesDiffer(r: Repo, j: string, k: string)
    requires Valid(r) && j in r.resources && k in r.resources && j != k
    ensures ObjectIdOf(r)[j] != ObjectIdOf(r)[k] && DavUidOf(r)[j] != DavUidOf(r)[k]
  {
    assert Apart(r.resources[j], r.resources[k]);
  }

  /** Rebuilt from the resources, each index has as many members as there are resources. */
  lemma IndexesAreComplete(r: Repo)
    requires Valid(r)
    ensures |ObjectIdOf(r).Values| == |ObjectIdOf(r).Keys| && |DavUidOf(r).Values| == |DavUidOf(r).Keys|
    ensures ObjectIdOf(r).Keys == r.resources.Keys && DavUidOf(r).Keys == r.resources.Keys
  {
    var objects, uids := ObjectIdOf(r), DavUidOf(r);
    forall j, k | j in r.resources && k in r.resources && j != k
      ensures objects[j] != objects[k] && uids[j] != uids[k]
    {
      IdentitiesDiffer(r, j, k);
    }
    InjectiveValues(objects);
    InjectiveValues(uids);
  }

  // ----- runs -------------------------------------------------------------

  ghost predicate StepAt(states: seq<Repo>, calls: seq<Call>, i: nat)
    requires |states| == |calls| + 1 && i < |calls|
  {
    states[i + 1] == Step(states[i], calls[i]).0
  }

  /** The states that a list of calls runs through, from a valid one. */
  ghost predicate IsHistory(states: seq<Repo>, calls: seq<Call>) {
    |states| == |calls| + 1 && Valid(states[0]) && RevisionIsFree(states[0].digest) &&
    forall i :: 0 <= i < |calls| ==> StepAt(states, calls, i)
  }

  predicate Succeeded(states: seq<Repo>, calls: seq<Call>, i: nat)
    requires |states| == |calls| + 1 && i < |calls|
  {
    Step(states[i], calls[i]).1.Wrote?
  }

  lemma StepKeepsDigest(r: Repo, call: Call)
    ensures Step(r, call).0.digest == r.digest
  {
  }

  lemma {:induction false} HistoryIsValid(states: seq<Repo>, calls: seq<Call>, n: nat)
    requires IsHistory(states, calls) && n <= |calls|
    ensures Valid(states[n]) && states[n].digest == states[0].digest
  {
    hide Step, Valid;
    if n > 0 {
      HistoryIsValid(states, calls, n - 1);
      assert StepAt(states, calls, n - 1);
      StepKeepsValid(states[n - 1], calls[n - 1]);
      StepKeepsDigest(states[n - 1], calls[n - 1]);
    }
  }

  /** The resource is there from state `i` up to state `n`. */
  predicate Stays(states: seq<Repo>, id: string, i: nat, n: nat)
    requires i <= n < |states|
  {
    forall m :: i <= m <= n ==> id in states[m].resources
  }

  /** One call on a resource that outlives it: the revision grows by one on an update and on nothing
      else; the modification time grows on every update and archive; only updates change the tag. */
  lemma StepMovesForward(r: Repo, call: Call, id: string)
    requires Valid(r) && id in r.resources && id in Step(r, call).0.resources
    ensures var before, after := r.resources[id], Step(r, call).0.resources[id];
            var wrote := Step(r, call).1.Wrote?;
            if wrote && call.UpdateResource? && call.envelope.resourceId == id then
              after.envelope.revision == Saturating(before.envelope.revision) &&
              after.modifiedAt == After(before.modifiedAt, r.clock)
            else if wrote && call.ArchiveResource? && call.id == id then
              after.envelope == before.envelope && after.etag == before.etag &&
              after.modifiedAt == After(before.modifiedAt, r.clock)
            else after == before
  {
  }

  lemma StepNeverFallsBack(states: seq<Repo>, calls: seq<Call>, id: string, i: nat)
    requires IsHistory(states, calls) && i < |calls| && Stays(states, id, i, i + 1)
    ensures states[i].resources[id].envelope.revision <= states[i + 1].resources[id].envelope.revision
    ensures states[i].resources[id].modifiedAt <= states[i + 1].resources[id].modifiedAt
  {
    HistoryIsValid(states, calls, i);
    assert StepAt(states, calls, i);
    assert id in states[i].resources && id in states[i + 1].resources;
    StepMovesForward(states[i], calls[i], id);
  }

  /** Over a history in which the resource stays: revision and modification time never fall. */
  lemma {:induction false} HistoryMovesForward(states: seq<Repo>, calls: seq<Call>, id: string, i: nat, n: nat)
    requires IsHistory(states, calls) && i <= n <= |calls| && Stays(states, id, i, n)
    ensures states[i].resources[id].envelope.revision <= states[n].resources[id].envelope.revision
    ensures states[i].resources[id].modifiedAt <= states[n].resources[id].modifiedAt
    decreases n
  {
    if i < n {
      HistoryMovesForward(states, calls, id, i, n - 1);
      StepNeverFallsBack(states, calls, id, n - 1);
    }
  }

  predicate UpdatesWith(call: Call, id: string, tag: ETag) {
    call.UpdateResource? && call.envelope.resourceId == id && call.condition == IfMatch(tag)
  }

  /** A conditional update succeeds only on the tag it names. */
  lemma UpdateMatches(r: Repo, call: Call, id: string, tag: ETag)
    requires UpdatesWith(call, id, tag)
    ensures Step(r, call).1.Wrote? ==> id in r.resources && r.resources[id].etag == tag
  {
  }

  lemma UpdateAdvances(states: seq<Repo>, calls: seq<Call>, id: string, i: nat)
    requires IsHistory(states, calls) && i < |calls| && Succeeded(states, calls, i)
    requires calls[i].UpdateResource? && calls[i].envelope.resourceId == id
    ensures id in states[i].resources && id in states[i + 1].resources
    ensures states[i + 1].resources[id].envelope.revision == Saturating(states[i].resources[id].envelope.revision)
  {
    assert StepAt(states, calls, i);
  }

  lemma TagsTell(a: Repo, b: Repo, id: string)
    requires Valid(a) && Valid(b) && a.digest == b.digest && TagsRevisions(a.digest)
    requires id in a.resources && id in b.resources
    requires a.resources[id].envelope.revision != b.resources[id].envelope.revision
    ensures a.resources[id].etag != b.resources[id].etag
  {
    assert WellStored(a, id) && WellStored(b, id);
  }

  /** No tag comes back: while the resource stays and its revision was not yet the largest 64-bit
      number, its tag after an update never equals the tag before it again. */
  lemma NoTagRecurs(states: seq<Repo>, calls: seq<Call>, id: string, i: nat, n: nat)
    requires IsHistory(states, calls) && TagsRevisions(states[0].digest)
    requires i < n <= |calls| && Stays(states, id, i, n)
    requires calls[i].UpdateResource? && calls[i].envelope.resourceId == id && Succeeded(states, calls, i)
    requires id in states[i].resources && states[i].resources[id].envelope.revision < MAX_U64
    ensures id in states[n].resources && states[n].resources[id].etag != states[i].resources[id].etag
  {
    UpdateAdvances(states, calls, id, i);
    HistoryMovesForward(states, calls, id, i + 1, n);
    HistoryIsValid(states, calls, i);
    HistoryIsValid(states, calls, n);
    TagsTell(states[i], states[n], id);
  }

  /** Single winner: of all updates that name the same tag of a resource, at most one succeeds, as
      long as the resource is not deleted and its revision is not saturated. */
  lemma SingleWinner(states: seq<Repo>, calls: seq<Call>, id: string, tag: ETag, i: nat, j: nat)
    requires IsHistory(states, calls) && TagsRevisions(states[0].digest)
    requires i < j < |calls| && Stays(states, id, i, j)
    requires UpdatesWith(calls[i], id, tag) && UpdatesWith(calls[j], id, tag)
    requires id in states[i].resources && states[i].resources[id].envelope.revision < MAX_U64
    ensures !(Succeeded(states, calls, i) && Succeeded(states, calls, j))
  {
    if Succeeded(states, calls, i) {
      NoTagRecurs(states, calls, id, i, j);
      UpdateMatches(states[i], calls[i], id, tag);
      UpdateMatches(states[j], calls[j], id, tag);
    }
  }

  /** At the largest revision the tag stays, and the same update succeeds again and again. */
  lemma SaturatedRevisionRepeats(r: Repo, e: Envelope)
    requires Valid(r) && r.failures == [] && e.resourceId in r.resources && r.resources[e.resourceId].envelope == e
    requires e.revision == MAX_U64
    ensures var update := UpdateResource(e, IfMatch(r.digest.tag(e)));
            Step(r, update).1.Wrote? &&
            Step(r, update).0.resources == r.resources[e.resourceId := Step(r, update).1.stored] &&
            Step(r, update).1.stored.envelope == e && Step(r, update).0.failures == []
  {
    assert WellStored(r, e.resourceId);
    assert e.(revision := Saturating(e.revision)) == e;
    forall k | k in r.resources && k != e.resourceId ensures !SharesIdentity(r.resources[k], e) {
      assert Apart(r.resources[k], r.resources[e.resourceId]);
    }
  }

  /** Updates and archives move the modification time strictly forward, whatever the clock was set
      to, until the largest 64-bit number. */
  lemma WritesMoveTime(r: Repo, call: Call)
    requires Valid(r) && (call.UpdateResource? || call.ArchiveResource?) && Step(r, call).1.Wrote?
    ensures var id := if call.UpdateResource? then call.envelope.resourceId else call.id;
            id in r.resources && id in Step(r, call).0.resources &&
            (r.resources[id].modifiedAt < MAX_U64 ==>
               r.resources[id].modifiedAt < Step(r, call).0.resources[id].modifiedAt)
  {
  }
}
