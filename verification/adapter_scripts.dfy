/** Runs of the adapter's repository over the scripted remote: calls that succeed and are not read back. */
module AdapterScripts {
  import opened Wrappers
  import opened Text
  import opened ContentLines
  import opened Envelope
  import opened Repository
  import opened AnytypeObjects
  import opened F = FakeTransport
  import opened RemoteSpace
  import opened StoringRemote
  import opened Adapter
  import opened AdapterRuns

  // ----- a create that takes another object for its own -------------------

  lemma FailuresStayAway(r: Repo, e: Envelope, created: Envelope, condition: WriteCondition)
    requires r.failures == [] && Prepared(r, e).Ok?
    ensures AfterCreate(Prepared(r, e).value, created, condition).0.failures == []
  {
  }

  lemma AcceptedIsValid(r: Repo, e: Envelope, condition: WriteCondition)
    requires PreflightCreate(r, e, condition).Ok?
    ensures r.digest.valid(e)
  {
    var ready := Prepared(r, e).value;
    EnsureDigest(r, Collection(e.collectionId, CollectionName(e.kind)));
    CreateChecks(ready, e, condition);
  }

  lemma TakenIsClaim(objects: Contents, e: Envelope, spaceId: string, record: ObjectRecord)
    requires record in Live(objects) && CreateIdentityMatches(ObjectFor(e, spaceId), record, Canonical) && ValidEnvelope(e)
    ensures record.id in objects && objects[record.id] == record && Claims(record, e)
  {
    hide Live, Claims, CreateIdentityMatches;
    LiveIs(objects, record);
    IdentityIsClaim(e, spaceId, record);
  }

  /** The condition on the space is needed. Wherever one that can be refreshed holds the resource with
      other contents on a page that is scanned, and the cache does not know it, one timeout without an
      effect makes the create succeed with a tag that the next read does not show. */
  method StaleIsReturned(repo: AnytypeRepository, e: Envelope, condition: WriteCondition, ghost objects: Contents)
    returns (created: Result<(Envelope, ETag), AdapterError>, read: Result<Option<Stored>, AdapterError>)
    requires repo.cache.digest == Canonical && repo.cache.failures == [] && Served(e.kind)
    requires repo.TimesOut() && !repo.transport.fake.delayed && repo.WithinReach(ObjectFor(e, repo.spaceId))
    requires objects == ContentsOf(repo.transport.fake.objects, repo.spaceId)
    requires Refreshed(Canonical, 0, Live(objects), Configured(repo.cache)).Ok? && !NoStale(objects, e)
    requires PreflightCreate(repo.cache, e, condition).Ok?
    requires forall id :: id in objects && Claims(objects[id], e) ==>
               PreflightCreate(repo.cache, Returned(e, id), condition).Ok?
    modifies repo`cache, repo.transport, repo.transport.fake
    ensures created.Ok? && read.Ok? && read.value.Some?
    ensures read.value.value.envelope.objectId == created.value.0.objectId
    ensures read.value.value.etag != created.value.1
  {
    hide Claims, UpToDate, RefreshedFrom, ValidEnvelope, NormalEnvelope, TagOf, AfterCreate, MutatedOnce, OnlyRead, ScriptRun;
    hide Refreshed, Matching, EnsureCollection, Live, CreateIdentityMatches, PreflightCreate, ContentsOf;
    ghost var start := repo.cache;
    MatchingIsLive(repo.transport.fake.objects, repo.spaceId);
    AcceptedIsValid(repo.cache, e, condition);
    ghost var id :| id in objects && Claims(objects[id], e) && !UpToDate(objects[id], e);
    ghost var m, refresh;
    created, m := repo.CreateResource(e, condition);
    ghost var actual :| repo.CreatedAs(start, e, condition, actual, created);
    TakenIsClaim(objects, e, repo.spaceId, actual);
    ClaimsOnce(objects, 0, Configured(start), id, actual.id, e);
    AcceptedIsValid(start, Returned(e, id), condition);
    NamedIsNameable(Returned(e, id));
    FailuresStayAway(start, e, created.value.0, condition);
    ghost var cache := repo.cache;
    read, refresh := repo.GetResource(NormalizeLineEnds(e.resourceId));
    RefreshedAnyway(Canonical, 0, refresh.clock, Live(objects), Configured(start), Configured(cache));
    ClaimIsShown(objects, refresh.clock, Configured(cache), id, e);
    StaleTag(objects[id], e);
  }

  lemma NamedIsNameable(e: Envelope)
    requires ValidEnvelope(e)
    ensures !IsEmptyName(e.objectId)
  {
  }

  lemma StaleTag(record: ObjectRecord, e: Envelope)
    requires Claims(record, e) && !UpToDate(record, e)
    ensures TagOf(Returned(record.body.envelope, record.id)) != TagOf(Returned(e, record.id))
  {
  }

  // ----- writes that cannot be read ---------------------------------------

  lemma StagesAlone(e: Envelope, record: ObjectRecord)
    requires ValidEnvelope(e) && record.id == e.objectId && record.body == CanonicalBody(e) && record.properties == []
    requires record.revision == e.revision
    ensures StageObject(record, Canonical) ==
            Ok(if Served(e.kind) then Some(Returned(NormalEnvelope(e), e.objectId)) else None)
  {
    hide ValidEnvelope;
    NormalIsValid(e);
    NamedIsNameable(e);
    ServedExactly(e.kind);
    NormalTwice(e);
    assert Canonical.valid(NormalEnvelope(e)) && Canonical.valid(NormalEnvelope(NormalEnvelope(e)));
  }

  lemma ReturnedIsValid(e: Envelope)
    requires ValidEnvelope(e)
    ensures ValidEnvelope(Returned(NormalEnvelope(e), e.objectId))
  {
    NormalIsValid(e);
  }

  lemma AddsToEmpty(clock: U64, e: Envelope)
    requires ValidEnvelope(e)
    ensures AddResource(Empty(Canonical, clock), e).Ok?
  {
    hide ValidEnvelope;
    assert Canonical.valid(e);
  }

  /** A space with one written object can be refreshed. */
  lemma OneObjectRefreshes(e: Envelope, record: ObjectRecord, clock: U64, configured: seq<Collection>)
    requires ValidEnvelope(e) && record.id == e.objectId && record.body == CanonicalBody(e) && record.properties == []
    requires record.revision == e.revision
    ensures Refreshed(Canonical, clock, [record], configured).Ok?
  {
    hide StageObject, AddResource, ValidEnvelope, NormalEnvelope, Configure;
    StagesAlone(e, record);
    var owned := Returned(NormalEnvelope(e), e.objectId);
    assert [record][..0] == [] && StageAll([], Canonical) == Ok([]) && [] + [owned] == [owned];
    var staged := if Served(e.kind) then [owned] else [];
    assert StageAll([record], Canonical) == Ok(staged);
    if Served(e.kind) {
      ReturnedIsValid(e);
      AddsToEmpty(clock, owned);
      assert [owned][..0] == [] && Rebuild(Empty(Canonical, clock), []) == Ok(Empty(Canonical, clock));
    }
    assert Rebuild(Empty(Canonical, clock), staged).Ok?;
    RebuildHolds(Canonical, clock, staged);
    ConfigureKeeps(Rebuild(Empty(Canonical, clock), staged).value, configured, staged);
  }

  lemma OneIsLive(objects: Contents, record: ObjectRecord)
    requires objects == map[record.id := record] && !record.archived
    ensures Live(objects) == [record]
  {
    var ids := SortedKeys(objects.Keys);
    assert objects.Keys == {record.id} && record.id in ids && |ids| == 1;
    assert ids == [record.id] && ids[1..] == [];
    assert LiveOf(objects, ids[1..]) == [] && [record] + [] == [record];
  }

  lemma OneIsContents(spaceId: string, record: ObjectRecord)
    requires record.spaceId == spaceId
    ensures ContentsOf(map[(spaceId, record.id) := record], spaceId) == map[record.id := record]
  {
    var objects: Objects := map[(spaceId, record.id) := record];
    forall id ensures id in ContentsOf(objects, spaceId) <==> id == record.id {
      ContentsAre(objects, spaceId, id);
    }
  }

  lemma EmptyTakes(clock: U64, e: Envelope)
    requires ValidEnvelope(e)
    ensures PreflightCreate(Empty(Canonical, clock), e, Unconditional).Ok?
    ensures AfterCreate(Prepared(Empty(Canonical, clock), e).value, e, Unconditional).0.failures == []
  {
    hide ValidEnvelope;
    assert Canonical.valid(e);
  }

  /** What a scripted space shows that holds just this record. */
  lemma OneIsShown(objects: Objects, spaceId: string, record: ObjectRecord)
    requires objects == map[(spaceId, record.id) := record] && record.spaceId == spaceId && !record.archived
    ensures Matching(objects, spaceId, false) == [record] == Live(map[record.id := record])
  {
    hide Matching, Live, ContentsOf;
    OneIsContents(spaceId, record);
    MatchingIsLive(objects, spaceId);
    OneIsLive(map[record.id := record], record);
  }

  lemma UpdateIsAccepted(renewed: Repo, owned: Envelope, e: Envelope)
    requires Holds(renewed, [owned]) && renewed.digest == Canonical && owned.collectionId in renewed.collections
    requires e.resourceId == owned.resourceId && e.collectionId == owned.collectionId && ValidEnvelope(e)
    ensures AfterUpdate(renewed, e, Unconditional).1.Wrote?
  {
    hide ValidEnvelope, Valid;
    assert Canonical.valid(e);
    OnlyId(owned);
    assert StoredAs(renewed, [owned][0]);
  }

  lemma OnlyId(owned: Envelope)
    ensures ResourceIds([owned]) == {owned.resourceId} && CollectionIds([owned]) == {owned.collectionId}
  {
    assert [owned][..0] == [] && ResourceIds([]) == {} && CollectionIds([]) == {};
  }

  lemma OneIsRefreshed(task: Envelope, record: ObjectRecord, clock: U64, configured: seq<Collection>)
    requires ValidEnvelope(task) && Served(task.kind)
    requires record.id == task.objectId && record.body == CanonicalBody(task) && record.properties == []
    requires record.revision == task.revision
    ensures Refreshed(Canonical, clock, [record], configured).Ok?
    ensures var renewed := Refreshed(Canonical, clock, [record], configured).value;
            var owned := Returned(NormalEnvelope(task), task.objectId);
            Holds(renewed, [owned]) && renewed.digest == Canonical && owned.collectionId in renewed.collections
  {
    hide StageObject, Rebuild, Configure, ValidEnvelope, NormalEnvelope;
    OneObjectRefreshes(task, record, clock, configured);
    RefreshedHolds(Canonical, clock, [record], configured);
    StagesAlone(task, record);
    var owned := Returned(NormalEnvelope(task), task.objectId);
    assert [record][..0] == [] && StageAll([], Canonical) == Ok([]) && [] + [owned] == [owned];
    assert StageAll([record], Canonical) == Ok([owned]);
    OnlyId(owned);
  }

  lemma SentIsWhole(repo: AnytypeRepository, e: Envelope, task: Envelope)
    ensures repo.Sent(e, Ok(ObjectFor(task, repo.spaceId))) == ObjectFor(e, repo.spaceId)
  {
  }

  /** The only object of a space, which holds a contact or a task, is updated to an envelope with its ids. */
  method UpdateAlone(repo: AnytypeRepository, task: Envelope, e: Envelope) returns (updated: Result<(Envelope, ETag), AdapterError>)
    requires repo.transport.Ready() && repo.cache.digest == Canonical && repo.cache.failures == []
    requires repo.transport.fake.objects == map[(repo.spaceId, task.objectId) := ObjectFor(task, repo.spaceId)]
    requires ValidEnvelope(task) && Served(task.kind) && ValidEnvelope(e) && e.objectId == task.objectId
    requires e.resourceId == NormalizeLineEnds(task.resourceId) && e.collectionId == NormalizeLineEnds(task.collectionId)
    modifies repo`cache, repo.transport, repo.transport.fake
    ensures updated == Ok((e, TagOf(e))) && repo.transport.Ready()
    ensures repo.cache.digest == Canonical && repo.cache.failures == []
    ensures repo.transport.fake.objects == map[(repo.spaceId, e.objectId) := ObjectFor(e, repo.spaceId)]
  {
    hide ValidEnvelope, NormalEnvelope, TagOf, Refreshed, Matching, Live, AfterUpdate, EnsureCollection, RefreshedFrom;
    hide MutatedOnce, OnlyRead, Prepared, ScriptRun;
    ghost var start, record := repo.cache, ObjectFor(task, repo.spaceId);
    OneIsShown(repo.transport.fake.objects, repo.spaceId, record);
    ghost var m, refresh, checked;
    updated, m, refresh, checked := repo.UpdateResource(e, Unconditional);
    AloneIsAccepted(task, e, record, refresh.clock, Configured(start));
    SentIsWhole(repo, e, task);
  }

  lemma AloneIsAccepted(task: Envelope, e: Envelope, record: ObjectRecord, clock: U64, configured: seq<Collection>)
    requires ValidEnvelope(task) && Served(task.kind) && ValidEnvelope(e)
    requires record.id == task.objectId && record.body == CanonicalBody(task) && record.properties == []
    requires record.revision == task.revision
    requires e.resourceId == NormalizeLineEnds(task.resourceId) && e.collectionId == NormalizeLineEnds(task.collectionId)
    ensures Refreshed(Canonical, clock, [record], configured).Ok?
    ensures var renewed := Refreshed(Canonical, clock, [record], configured).value;
            renewed.failures == [] && AfterUpdate(renewed, e, Unconditional).1.Wrote?
  {
    hide ValidEnvelope, Refreshed, AfterUpdate, Holds;
    OneIsRefreshed(task, record, clock, configured);
    var renewed, owned := Refreshed(Canonical, clock, [record], configured).value, Returned(NormalEnvelope(task), task.objectId);
    HoldsNoFailure(renewed, owned);
    UpdateIsAccepted(renewed, owned, e);
  }

  /** A read over a space with one written object. */
  method GetAlone(repo: AnytypeRepository, e: Envelope, id: string) returns (read: Result<Option<Stored>, AdapterError>)
    requires repo.transport.Ready() && repo.cache.digest == Canonical && repo.cache.failures == [] && ValidEnvelope(e)
    requires repo.transport.fake.objects == map[(repo.spaceId, e.objectId) := ObjectFor(e, repo.spaceId)]
    modifies repo`cache, repo.transport, repo.transport.fake`failure, repo.transport.fake`delayNextRead
    ensures read.Ok?
    ensures ReadBack(read.value, (e, TagOf(e))) <==> Readable(e, id)
    ensures !Served(e.kind) ==> read.value == None
  {
    hide ValidEnvelope, NormalEnvelope, TagOf, Refreshed, Matching, Live, ReadBack, Readable, RefreshedFrom, OnlyRead, ScriptRun,
         Configured, CanonicalBody, Holds, MutationMatches, AfterRead;
    ghost var cache, record, refresh := repo.cache, ObjectFor(e, repo.spaceId), Refresh([], [], 0);
    OneIsShown(repo.transport.fake.objects, repo.spaceId, record);
    read, refresh := repo.GetResource(id);
    OneObjectRefreshes(e, record, refresh.clock, Configured(cache));
    HeldReadsBack(map[e.objectId := record], refresh.clock, Configured(cache), e, repo.cache, id);
    if !Served(e.kind) {
      NothingServed(e, record, refresh.clock, Configured(cache), id);
    }
  }

  /** Into an empty space every valid envelope can be created, and what was created is read back at
      exactly the ids where it can be read: so never, when it is an event, and not at an id with a
      carriage return. */
  method CreateInEmptySpace(repo: AnytypeRepository, e: Envelope, id: string, ghost clock: U64)
    returns (created: Result<(Envelope, ETag), AdapterError>, read: Result<Option<Stored>, AdapterError>)
    requires repo.transport.Ready() && repo.transport.fake.objects == map[] && repo.cache == Empty(Canonical, clock)
    requires ValidEnvelope(e)
    modifies repo`cache, repo.transport, repo.transport.fake
    ensures created == Ok((e, TagOf(e))) && read.Ok?
    ensures ReadBack(read.value, created.value) <==> Readable(e, id)
    ensures !Served(e.kind) ==> read.value == None
  {
    hide ValidEnvelope, NormalEnvelope, TagOf, ReadBack, Readable, AfterCreate, EnsureCollection, PreflightCreate;
    hide MutatedOnce, ScriptRun;
    EmptyTakes(clock, e);
    NamedIsNameable(e);
    ghost var m;
    created, m := repo.CreateResource(e, Unconditional);
    read := GetAlone(repo, e, id);
  }

  /** In a space that holds one contact or task, it can be updated to any valid envelope with its ids,
      and the update is read back at exactly the ids where that can be read: so never, when it turns
      the task into an event. The resource is then gone from the adapter's view. */
  method UpdateOnlyObject(repo: AnytypeRepository, task: Envelope, e: Envelope, id: string)
    returns (updated: Result<(Envelope, ETag), AdapterError>, read: Result<Option<Stored>, AdapterError>)
    requires repo.transport.Ready() && repo.cache.digest == Canonical && repo.cache.failures == []
    requires repo.transport.fake.objects == map[(repo.spaceId, task.objectId) := ObjectFor(task, repo.spaceId)]
    requires ValidEnvelope(task) && Served(task.kind) && ValidEnvelope(e) && e.objectId == task.objectId
    requires e.resourceId == NormalizeLineEnds(task.resourceId) && e.collectionId == NormalizeLineEnds(task.collectionId)
    modifies repo`cache, repo.transport, repo.transport.fake
    ensures updated == Ok((e, TagOf(e))) && read.Ok?
    ensures ReadBack(read.value, updated.value) <==> Readable(e, id)
    ensures !Served(e.kind) ==> read.value == None
  {
    hide ValidEnvelope, NormalEnvelope, TagOf, ReadBack, Readable;
    updated := UpdateAlone(repo, task, e);
    read := GetAlone(repo, e, id);
  }

  lemma HoldsNoFailure(r: Repo, owned: Envelope)
    requires Holds(r, [owned])
    ensures r.failures == []
  {
  }

  /** From a space that holds only an object of another kind nothing is read. */
  lemma NothingServed(e: Envelope, record: ObjectRecord, clock: U64, configured: seq<Collection>, id: string)
    requires ValidEnvelope(e) && !Served(e.kind) && record.id == e.objectId && record.body == CanonicalBody(e)
    requires record.properties == [] && record.revision == e.revision
    requires Refreshed(Canonical, clock, [record], configured).Ok?
    ensures id !in Refreshed(Canonical, clock, [record], configured).value.resources
  {
    hide Refreshed, StageObject, ValidEnvelope;
    StagesAlone(e, record);
    if id in Refreshed(Canonical, clock, [record], configured).value.resources {
      var i, owned := ShownIsListed(Canonical, clock, [record], configured, id);
      assert false;
    }
  }

  /** The kind of a calendar event is no served one, and an id may hold a carriage return. */
  lemma UnreadableInputs(e: Envelope)
    ensures !Readable(e.(kind := "Event"), e.resourceId)
    ensures !Readable(e.(resourceId := e.resourceId + "\r"), e.resourceId + "\r")
  {
    WrittenIdIsReadable(e.(kind := "Event"));
    WrittenIdIsReadable(e.(resourceId := e.resourceId + "\r"));
    assert (e.resourceId + "\r")[|e.resourceId|] == '\r';
  }
}
