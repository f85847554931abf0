/** Calls of the adapter's repository put together: refreshes with any page size, and writes read back. */
module AdapterRuns {
  import opened Wrappers
  import opened Text
  import opened ContentLines
  import opened Envelope
  import opened Repository
  import opened AnytypeObjects
  import opened F = FakeTransport
  import opened RemoteSpace
  import opened StoringRemote
  import opened Adapter

  // ----- refreshing -------------------------------------------------------

  /** Two repositories over scripted remotes with the same objects refresh alike, whatever the page
      sizes: the same error, or caches that differ at most in their times. */
  method RefreshWithAnyPageSizes(one: AnytypeRepository, other: AnytypeRepository)
    returns (a: Result<(), AdapterError>, b: Result<(), AdapterError>)
    requires one != other && one.transport != other.transport && one.transport.fake != other.transport.fake
    requires one.transport.Clear() && other.transport.Clear()
    requires one.transport.fake.objects == other.transport.fake.objects
    requires one.transport.fake.delayed == other.transport.fake.delayed && one.spaceId == other.spaceId
    requires one.cache == other.cache && one.cache.failures == []
    modifies one`cache, one.transport, one.transport.fake`failure, one.transport.fake`delayNextRead
    modifies other`cache, other.transport, other.transport.fake`failure, other.transport.fake`delayNextRead
    ensures a == b
    ensures a.Ok? <==> Refreshed(old(one.cache).digest, 0, old(one.transport.Space(one.spaceId)), Configured(old(one.cache))).Ok?
    ensures a.Ok? ==> Alike(one.cache, other.cache)
    ensures a.Err? ==> one.cache == other.cache == old(one.cache)
  {
    hide Refreshed, Alike, Matching;
    ghost var cache, space := one.cache, one.transport.Space(one.spaceId);
    ghost var first, second;
    a, first := one.Hydrate();
    b, second := other.Hydrate();
    RefreshedAlike(cache.digest, first.clock, second.clock, space, Configured(cache));
    RefreshedAlike(cache.digest, first.clock, 0, space, Configured(cache));
  }

  // ----- reading a space --------------------------------------------------

  lemma Quiet(spaces: seq<Contents>, log: seq<Exchange>, from: nat, i: nat)
    requires Explained(spaces, log, from) && from <= i <= |log|
    requires forall k :: i <= k < |log| ==> !log[k].Mutating?
    ensures ReadsOf(log, i, spaces[i - from]) && spaces[|log| - from] == spaces[i - from]
  {
    hide Explains;
    forall k | i <= k < |log| ensures Explains(spaces[i - from], log[k], spaces[i - from]) {
      QuietStays(spaces, log, from, i, k);
      QuietStays(spaces, log, from, i, k + 1);
      assert ExplainedAt(spaces, log, from, k);
    }
    QuietStays(spaces, log, from, i, |log|);
  }

  /** A refresh over a storing remote shows what its live objects give. */
  lemma RefreshReadsLive(spaces: seq<Contents>, from: nat, before: seq<Exchange>, log: seq<Exchange>, cache: Repo,
                         refresh: Refresh, after: Repo)
    requires from <= |before| && Explained(spaces, log, from) && OnlyRead(before, log)
    requires RefreshedFrom(cache, before, log, refresh, after)
    ensures |before| - from < |spaces|
    ensures Refreshed(cache.digest, refresh.clock, Live(spaces[|before| - from]), Configured(cache)) == Ok(after)
  {
    hide Refreshed, Live, Reread;
    Quiet(spaces, log, from, |before|);
    RereadIsLive(log, before, spaces[|before| - from], refresh.listed, refresh.fetched);
  }

  lemma LivePlace(objects: Contents, id: string) returns (i: nat)
    requires id in objects && !objects[id].archived
    ensures i < |Live(objects)| && Live(objects)[i] == objects[id]
  {
    LiveIs(objects, objects[id]);
    i :| 0 <= i < |Live(objects)| && Live(objects)[i] == objects[id];
  }

  lemma SeenIsStored(log: seq<Exchange>, from: nat, objects: Contents, record: ObjectRecord)
    requires ReadsOf(log, from, objects) && Seen(log, from, record) && record.body.Encoded?
    ensures record.id in objects && objects[record.id] == record
  {
    hide Live;
    var k :| from <= k < |log| && SeenAt(log[k], record);
    assert Explains(objects, log[k], objects);
    if log[k].Listing? {
      var data, live, skip := log[k].page.value.data, Live(objects), Offset(log[k].cursor);
      var j :| 0 <= j < |data| && data[j] == record;
      assert ListedAs(data[j], live[skip + j]);
      LiveIs(objects, live[skip + j]);
    }
  }

  lemma {:induction false} IdIsStaged(staged: seq<Envelope>, id: string) returns (k: nat)
    requires id in ResourceIds(staged)
    ensures k < |staged| && staged[k].resourceId == id
  {
    var n := |staged| - 1;
    if id == staged[n].resourceId {
      k := n;
    } else {
      k := IdIsStaged(staged[..n], id);
    }
  }

  /** Every resource of a refreshed cache comes from one of the objects. */
  lemma ShownIsListed(digest: Digest, clock: U64, objects: seq<ObjectRecord>, configured: seq<Collection>, id: string)
    returns (i: nat, owned: Envelope)
    requires Refreshed(digest, clock, objects, configured).Ok?
    requires id in Refreshed(digest, clock, objects, configured).value.resources
    ensures i < |objects| && StageObject(objects[i], digest) == Ok(Some(owned)) && owned.resourceId == id
    ensures owned.objectId == objects[i].id
  {
    hide Refreshed, StageAll, StageObject;
    RefreshedHolds(digest, clock, objects, configured);
    var staged := StageAll(objects, digest).value;
    var k := IdIsStaged(staged, id);
    owned := staged[k];
    StagedObjects(objects, digest, owned);
    i :| 0 <= i < |objects| && StageObject(objects[i], digest) == Ok(Some(owned));
    StagedOwns(objects[i], digest, owned);
  }

  lemma StagedOwns(record: ObjectRecord, digest: Digest, owned: Envelope)
    requires StageObject(record, digest) == Ok(Some(owned))
    ensures owned.objectId == record.id
  {
  }

  lemma ListedIsShown(digest: Digest, clock: U64, objects: seq<ObjectRecord>, configured: seq<Collection>, i: nat, owned: Envelope)
    requires Refreshed(digest, clock, objects, configured).Ok?
    requires i < |objects| && StageObject(objects[i], digest) == Ok(Some(owned))
    ensures StoredAs(Refreshed(digest, clock, objects, configured).value, owned)
  {
    hide Refreshed, StageAll, StageObject;
    RefreshedHolds(digest, clock, objects, configured);
    StagedObjects(objects, digest, owned);
    var staged := StageAll(objects, digest).value;
    var k :| 0 <= k < |staged| && staged[k] == owned;
    assert StoredAs(Refreshed(digest, clock, objects, configured).value, staged[k]);
  }

  // ----- whose object it is -----------------------------------------------

  /** A live object that holds an envelope of the resource that `e` names. */
  ghost predicate Claims(record: ObjectRecord, e: Envelope) {
    !record.archived && record.body.Encoded? && ValidEnvelope(record.body.envelope) &&
    var held, wanted := record.body.envelope, NormalEnvelope(e);
    held.collectionId == wanted.collectionId && held.resourceId == wanted.resourceId && held.kind == wanted.kind &&
    held.davUid == wanted.davUid
  }

  /** It holds what `e` says: a reader finds the tag that writing `e` there returns. */
  ghost predicate UpToDate(record: ObjectRecord, e: Envelope) {
    record.body.Encoded? && TagOf(Returned(record.body.envelope, record.id)) == TagOf(Returned(e, record.id))
  }

  /** No live object of the space holds the resource with other contents. */
  ghost predicate NoStale(objects: Contents, e: Envelope) {
    forall id :: id in objects && Claims(objects[id], e) ==> UpToDate(objects[id], e)
  }

  /** What reconciliation asks of an object is what makes it one of the resource. */
  lemma IdentityIsClaim(e: Envelope, spaceId: string, record: ObjectRecord)
    requires ValidEnvelope(e)
    ensures CreateIdentityMatches(ObjectFor(e, spaceId), record, Canonical) <==>
            record.spaceId == spaceId && Claims(record, e)
  {
    hide ValidEnvelope, NormalEnvelope;
    NormalIsValid(e);
    assert Canonical.valid(NormalEnvelope(e));
  }

  lemma WrittenIsCurrent(record: ObjectRecord, e: Envelope)
    requires record.body == CanonicalBody(e) && !record.archived && ValidEnvelope(e)
    ensures Claims(record, e) && UpToDate(record, e)
  {
    hide ValidEnvelope, NormalEnvelope, TagOf;
    NormalIsValid(e);
    StoredTagIsReturned(e, record.id);
  }

  lemma ClaimIsServed(record: ObjectRecord, e: Envelope)
    requires Claims(record, e) && Served(e.kind)
    ensures record.body.envelope.kind == e.kind && record.body.envelope.resourceId == NormalizeLineEnds(e.resourceId)
    ensures record.body.envelope.davUid == NormalizeLineEnds(e.davUid)
  {
    ServedExactly(e.kind);
  }

  /** A refresh that succeeds shows the resource's one live object, under the tag of what it holds. */
  lemma ClaimIsShown(objects: Contents, clock: U64, configured: seq<Collection>, id: string, e: Envelope)
    requires id in objects && Claims(objects[id], e) && Served(e.kind)
    requires Refreshed(Canonical, clock, Live(objects), configured).Ok?
    ensures var r, key := Refreshed(Canonical, clock, Live(objects), configured).value, NormalizeLineEnds(e.resourceId);
            key in r.resources && r.resources[key].etag == TagOf(Returned(objects[id].body.envelope, id)) &&
            r.resources[key].envelope.objectId == id && r.resources[key].envelope.kind == e.kind &&
            r.resources[key].envelope.davUid == NormalizeLineEnds(e.davUid)
  {
    hide Refreshed, Live, TagOf, ValidEnvelope;
    var i := LivePlace(objects, id);
    ClaimIsServed(objects[id], e);
    HeldIsShown(clock, Live(objects), configured, i, objects[id].body.envelope, Canonical);
  }

  lemma ClaimsOnce(objects: Contents, clock: U64, configured: seq<Collection>, a: string, b: string, e: Envelope)
    requires a in objects && Claims(objects[a], e) && b in objects && Claims(objects[b], e) && Served(e.kind)
    requires Refreshed(Canonical, clock, Live(objects), configured).Ok?
    ensures a == b
  {
    hide Refreshed, Live, TagOf, Claims;
    ClaimIsShown(objects, clock, configured, a, e);
    ClaimIsShown(objects, clock, configured, b, e);
  }

  // ----- what can be read at all ------------------------------------------

  /** What is written can be read at an id: contacts and tasks, at the id with normalized line ends. */
  predicate Readable(e: Envelope, id: string) {
    Served(e.kind) && id == NormalizeLineEnds(e.resourceId)
  }

  /** At the id that was written: a contact or a task whose id has no carriage return. */
  lemma WrittenIdIsReadable(e: Envelope)
    ensures Readable(e, e.resourceId) <==> Served(e.kind) && '\r' !in e.resourceId
  {
    NormalExactly(e.resourceId);
  }

  /** What `get_resource` answers from a refreshed cache. */
  function Looked(cache: Repo, id: string): Option<Stored> {
    if id in cache.resources && Served(cache.resources[id].envelope.kind) then Some(cache.resources[id]) else None
  }

  lemma StagedHolds(record: ObjectRecord, owned: Envelope)
    requires StageObject(record, Canonical) == Ok(Some(owned)) && record.body.Encoded?
    ensures owned == Returned(record.body.envelope, record.id) && Served(owned.kind)
  {
  }

  /** An object of the resource is shown nowhere but at the normalized id, and only when it is served. */
  lemma ShownWhereReadable(objects: Contents, clock: U64, configured: seq<Collection>, remoteId: string, e: Envelope, id: string)
    requires remoteId in objects && Claims(objects[remoteId], e)
    requires Refreshed(Canonical, clock, Live(objects), configured).Ok?
    requires var r := Refreshed(Canonical, clock, Live(objects), configured).value;
             id in r.resources && r.resources[id].envelope.objectId == remoteId
    ensures Readable(e, id)
  {
    hide Refreshed, Live, StageObject, ValidEnvelope;
    var i, owned := ShownIsListed(Canonical, clock, Live(objects), configured, id);
    ListedIsShown(Canonical, clock, Live(objects), configured, i, owned);
    LiveIs(objects, Live(objects)[i]);
    assert Live(objects)[i] == objects[remoteId];
    StagedHolds(objects[remoteId], owned);
    ServedExactly(e.kind);
  }

  // ----- create, then read ------------------------------------------------

  /** A read that shows what a write returned. */
  predicate ReadBack(read: Option<Stored>, written: (Envelope, ETag)) {
    read.Some? && read.value.etag == written.1 && read.value.envelope.objectId == written.0.objectId
  }

  /** What a create that succeeded has put, or found, in the space. */
  lemma CreatedIsClaimed(repo: AnytypeRepository, log: seq<Exchange>, m: nat, e: Envelope, remoteId: string,
                         before: Contents, after: Contents)
    requires repo.CreateShown(log, m, e, remoteId, Canonical) && ValidEnvelope(e)
    requires Changes(before, Creating, log[m].record, log[m].answer, after) && ReadsOf(log, m + 1, after)
    ensures remoteId in after && Claims(after[remoteId], e)
    ensures log[m].answer.Ok? ==> UpToDate(after[remoteId], e)
    ensures log[m].answer.Ok? || log[m].answer == Err(TimedOut)
    ensures after == before || exists id :: id in after && Claims(after[id], e) && UpToDate(after[id], e)
  {
    hide Claims, UpToDate, CreateIdentityMatches, ValidEnvelope, NormalEnvelope;
    var sent := ObjectFor(e, repo.spaceId);
    if !(log[m].answer.Err? && after == before) {
      var stored: ObjectRecord :| Keeps(sent, stored) && stored.id !in before &&
                                  after == before[stored.id := stored] &&
                                  (log[m].answer.Ok? ==> log[m].answer.value.id == stored.id);
      WrittenIsCurrent(stored, e);
      assert stored.id in after && after[stored.id] == stored;
    }
    if log[m].answer.Err? {
      var actual :| Seen(log, m + 1, actual) && actual.id == remoteId && CreateIdentityMatches(sent, actual, Canonical);
      IdentityIsClaim(e, repo.spaceId, actual);
      ClaimsEncode(actual, e);
      SeenIsStored(log, m + 1, after, actual);
    }
  }

  lemma ClaimsEncode(record: ObjectRecord, e: Envelope)
    requires Claims(record, e)
    ensures record.body.Encoded? && !record.archived
  {
  }

  /** A create followed by a read that succeeds: the object is one of the resource, and where those
      are shown it holds what was sent unless the mutation timed out without an effect. */
  lemma CreateOutcome(repo: AnytypeRepository, log: seq<Exchange>, m: nat, e: Envelope, remoteId: string,
                      before: Contents, after: Contents, clock: U64, configured: seq<Collection>)
    requires repo.CreateShown(log, m, e, remoteId, Canonical) && ValidEnvelope(e)
    requires Changes(before, Creating, log[m].record, log[m].answer, after) && ReadsOf(log, m + 1, after)
    requires Refreshed(Canonical, clock, Live(after), configured).Ok?
    ensures remoteId in after && Claims(after[remoteId], e)
    ensures Served(e.kind) ==> UpToDate(after[remoteId], e) || (log[m].answer == Err(TimedOut) && after == before)
  {
    hide Claims, UpToDate, Refreshed, Live, Changes, ValidEnvelope;
    CreatedIsClaimed(repo, log, m, e, remoteId, before, after);
    ClaimsEncode(after[remoteId], e);
    if after != before && Served(e.kind) {
      var id :| id in after && Claims(after[id], e) && UpToDate(after[id], e);
      ClaimsOnce(after, clock, configured, id, remoteId, e);
    }
  }

  /** The whole run from the start of the create to the end of the read. */
  lemma CreateReadsBack(repo: AnytypeRepository, spaces: seq<Contents>, before: seq<Exchange>, mid: seq<Exchange>,
                        log: seq<Exchange>, m: nat, e: Envelope, created: (Envelope, ETag), cache: Repo, refresh: Refresh,
                        after: Repo, id: string)
    requires Explained(spaces, log, |before|) && MutatedOnce(before, mid, m, Creating) && OnlyRead(mid, log)
    requires repo.CreateShown(mid, m, e, created.0.objectId, Canonical) && ValidEnvelope(e)
    requires created.1 == TagOf(created.0) && created.0 == Returned(e, created.0.objectId)
    requires RefreshedFrom(cache, mid, log, refresh, after) && cache.digest == Canonical
    ensures CreateReads(spaces, e, id, created, Looked(after, id))
  {
    hide Claims, UpToDate, Refreshed, Live, Changes, ValidEnvelope, RefreshedFrom, ReadsOf, Explained, Explains, MutatedOnce;
    hide CreateReads, TagOf;
    WriteStands(spaces, before, mid, log, m, Creating, cache, refresh, after);
    var last := spaces[|log| - |before|];
    CreateOutcome(repo, mid, m, e, created.0.objectId, spaces[0], last, refresh.clock, Configured(cache));
    CreateTells(spaces, e, id, created, refresh.clock, Configured(cache), after);
  }

  /** One write and then reads: before the write the space is what it was, and after it what the
      write made of it, which is what the refresh shows. */
  lemma WriteStands(spaces: seq<Contents>, before: seq<Exchange>, mid: seq<Exchange>, log: seq<Exchange>, m: nat, kind: Kind,
                    cache: Repo, refresh: Refresh, after: Repo)
    requires Explained(spaces, log, |before|) && MutatedOnce(before, mid, m, kind) && OnlyRead(mid, log)
    requires RefreshedFrom(cache, mid, log, refresh, after)
    ensures |before| <= m < |mid| <= |log| && |spaces| == |log| - |before| + 1 && mid[m] == log[m] && mid[m].Mutating?
    ensures var last := spaces[|log| - |before|];
            ReadsOf(mid, m + 1, last) && Changes(spaces[0], kind, mid[m].record, mid[m].answer, last) &&
            Refreshed(cache.digest, refresh.clock, Live(last), Configured(cache)) == Ok(after)
  {
    hide Refreshed, Live, Changes, RefreshedFrom, ReadsOf;
    var n := |before|;
    assert mid[m] == log[m];
    assert forall k :: m + 1 <= k < |log| ==> !log[k].Mutating?;
    Quiet(spaces, log, n, m + 1);
    QuietStays(spaces, log, n, n, m);
    QuietStays(spaces, log, n, m + 1, |mid|);
    RefreshReadsLive(spaces, n, mid, log, cache, refresh, after);
    assert ExplainedAt(spaces, log, n, m);
    ShorterReads(mid, log, m + 1, spaces[m + 1 - n]);
  }

  lemma ShorterReads(front: seq<Exchange>, log: seq<Exchange>, from: nat, objects: Contents)
    requires front <= log && ReadsOf(log, from, objects)
    ensures ReadsOf(front, from, objects)
  {
    hide Explains;
    forall k | from <= k < |front| ensures !front[k].Mutating? && Explains(objects, front[k], objects) {
      assert front[k] == log[k];
    }
  }

  /** The space held the resource with other contents under the returned id, and nothing was made. */
  ghost predicate TookStale(spaces: seq<Contents>, e: Envelope, created: (Envelope, ETag)) {
    spaces != [] && spaces[|spaces| - 1] == spaces[0] &&
    var id := created.0.objectId;
    id in spaces[0] && Claims(spaces[0][id], e) && !UpToDate(spaces[0][id], e)
  }

  lemma CreateTells(spaces: seq<Contents>, e: Envelope, id: string, created: (Envelope, ETag), clock: U64,
                    configured: seq<Collection>, after: Repo)
    requires spaces != [] && created.1 == TagOf(created.0) && created.0 == Returned(e, created.0.objectId)
    requires var remoteId, last := created.0.objectId, spaces[|spaces| - 1];
             remoteId in last && Claims(last[remoteId], e) &&
             (Served(e.kind) ==> UpToDate(last[remoteId], e) || last == spaces[0]) &&
             Refreshed(Canonical, clock, Live(last), configured) == Ok(after)
    ensures CreateReads(spaces, e, id, created, Looked(after, id))
  {
    hide Claims, TagOf, Refreshed, Live;
    var remoteId, last := created.0.objectId, spaces[|spaces| - 1];
    ClaimsEncode(last[remoteId], e);
    if ReadBack(Looked(after, id), created) {
      ShownWhereReadable(last, clock, configured, remoteId, e, id);
    }
    if Readable(e, id) {
      ClaimIsShown(last, clock, configured, remoteId, e);
    }
  }

  /** What a read at an id shows after a create, given what the space went through. */
  ghost predicate CreateReads(spaces: seq<Contents>, e: Envelope, id: string, created: (Envelope, ETag), read: Option<Stored>) {
    spaces != [] && (ReadBack(read, created) <==> Readable(e, id) && !TookStale(spaces, e, created)) &&
    (NoStale(spaces[0], e) ==> (ReadBack(read, created) <==> Readable(e, id)))
  }

  /** Some contents of the space, from these on, explain what a log has from a place on. */
  ghost predicate HasHistory(log: seq<Exchange>, from: nat, first: Contents) {
    exists spaces: seq<Contents> :: Explained(spaces, log, from) && spaces[0] == first
  }

  /** Over a scripted remote that only this repository uses, there is such a history. */
  lemma ScriptHasHistory(trail: seq<Objects>, before: seq<Objects>, spaceId: string, log: seq<Exchange>, from: nat)
    requires ScriptRun(trail, spaceId, log) && before <= trail && |before| == from + 1
    ensures HasHistory(log, from, ContentsOf(before[from], spaceId))
  {
    hide ContentsOf, Explained, ScriptRun;
    ScriptLength(trail, spaceId, log);
    ScriptIsExplained(trail, spaceId, log, from);
    var spaces := Spaces(trail, spaceId)[from..];
    assert spaces[0] == ContentsOf(trail[from], spaceId);
  }

  lemma ScriptLength(trail: seq<Objects>, spaceId: string, log: seq<Exchange>)
    requires ScriptRun(trail, spaceId, log)
    ensures |trail| == |log| + 1
  {
  }

  /** Over any remote that stores what it accepts, whatever fails or goes unheard: a read that succeeds
      after a create that succeeded shows the returned object and tag exactly when they can be read at
      that id and the create did not, timed out without an effect, take an older object of the resource
      for its own. A space without such objects excludes that. */
  method CreateThenRead(repo: AnytypeRepository, e: Envelope, condition: WriteCondition, id: string)
    returns (created: Result<(Envelope, ETag), AdapterError>, read: Result<Option<Stored>, AdapterError>)
    requires repo.cache.digest == Canonical
    modifies repo`cache, repo.transport, repo.transport.fake
    ensures old(repo.transport.log) <= repo.transport.log
    ensures created.Ok? && read.Ok? ==>
              forall spaces: seq<Contents> {:trigger Explained(spaces, repo.transport.log, |old(repo.transport.log)|)} ::
                Explained(spaces, repo.transport.log, |old(repo.transport.log)|) ==>
                CreateReads(spaces, e, id, created.value, read.value)
    ensures old(repo.transport.Tracked(repo.spaceId)) ==>
              HasHistory(repo.transport.log, |old(repo.transport.log)|, old(ContentsOf(repo.transport.fake.objects, repo.spaceId)))
  {
    hide Claims, UpToDate, Explained, RefreshedFrom, ValidEnvelope, NormalEnvelope, TagOf, AfterCreate, MutatedOnce;
    hide Refreshed, Matching, ReadBack, TookStale, NoStale, EnsureCollection, CreateReads, ScriptRun, ContentsOf;
    ghost var before, trail := repo.transport.log, repo.transport.trail;
    ghost var start := repo.cache;
    ghost var m, refresh;
    read := Ok(None);
    created, m := repo.CreateResource(e, condition);
    ghost var mid, cache := repo.transport.log, repo.cache;
    if created.Ok? {
      CreateChecks(Prepared(start, e).value, e, condition);
      EnsureDigest(start, Collection(e.collectionId, CollectionName(e.kind)));
      read, refresh := repo.GetResource(id);
      if read.Ok? {
        forall spaces: seq<Contents> | Explained(spaces, repo.transport.log, |before|)
          ensures CreateReads(spaces, e, id, created.value, read.value)
        {
          CreateReadsBack(repo, spaces, before, mid, repo.transport.log, m, e, created.value, cache, refresh, repo.cache, id);
        }
      }
    }
    if old(repo.transport.Tracked(repo.spaceId)) {
      ScriptLength(trail, repo.spaceId, before);
      ScriptHasHistory(repo.transport.trail, trail, repo.spaceId, repo.transport.log, |before|);
    }
  }

  /** A caller can make sure of it: a cache that was just refreshed refuses what the space knows, by
      its id or by its UID, whichever has no carriage return. */
  lemma RefreshedKnowsStale(objects: Contents, clock: U64, configured: seq<Collection>, cache: Repo, e: Envelope,
                            condition: WriteCondition)
    requires Refreshed(Canonical, clock, Live(objects), configured) == Ok(cache) && Served(e.kind)
    requires '\r' !in e.resourceId || '\r' !in e.davUid
    ensures PreflightCreate(cache, e, condition).Ok? ==> NoStale(objects, e)
  {
    hide Refreshed, Live, Claims, TagOf, UpToDate, PreflightCreate;
    NormalExactly(e.resourceId);
    NormalExactly(e.davUid);
    if !NoStale(objects, e) {
      var id :| id in objects && Claims(objects[id], e) && !UpToDate(objects[id], e);
      ClaimIsShown(objects, clock, configured, id, e);
      KnownIsRefused(cache, e, condition, NormalizeLineEnds(e.resourceId));
    }
  }

  lemma KnownIsRefused(cache: Repo, e: Envelope, condition: WriteCondition, key: string)
    requires key in cache.resources && (key == e.resourceId || cache.resources[key].envelope.davUid == e.davUid)
    ensures PreflightCreate(cache, e, condition).Err?
  {
    var ready := Prepared(cache, e);
    if ready.Ok? {
      assert ready.value.resources == cache.resources;
      assert SharesIdentity(cache.resources[key], e) || key == e.resourceId;
    }
  }

  // ----- update, then read ------------------------------------------------

  lemma UpdatedIsHeld(repo: AnytypeRepository, log: seq<Exchange>, m: nat, e: Envelope, before: Contents, after: Contents)
    requires repo.SentAt(log, m, e) && repo.Shown(log, m, Updating) && log[m].kind == Updating
    requires Changes(before, Updating, log[m].record, log[m].answer, after) && ReadsOf(log, m + 1, after)
    ensures e.objectId in after && after[e.objectId].body == CanonicalBody(e) && !after[e.objectId].archived
  {
    if log[m].answer.Err? {
      var k :| m + 1 <= k < |log| && log[k].Reading? && log[k].answer.Ok? &&
               MutationMatches(log[m].record, log[k].answer.value, Updating);
      assert Explains(after, log[k], after);
    }
  }

  lemma UpdateReadsBack(repo: AnytypeRepository, spaces: seq<Contents>, before: seq<Exchange>, mid: seq<Exchange>,
                        log: seq<Exchange>, m: nat, e: Envelope, cache: Repo, refresh: Refresh, after: Repo, id: string)
    requires Explained(spaces, log, |before|) && MutatedOnce(before, mid, m, Updating) && OnlyRead(mid, log)
    requires repo.SentAt(mid, m, e) && repo.Shown(mid, m, Updating) && ValidEnvelope(e)
    requires RefreshedFrom(cache, mid, log, refresh, after) && cache.digest == Canonical
    ensures ReadBack(Looked(after, id), (e, TagOf(e))) <==> Readable(e, id)
  {
    hide Claims, UpToDate, Refreshed, Live, Changes, ValidEnvelope, RefreshedFrom, ReadsOf, NormalEnvelope, TagOf;
    hide Explained, Explains, MutatedOnce;
    WriteStands(spaces, before, mid, log, m, Updating, cache, refresh, after);
    var last := spaces[|log| - |before|];
    OnceKind(before, mid, m, Updating);
    UpdatedIsHeld(repo, mid, m, e, spaces[0], last);
    HeldReadsBack(last, refresh.clock, Configured(cache), e, after, id);
  }

  /** Where the object of `e` holds what `e` says, a read shows it exactly where it can be read. */
  lemma HeldReadsBack(objects: Contents, clock: U64, configured: seq<Collection>, e: Envelope, after: Repo, id: string)
    requires e.objectId in objects && objects[e.objectId].body == CanonicalBody(e) && !objects[e.objectId].archived
    requires ValidEnvelope(e) && Refreshed(Canonical, clock, Live(objects), configured) == Ok(after)
    ensures ReadBack(Looked(after, id), (e, TagOf(e))) <==> Readable(e, id)
  {
    hide Claims, UpToDate, Refreshed, Live, ValidEnvelope, NormalEnvelope, TagOf;
    WrittenIsCurrent(objects[e.objectId], e);
    CurrentTag(objects[e.objectId], e);
    if ReadBack(Looked(after, id), (e, TagOf(e))) {
      ShownWhereReadable(objects, clock, configured, e.objectId, e, id);
    }
    if Readable(e, id) {
      ClaimIsShown(objects, clock, configured, e.objectId, e);
    }
  }

  lemma OnceKind(before: seq<Exchange>, log: seq<Exchange>, m: nat, kind: Kind)
    requires MutatedOnce(before, log, m, kind)
    ensures m < |log| && log[m].Mutating? && log[m].kind == kind
  {
  }

  lemma CurrentTag(record: ObjectRecord, e: Envelope)
    requires Claims(record, e) && UpToDate(record, e) && record.id == e.objectId
    ensures TagOf(Returned(record.body.envelope, e.objectId)) == TagOf(e)
  {
    assert Returned(e, e.objectId) == e;
  }

  /** An update that succeeded is read back exactly where what was sent can be read: the object has an
      id of its own, so no other can be taken for it. */
  method UpdateThenRead(repo: AnytypeRepository, e: Envelope, condition: WriteCondition, id: string)
    returns (updated: Result<(Envelope, ETag), AdapterError>, read: Result<Option<Stored>, AdapterError>)
    requires repo.cache.digest == Canonical
    modifies repo`cache, repo.transport, repo.transport.fake
    ensures old(repo.transport.log) <= repo.transport.log
    ensures updated.Ok? && read.Ok? ==>
              forall spaces: seq<Contents> {:trigger Explained(spaces, repo.transport.log, |old(repo.transport.log)|)} ::
                Explained(spaces, repo.transport.log, |old(repo.transport.log)|) ==>
                (ReadBack(read.value, updated.value) <==> Readable(e, id))
    ensures old(repo.transport.Tracked(repo.spaceId)) ==>
              HasHistory(repo.transport.log, |old(repo.transport.log)|, old(ContentsOf(repo.transport.fake.objects, repo.spaceId)))
  {
    hide Claims, UpToDate, Explained, RefreshedFrom, ValidEnvelope, NormalEnvelope, TagOf, AfterUpdate;
    hide Refreshed, Matching, EnsureCollection, ReadBack, Readable, ScriptRun, ContentsOf;
    ghost var before, trail := repo.transport.log, repo.transport.trail;
    ghost var m, refresh, checked;
    read := Ok(None);
    updated, m, refresh, checked := repo.UpdateResource(e, condition);
    ghost var mid, cache := repo.transport.log, repo.cache;
    if updated.Ok? {
      UpdateChecks(Prepared(checked, e).value, e, condition);
      UpdateAnswers(Prepared(checked, e).value, e, condition);
      read, refresh := repo.GetResource(id);
      if read.Ok? {
        forall spaces: seq<Contents> | Explained(spaces, repo.transport.log, |before|)
          ensures ReadBack(read.value, updated.value) <==> Readable(e, id)
        {
          UpdateReadsBack(repo, spaces, before, mid, repo.transport.log, m, e, cache, refresh, repo.cache, id);
        }
      }
    }
    if old(repo.transport.Tracked(repo.spaceId)) {
      ScriptLength(trail, repo.spaceId, before);
      ScriptHasHistory(repo.transport.trail, trail, repo.spaceId, repo.transport.log, |before|);
    }
  }

  // ----- archive or delete, then read -------------------------------------

  /** Once the object of a resource is archived or gone, a refresh no longer shows the resource. */
  lemma GoneIsNotShown(before: Contents, after: Contents, target: string, digest: Digest, one: U64, other: U64,
                       a: seq<Collection>, b: seq<Collection>, id: string)
    requires Refreshed(digest, one, Live(before), a).Ok? && Refreshed(digest, other, Live(after), b).Ok?
    requires var r := Refreshed(digest, one, Live(before), a).value;
             id in r.resources && r.resources[id].envelope.objectId == target
    requires target in after ==> after[target].archived
    requires forall k :: k in after && k != target ==> k in before && before[k] == after[k]
    ensures id !in Refreshed(digest, other, Live(after), b).value.resources
  {
    hide Refreshed, Live, StageObject;
    if id in Refreshed(digest, other, Live(after), b).value.resources {
      var i, owned := ShownIsListed(digest, other, Live(after), b, id);
      var record := Live(after)[i];
      LiveIs(after, record);
      LiveIs(before, record);
      var j :| 0 <= j < |Live(before)| && Live(before)[j] == record;
      ListedIsShown(digest, one, Live(before), a, j, owned);
      assert false;
    }
  }

  ghost predicate Removed(before: Contents, after: Contents, target: string) {
    (target in after ==> after[target].archived) && forall k :: k in after && k != target ==> k in before && before[k] == after[k]
  }

  lemma RemovalReads(spaces: seq<Contents>, before: seq<Exchange>, mid: seq<Exchange>, log: seq<Exchange>, m: nat, kind: Kind,
                     id: string, target: string, first: Repo, one: Refresh, checked: Repo, cache: Repo, other: Refresh, after: Repo)
    requires Explained(spaces, log, |before|) && MutatedOnce(before, mid, m, kind) && OnlyRead(mid, log)
    requires RefreshedFrom(first, before, mid[..m], one, checked) && OnlyRead(before, mid[..m])
    requires RefreshedFrom(cache, mid, log, other, after) && first.digest == cache.digest
    requires id in checked.resources && checked.resources[id].envelope.objectId == target
    requires Removed(spaces[0], spaces[|log| - |before|], target)
    ensures id !in after.resources
  {
    hide Refreshed, Live, Changes, RefreshedFrom, ReadsOf, Explains;
    WriteStands(spaces, before, mid, log, m, kind, cache, other, after);
    FirstRead(spaces, before, mid, log, m, first, one, checked);
    GoneIsNotShown(spaces[0], spaces[|log| - |before|], target, cache.digest, one.clock, other.clock,
                   Configured(first), Configured(cache), id);
  }

  lemma ExplainedFront(spaces: seq<Contents>, log: seq<Exchange>, from: nat, m: nat)
    requires Explained(spaces, log, from) && from <= m <= |log|
    ensures Explained(spaces[..m - from + 1], log[..m], from)
  {
    hide Explains;
    var front, prefix := spaces[..m - from + 1], log[..m];
    forall k | from <= k < m ensures ExplainedAt(front, prefix, from, k) {
      assert ExplainedAt(spaces, log, from, k);
    }
  }

  lemma ArchivedIsRemoved(log: seq<Exchange>, m: nat, sent: ObjectRecord, before: Contents, after: Contents)
    requires m < |log| && log[m].Mutating? && log[m].record == sent && ReadsOf(log, m + 1, after)
    requires Changes(before, Archiving, sent, log[m].answer, after) && ShownBy(log, m + 1, sent, Archiving)
    ensures Removed(before, after, sent.id)
  {
    var k :| m + 1 <= k < |log| && log[k].Reading? && log[k].answer.Ok? && MutationMatches(sent, log[k].answer.value, Archiving);
    assert Explains(after, log[k], after);
  }

  lemma ArchiveReads(spaces: seq<Contents>, before: seq<Exchange>, mid: seq<Exchange>, log: seq<Exchange>, m: nat, id: string,
                     first: Repo, one: Refresh, checked: Repo, cache: Repo, other: Refresh, after: Repo)
    requires Explained(spaces, log, |before|) && MutatedOnce(before, mid, m, Archiving) && OnlyRead(mid, log)
    requires RefreshedFrom(first, before, mid[..m], one, checked) && OnlyRead(before, mid[..m])
    requires RefreshedFrom(cache, mid, log, other, after) && first.digest == cache.digest
    requires id in checked.resources && checked.resources[id].envelope.objectId == mid[m].record.id
    requires ShownBy(mid, m + 1, mid[m].record, Archiving)
    ensures id !in after.resources
  {
    hide Explained, Explains, RefreshedFrom, Refreshed, Changes, ReadsOf, MutatedOnce, Removed, ShownBy;
    WriteStands(spaces, before, mid, log, m, Archiving, cache, other, after);
    ArchivedIsRemoved(mid, m, mid[m].record, spaces[0], spaces[|log| - |before|]);
    RemovalReads(spaces, before, mid, log, m, Archiving, id, mid[m].record.id, first, one, checked, cache, other, after);
  }

  /** After an archive that succeeded, a read that succeeds no longer finds the resource. */
  method ArchiveThenRead(repo: AnytypeRepository, id: string, condition: WriteCondition)
    returns (archived: Result<Stored, AdapterError>, read: Result<Option<Stored>, AdapterError>)
    modifies repo`cache, repo.transport, repo.transport.fake
    ensures old(repo.transport.log) <= repo.transport.log
    ensures archived.Ok? && read.Ok? ==>
              forall spaces: seq<Contents> {:trigger Explained(spaces, repo.transport.log, |old(repo.transport.log)|)} ::
                Explained(spaces, repo.transport.log, |old(repo.transport.log)|) ==> read.value == None
    ensures old(repo.transport.Tracked(repo.spaceId)) ==>
              HasHistory(repo.transport.log, |old(repo.transport.log)|, old(ContentsOf(repo.transport.fake.objects, repo.spaceId)))
  {
    hide Explained, RefreshedFrom, AfterArchive, Refreshed, Matching, Changes, ReadsOf, ScriptRun, ContentsOf;
    ghost var before, first, trail := repo.transport.log, repo.cache, repo.transport.trail;
    ghost var m, one, checked, other;
    read := Ok(None);
    archived, m, one, checked := repo.ArchiveResource(id, condition);
    ghost var mid, cache := repo.transport.log, repo.cache;
    if archived.Ok? {
      read, other := repo.GetResource(id);
      if read.Ok? {
        forall spaces: seq<Contents> | Explained(spaces, repo.transport.log, |before|)
          ensures read.value == None
        {
          ArchiveReads(spaces, before, mid, repo.transport.log, m, id, first, one, checked, cache, other, repo.cache);
        }
      }
    }
    if old(repo.transport.Tracked(repo.spaceId)) {
      ScriptLength(trail, repo.spaceId, before);
      ScriptHasHistory(repo.transport.trail, trail, repo.spaceId, repo.transport.log, |before|);
    }
  }

  /** The object is archived or no longer there. */
  predicate Gone(objects: Contents, target: string) {
    target in objects ==> objects[target].archived
  }

  /** A delete removes the object or archives it, if it does anything, and does when it is answered. */
  lemma DeletedIsRemoved(sent: ObjectRecord, answer: Result<ObjectRecord, TransportError>, before: Contents, after: Contents)
    requires Changes(before, Deleting, sent, answer, after)
    ensures answer.Ok? ==> Gone(after, sent.id)
    ensures Gone(after, sent.id) ==> Removed(before, after, sent.id)
    ensures !Gone(after, sent.id) ==> after == before
  {
  }

  /** Refreshing again from the same space shows a resource again. */
  lemma ShownAgain(objects: Contents, digest: Digest, one: U64, other: U64, a: seq<Collection>, b: seq<Collection>, id: string)
    requires Refreshed(digest, one, Live(objects), a).Ok? && Refreshed(digest, other, Live(objects), b).Ok?
    requires id in Refreshed(digest, one, Live(objects), a).value.resources
    ensures Looked(Refreshed(digest, other, Live(objects), b).value, id).Some?
  {
    hide Refreshed, Live, StageObject;
    var i, owned := ShownIsListed(digest, one, Live(objects), a, id);
    ListedIsShown(digest, other, Live(objects), b, i, owned);
    StagedIsServed(Live(objects)[i], digest, owned);
  }

  lemma StagedIsServed(record: ObjectRecord, digest: Digest, owned: Envelope)
    requires StageObject(record, digest) == Ok(Some(owned))
    ensures Served(owned.kind)
  {
  }

  lemma DeleteReads(spaces: seq<Contents>, before: seq<Exchange>, mid: seq<Exchange>, log: seq<Exchange>, m: nat, id: string,
                    first: Repo, one: Refresh, checked: Repo, cache: Repo, other: Refresh, after: Repo)
    requires Explained(spaces, log, |before|) && MutatedOnce(before, mid, m, Deleting) && OnlyRead(mid, log)
    requires RefreshedFrom(first, before, mid[..m], one, checked) && OnlyRead(before, mid[..m])
    requires RefreshedFrom(cache, mid, log, other, after) && first.digest == cache.digest
    requires id in checked.resources && checked.resources[id].envelope.objectId == mid[m].record.id
    ensures DeleteTells(spaces, mid[m].record.id, mid[m].answer.Ok?, Looked(after, id))
  {
    hide Explained, Explains, RefreshedFrom, Refreshed, Changes, ReadsOf, MutatedOnce, Removed, Gone;
    WriteStands(spaces, before, mid, log, m, Deleting, cache, other, after);
    var last, target := spaces[|log| - |before|], mid[m].record.id;
    DeletedIsRemoved(mid[m].record, mid[m].answer, spaces[0], last);
    if Gone(last, target) {
      RemovalReads(spaces, before, mid, log, m, Deleting, id, target, first, one, checked, cache, other, after);
    } else {
      FirstRead(spaces, before, mid, log, m, first, one, checked);
      ShownAgain(last, cache.digest, one.clock, other.clock, Configured(first), Configured(cache), id);
    }
  }

  /** What the refresh before a mutation read. */
  lemma FirstRead(spaces: seq<Contents>, before: seq<Exchange>, mid: seq<Exchange>, log: seq<Exchange>, m: nat,
                  first: Repo, one: Refresh, checked: Repo)
    requires Explained(spaces, log, |before|) && |before| <= m <= |mid| && mid <= log
    requires RefreshedFrom(first, before, mid[..m], one, checked) && OnlyRead(before, mid[..m])
    ensures |spaces| > 0 && Refreshed(first.digest, one.clock, Live(spaces[0]), Configured(first)) == Ok(checked)
  {
    hide Refreshed, Live, RefreshedFrom, Explains;
    var n := m - |before|;
    assert mid[..m] == log[..m];
    ExplainedFront(spaces, log, |before|, m);
    RefreshReadsLive(spaces[..n + 1], |before|, before, mid[..m], first, one, checked);
  }

  /** What a read after a delete shows: nothing exactly when the object is gone, as it is when the
      delete was answered. */
  ghost predicate DeleteTells(spaces: seq<Contents>, target: string, answered: bool, read: Option<Stored>) {
    spaces != [] && (read == None <==> Gone(spaces[|spaces| - 1], target)) && (answered ==> Gone(spaces[|spaces| - 1], target))
  }

  /** After a delete that reported success, a read that succeeds no longer finds the resource exactly
      when its object is gone: always when the delete was answered, and not when it timed out, was not
      made, and the timeout could not be resolved, which is reported as success all the same. */
  method DeleteThenRead(repo: AnytypeRepository, id: string, condition: WriteCondition)
    returns (deleted: Result<Stored, AdapterError>, read: Result<Option<Stored>, AdapterError>, ghost m: nat)
    modifies repo`cache, repo.transport, repo.transport.fake
    ensures old(repo.transport.log) <= repo.transport.log
    ensures deleted.Ok? ==> |old(repo.transport.log)| <= m < |repo.transport.log| && repo.transport.log[m].Mutating?
    ensures deleted.Ok? && read.Ok? ==>
              forall spaces: seq<Contents> {:trigger Explained(spaces, repo.transport.log, |old(repo.transport.log)|)} ::
                Explained(spaces, repo.transport.log, |old(repo.transport.log)|) ==>
                DeleteTells(spaces, repo.transport.log[m].record.id, repo.transport.log[m].answer.Ok?, read.value)
    ensures old(repo.transport.Tracked(repo.spaceId)) ==>
              HasHistory(repo.transport.log, |old(repo.transport.log)|, old(ContentsOf(repo.transport.fake.objects, repo.spaceId)))
  {
    hide Explained, RefreshedFrom, AfterDelete, Refreshed, Matching, Changes, ReadsOf, ScriptRun, ContentsOf, DeleteTells;
    ghost var before, first, trail := repo.transport.log, repo.cache, repo.transport.trail;
    ghost var one, checked, other;
    read := Ok(None);
    deleted, m, one, checked := repo.DeleteResource(id, condition);
    ghost var mid, cache := repo.transport.log, repo.cache;
    if deleted.Ok? {
      read, other := repo.GetResource(id);
      if read.Ok? {
        assert mid[m] == repo.transport.log[m];
        forall spaces: seq<Contents> | Explained(spaces, repo.transport.log, |before|)
          ensures DeleteTells(spaces, mid[m].record.id, mid[m].answer.Ok?, read.value)
        {
          DeleteReads(spaces, before, mid, repo.transport.log, m, id, first, one, checked, cache, other, repo.cache);
        }
      }
    }
    if old(repo.transport.Tracked(repo.spaceId)) {
      ScriptLength(trail, repo.spaceId, before);
      ScriptHasHistory(repo.transport.trail, trail, repo.spaceId, repo.transport.log, |before|);
    }
  }
}
