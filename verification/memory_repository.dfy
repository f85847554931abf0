/** The in-memory repository: a class whose methods do what `Repository.Step` says. */
module MemoryRepository {
  import opened Wrappers
  import opened Text
  import opened Envelope
  import opened Repository

  /** The entries whose keys are listed, in that order. */
  function Entries<T>(m: map<string, T>, keys: seq<string>): seq<T> {
    if keys == [] then []
    else (if keys[0] in m then [m[keys[0]]] else []) + Entries(m, keys[1..])
  }

  predicate Listed(stored: Stored, collectionId: string, includeArchived: bool) {
    stored.envelope.collectionId == collectionId && (includeArchived || !stored.archived)
  }

  function Selected(resources: map<string, Stored>, collectionId: string, includeArchived: bool): map<string, Stored> {
    map k | k in resources && Listed(resources[k], collectionId, includeArchived) :: resources[k]
  }

  lemma EntriesStep<T>(m: map<string, T>, keys: seq<string>, k: nat)
    requires k < |keys|
    ensures Entries(m, keys[..k + 1]) ==
            Entries(m, keys[..k]) + (if keys[k] in m then [m[keys[k]]] else [])
  {
    EntriesConcat(m, keys[..k], [keys[k]]);
    assert keys[..k + 1] == keys[..k] + [keys[k]];
  }

  lemma {:induction false} EntriesConcat<T>(m: map<string, T>, a: seq<string>, b: seq<string>)
    ensures Entries(m, a + b) == Entries(m, a) + Entries(m, b)
  {
    if a == [] {
      assert a + b == b;
    } else {
      assert (a + b)[1..] == a[1..] + b;
      EntriesConcat(m, a[1..], b);
    }
  }

  /** The list has what the map holds at these keys, which ascend. */
  predicate ListsAt<T(==)>(listed: seq<T>, m: map<string, T>, ids: seq<string>) {
    StrictlySorted(ids) && |ids| == |listed| && forall k :: 0 <= k < |ids| ==> ids[k] in m && listed[k] == m[ids[k]]
  }

  /** The list has, for each wanted key and in the order of the keys, what the map holds there. */
  ghost predicate Enumerates<T>(listed: seq<T>, m: map<string, T>, wanted: set<string>) {
    exists ids: seq<string> :: ListsAt(listed, m, ids) && forall id :: id in ids <==> id in wanted
  }

  /** The keys that are in the map, in their order. */
  function Present<T>(m: map<string, T>, keys: seq<string>): seq<string> {
    if keys == [] then [] else (if keys[0] in m then [keys[0]] else []) + Present(m, keys[1..])
  }

  lemma {:induction false} PresentAre<T>(m: map<string, T>, keys: seq<string>)
    ensures forall id :: id in Present(m, keys) <==> id in keys && id in m
  {
    if keys != [] {
      assert keys == [keys[0]] + keys[1..];
      PresentAre(m, keys[1..]);
    }
  }

  lemma ListsBehind<T>(listed: seq<T>, m: map<string, T>, ids: seq<string>, first: string)
    requires ListsAt(listed, m, ids) && first in m && forall id :: id in ids ==> Less(first, id)
    ensures ListsAt([m[first]] + listed, m, [first] + ids)
  {
  }

  lemma {:induction false} EntriesAreListed<T>(m: map<string, T>, keys: seq<string>)
    requires StrictlySorted(keys)
    ensures ListsAt(Entries(m, keys), m, Present(m, keys))
  {
    if keys != [] {
      hide ListsAt;
      var first, rest := keys[0], keys[1..];
      assert keys == [first] + rest;
      EntriesAreListed(m, rest);
      PresentAre(m, rest);
      if first in m {
        forall id | id in Present(m, rest) ensures Less(first, id) {
          var k :| 0 <= k < |rest| && rest[k] == id;
          assert keys[k + 1] == id;
        }
        ListsBehind(Entries(m, rest), m, Present(m, rest), first);
      } else {
        assert [] + Present(m, rest) == Present(m, rest) && [] + Entries(m, rest) == Entries(m, rest);
      }
    }
  }

  lemma SelectedIsEnumerated<T>(m: map<string, T>, selected: map<string, T>)
    requires forall k :: k in selected ==> k in m && selected[k] == m[k]
    ensures Enumerates(Entries(selected, SortedKeys(m.Keys)), m, selected.Keys)
  {
    SortedKeysAscend(m.Keys);
    EnumeratedBy(m, selected, SortedKeys(m.Keys));
  }

  lemma EnumeratedBy<T>(m: map<string, T>, selected: map<string, T>, keys: seq<string>)
    requires forall k :: k in selected ==> k in m && selected[k] == m[k]
    requires StrictlySorted(keys) && forall k :: k in keys <==> k in m
    ensures Enumerates(Entries(selected, keys), m, selected.Keys)
  {
    hide StrictlySorted, Entries, Present;
    var ids := Present(selected, keys);
    EntriesAreListed(selected, keys);
    PresentAre(selected, keys);
    assert ListsAt(Entries(selected, keys), m, ids);
    assert forall id :: id in ids <==> id in selected.Keys;
  }

  method Collect<T>(m: map<string, T>, keys: seq<string>) returns (listed: seq<T>)
    requires forall k :: k in keys ==> k in m
    ensures listed == Entries(m, keys)
  {
    listed := [];
    for k := 0 to |keys|
      invariant listed == Entries(m, keys[..k])
    {
      EntriesStep(m, keys, k);
      assert keys[k] in keys;
      listed := listed + [m[keys[k]]];
    }
    assert keys[..|keys|] == keys;
  }

  method Select(resources: map<string, Stored>, keys: seq<string>, collectionId: string, includeArchived: bool)
    returns (listed: seq<Stored>)
    requires forall k :: k in keys ==> k in resources
    ensures listed == Entries(Selected(resources, collectionId, includeArchived), keys)
  {
    listed := [];
    ghost var selected := Selected(resources, collectionId, includeArchived);
    for k := 0 to |keys|
      invariant listed == Entries(selected, keys[..k])
    {
      EntriesStep(selected, keys, k);
      assert keys[k] in keys;
      var stored := resources[keys[k]];
      if stored.envelope.collectionId == collectionId && (includeArchived || !stored.archived) {
        listed := listed + [stored];
      }
    }
    assert keys[..|keys|] == keys;
  }

  class MemoryRepository {
    const digest: Digest
    var collections: map<string, Collection>
    var resources: map<string, Stored>
    var failures: seq<FailureMode>
    var clock: U64

    ghost function Now(): Repo
      reads this
    {
      Repo(digest, collections, resources, failures, clock)
    }

    constructor (digest: Digest, now: U64)
      ensures Now() == Empty(digest, now) && Valid(Now())
    {
      this.digest := digest;
      collections, resources, failures, clock := map[], map[], [], now;
    }

    method SetClockSeconds(seconds: U64)
      modifies this
      ensures Now() == Step(old(Now()), SetClock(seconds)).0
    {
      clock := seconds;
    }

    method QueueFailure(mode: FailureMode)
      modifies this
      ensures Now() == Step(old(Now()), InjectFailure(mode)).0
    {
      failures := failures + [mode];
    }

    /** Uses up the first queued failure if it is the expected one. */
    method TakeFailure(expected: FailureMode) returns (taken: bool)
      modifies this`failures
      ensures taken == (old(failures) != [] && old(failures)[0] == expected)
      ensures failures == if taken then old(failures)[1..] else old(failures)
    {
      taken := failures != [] && failures[0] == expected;
      if taken {
        failures := failures[1..];
      }
    }

    method CheckReadFailure() returns (r: Option<RepoError>)
      modifies this`failures
      ensures r.Some? == Fails(old(Now()), READ_FAILURES)
      ensures r.Some? ==> r.value == Failed(old(failures)[0]) && failures == old(failures)[1..]
      ensures r.None? ==> failures == old(failures)
    {
      var taken := TakeFailure(Timeout);
      if taken { return Some(Failed(Timeout)); }
      taken := TakeFailure(MalformedState);
      if taken { return Some(Failed(MalformedState)); }
      taken := TakeFailure(ReadAfterWriteDelay);
      if taken { return Some(Failed(ReadAfterWriteDelay)); }
      return None;
    }

    method CheckWriteFailure() returns (r: Option<RepoError>)
      modifies this`failures
      ensures r.Some? == Fails(old(Now()), WRITE_FAILURES)
      ensures r.Some? ==> r.value == Failed(old(failures)[0]) && failures == old(failures)[1..]
      ensures r.None? ==> failures == old(failures)
    {
      var taken := TakeFailure(Timeout);
      if taken { return Some(Failed(Timeout)); }
      taken := TakeFailure(MalformedState);
      if taken { return Some(Failed(MalformedState)); }
      return None;
    }

    /** Walks the stored resources in key order until one shares an identity with `e`. */
    method IdentitiesInUse(e: Envelope, exempt: Option<string>) returns (found: bool)
      ensures found == IdentityInUse(resources, e, exempt)
    {
      var keys := SortedKeys(resources.Keys);
      for k := 0 to |keys|
        invariant forall i :: 0 <= i < k ==>
                    exempt == Some(resources[keys[i]].envelope.resourceId) || !SharesIdentity(resources[keys[i]], e)
      {
        assert keys[k] in keys;
        var stored := resources[keys[k]];
        if exempt != Some(stored.envelope.resourceId) &&
           (stored.envelope.objectId == e.objectId || stored.envelope.davUid == e.davUid) {
          return true;
        }
      }
      return false;
    }

    method ListCollections() returns (r: Result<seq<Collection>, RepoError>)
      modifies this`failures
      ensures (Now(), if r.Ok? then Done else Refused(r.error)) == Step(old(Now()), Call.ListCollections)
      ensures r.Ok? ==> Enumerates(r.value, collections, collections.Keys)
    {
      var failed := CheckReadFailure();
      if failed.Some? { return Err(failed.value); }
      var listed := Collect(collections, SortedKeys(collections.Keys));
      SelectedIsEnumerated(collections, collections);
      return Ok(listed);
    }

    method GetCollection(id: string) returns (r: Result<Option<Collection>, RepoError>)
      modifies this`failures
      ensures (Now(), if r.Ok? then Done else Refused(r.error)) == Step(old(Now()), Call.GetCollection(id))
      ensures r.Ok? ==> r.value == if id in collections then Some(collections[id]) else None
    {
      var failed := CheckReadFailure();
      if failed.Some? { return Err(failed.value); }
      return Ok(if id in collections then Some(collections[id]) else None);
    }

    method CreateCollection(collection: Collection) returns (r: Result<(), RepoError>)
      modifies this
      ensures (Now(), if r.Ok? then Done else Refused(r.error)) == Step(old(Now()), Call.CreateCollection(collection))
    {
      var failed := CheckWriteFailure();
      if failed.Some? { return Err(failed.value); }
      var duplicate := TakeFailure(DuplicateWrite);
      if duplicate || collection.id in collections {
        return Err(CollectionAlreadyExists(collection.id));
      }
      collections := collections[collection.id := collection];
      return Ok(());
    }

    method DeleteCollection(id: string) returns (r: Result<(), RepoError>)
      modifies this
      ensures (Now(), if r.Ok? then Done else Refused(r.error)) == Step(old(Now()), Call.DeleteCollection(id))
    {
      var failed := CheckWriteFailure();
      if failed.Some? { return Err(failed.value); }
      if id !in collections {
        return Err(CollectionNotFound(id));
      }
      collections := collections - {id};
      resources := map k | k in resources && resources[k].envelope.collectionId != id :: resources[k];
      return Ok(());
    }

    /** The collection's resources in id order, archived ones only on request. */
    method ListResources(collectionId: string, includeArchived: bool) returns (r: Result<seq<Stored>, RepoError>)
      modifies this`failures
      ensures (Now(), if r.Ok? then Done else Refused(r.error))
           == Step(old(Now()), Call.ListResources(collectionId, includeArchived))
      ensures r.Ok? ==>
                Enumerates(r.value, resources,
                           set id | id in resources && resources[id].envelope.collectionId == collectionId &&
                                    (includeArchived || !resources[id].archived))
    {
      var failed := CheckReadFailure();
      if failed.Some? { return Err(failed.value); }
      if collectionId !in collections {
        return Err(CollectionNotFound(collectionId));
      }
      var listed := Select(resources, SortedKeys(resources.Keys), collectionId, includeArchived);
      SelectedIsEnumerated(resources, Selected(resources, collectionId, includeArchived));
      return Ok(listed);
    }

    method GetResource(id: string) returns (r: Result<Option<Stored>, RepoError>)
      modifies this`failures
      ensures (Now(), if r.Ok? then Done else Refused(r.error)) == Step(old(Now()), Call.GetResource(id))
      ensures r.Ok? ==> r.value == Current(Now(), id)
    {
      var failed := CheckReadFailure();
      if failed.Some? { return Err(failed.value); }
      return Ok(if id in resources then Some(resources[id]) else None);
    }

    method CreateResource(envelope: Envelope, condition: WriteCondition) returns (r: Result<Stored, RepoError>)
      modifies this
      ensures (Now(), if r.Ok? then Wrote(r.value) else Refused(r.error))
           == Step(old(Now()), Call.CreateResource(envelope, condition))
    {
      var failed := CheckWriteFailure();
      if failed.Some? { return Err(failed.value); }
      if !digest.valid(envelope) { return Err(InvalidEnvelope); }
      if envelope.collectionId !in collections { return Err(CollectionNotFound(envelope.collectionId)); }
      var current := if envelope.resourceId in resources then Some(resources[envelope.resourceId]) else None;
      var unmet := CheckCondition(condition, current);
      if unmet.Some? { return Err(unmet.value); }
      if current.Some? { return Err(ResourceAlreadyExists(envelope.resourceId)); }
      var duplicate := TakeFailure(DuplicateWrite);
      if duplicate { return Err(ResourceAlreadyExists(envelope.resourceId)); }
      var taken := IdentitiesInUse(envelope, None);
      if taken { return Err(IdentityAlreadyExists); }
      var stored := Stored(envelope, digest.tag(envelope), false, clock);
      clock := After(clock, clock);
      resources := resources[envelope.resourceId := stored];
      return Ok(stored);
    }

    method UpdateResource(envelope: Envelope, condition: WriteCondition) returns (r: Result<Stored, RepoError>)
      modifies this
      ensures (Now(), if r.Ok? then Wrote(r.value) else Refused(r.error))
           == Step(old(Now()), Call.UpdateResource(envelope, condition))
    {
      var failed := CheckWriteFailure();
      if failed.Some? { return Err(failed.value); }
      if !digest.valid(envelope) { return Err(InvalidEnvelope); }
      if envelope.collectionId !in collections { return Err(CollectionNotFound(envelope.collectionId)); }
      if envelope.resourceId !in resources { return Err(ResourceNotFound(envelope.resourceId)); }
      var current := resources[envelope.resourceId];
      var unmet := CheckCondition(condition, Some(current));
      if unmet.Some? { return Err(unmet.value); }
      var taken := IdentitiesInUse(envelope, Some(envelope.resourceId));
      if taken { return Err(IdentityAlreadyExists); }
      var next := envelope.(revision := Saturating(current.envelope.revision));
      var stored := Stored(next, digest.tag(next), current.archived, After(current.modifiedAt, clock));
      clock := stored.modifiedAt;
      resources := resources[next.resourceId := stored];
      return Ok(stored);
    }

    method ArchiveResource(id: string, condition: WriteCondition) returns (r: Result<Stored, RepoError>)
      modifies this
      ensures (Now(), if r.Ok? then Wrote(r.value) else Refused(r.error))
           == Step(old(Now()), Call.ArchiveResource(id, condition))
    {
      var failed := CheckWriteFailure();
      if failed.Some? { return Err(failed.value); }
      var refused := TakeFailure(ArchiveFailure);
      if refused { return Err(Failed(ArchiveFailure)); }
      if id !in resources { return Err(ResourceNotFound(id)); }
      var current := resources[id];
      var unmet := CheckCondition(condition, Some(current));
      if unmet.Some? { return Err(unmet.value); }
      var archived := current.(archived := true, modifiedAt := After(current.modifiedAt, clock));
      clock := archived.modifiedAt;
      resources := resources[id := archived];
      return Ok(archived);
    }

    method DeleteResource(id: string, condition: WriteCondition) returns (r: Result<Stored, RepoError>)
      modifies this
      ensures (Now(), if r.Ok? then Wrote(r.value) else Refused(r.error))
           == Step(old(Now()), Call.DeleteResource(id, condition))
    {
      var failed := CheckWriteFailure();
      if failed.Some? { return Err(failed.value); }
      if id !in resources { return Err(ResourceNotFound(id)); }
      var current := resources[id];
      var unmet := CheckCondition(condition, Some(current));
      if unmet.Some? { return Err(unmet.value); }
      resources := resources - {id};
      return Ok(current);
    }
  }
}
