/** The repository over a remote space: local checks first, one remote mutation at most, bounded
    reconciliation of ambiguous ones, and a cache that is replaced as a whole. */
module Adapter {
  import opened Wrappers
  import opened Text
  import opened Envelope
  import opened Repository
  import opened AnytypeObjects
  import opened F = FakeTransport
  import opened RemoteSpace
  import MemoryRepository

  /** What a refresh read, and the time it was given. */
  datatype Refresh = Refresh(listed: seq<ObjectRecord>, fetched: seq<ObjectRecord>, clock: U64)

  /** The cache `checked` is what refreshing `cache` from the reread space gives. */
  ghost predicate RefreshedFrom(cache: Repo, before: seq<Exchange>, log: seq<Exchange>, refresh: Refresh, checked: Repo) {
    Reread(before, log, refresh.listed, refresh.fetched) &&
    Refreshed(cache.digest, refresh.clock, refresh.fetched, Configured(cache)) == Ok(checked)
  }

  /** The result of refreshing `cache` at a time from a space that shows these objects. */
  ghost predicate RefreshedAs(cache: Repo, clock: U64, space: seq<ObjectRecord>, r: Result<(), AdapterError>, after: Repo) {
    match Refreshed(cache.digest, clock, space, Configured(cache))
    case Ok(renewed) => r == Ok(()) && after == renewed
    case Err(e) => r == Err(e) && after == cache
  }

  /** The collection of a written envelope is created where it is missing. */
  function Prepared(cache: Repo, e: Envelope): Result<Repo, AdapterError> {
    EnsureCollection(cache, Collection(e.collectionId, CollectionName(e.kind)))
  }

  // ----- local checks -----------------------------------------------------

  function PreflightCreate(cache: Repo, e: Envelope, condition: WriteCondition): Result<(), AdapterError> {
    match EnsureCollection(cache, Collection(e.collectionId, CollectionName(e.kind)))
    case Err(error) => Err(error)
    case Ok(ready) =>
      var reply := AfterCreate(ready, e, condition).1;
      if reply.Refused? then Err(Local(reply.error)) else Ok(())
  }

  function Refusal(reply: Reply): Result<(), AdapterError> {
    if reply.Refused? then Err(Local(reply.error)) else Ok(())
  }

  /** Properties that the remote refuses to take back. */
  predicate IsReserved(key: string) {
    Lower(key) in {"backlinks", "creator", "created_date", "last_modified_date", "last_modified_by", "links"}
  }

  function Carried(properties: seq<(string, string)>): seq<(string, string)> {
    if properties == [] then []
    else
      var last := properties[|properties| - 1];
      Carried(properties[..|properties| - 1]) + (if IsReserved(last.0) then [] else [last])
  }

  /** The same name, where the key may have capitals for small letters. */
  predicate Spells(key: string, name: string) {
    |key| == |name| &&
    forall i :: 0 <= i < |key| ==> key[i] == name[i] || ('a' <= name[i] <= 'z' && key[i] as int == name[i] as int - 32)
  }

  predicate SystemName(key: string) {
    Spells(key, "backlinks") || Spells(key, "creator") || Spells(key, "created_date") ||
    Spells(key, "last_modified_date") || Spells(key, "last_modified_by") || Spells(key, "links")
  }

  /** What was sent is what was read, in its order and with its repetitions, without the properties of
      the system: every property sent stood at a place of its own, and those places are all but the system's. */
  ghost predicate CarriesOver(read: seq<(string, string)>, sent: seq<(string, string)>) {
    exists places: seq<nat> :: CarriesAt(read, sent, places)
  }

  predicate CarriesAt(read: seq<(string, string)>, sent: seq<(string, string)>, places: seq<nat>) {
    |places| == |sent| && (forall j, k :: 0 <= j < k < |places| ==> places[j] < places[k]) &&
    (forall k :: 0 <= k < |sent| ==> places[k] < |read| && sent[k] == read[places[k]]) &&
    (forall i :: 0 <= i < |read| ==> (i in places <==> !SystemName(read[i].0)))
  }

  lemma LowerSpells(key: string, name: string)
    requires forall c :: c in name ==> !('A' <= c <= 'Z')
    ensures Lower(key) == name <==> Spells(key, name)
  {
    if Lower(key) == name {
      forall i | 0 <= i < |key|
        ensures key[i] == name[i] || ('a' <= name[i] <= 'z' && key[i] as int == name[i] as int - 32)
      {
        assert LowerChar(key[i]) == name[i];
      }
    } else if Spells(key, name) {
      forall i | 0 <= i < |key| ensures Lower(key)[i] == name[i] {
        assert name[i] in name;
      }
    }
  }

  lemma ReservedIsSystem(key: string)
    ensures IsReserved(key) <==> SystemName(key)
  {
    hide Spells, Lower;
    LowerSpells(key, "backlinks");
    LowerSpells(key, "creator");
    LowerSpells(key, "created_date");
    LowerSpells(key, "last_modified_date");
    LowerSpells(key, "last_modified_by");
    LowerSpells(key, "links");
  }

  lemma {:induction false} CarriedPlaces(read: seq<(string, string)>) returns (places: seq<nat>)
    ensures CarriesAt(read, Carried(read), places)
  {
    hide IsReserved, SystemName;
    if read == [] {
      places := [];
    } else {
      var n := |read| - 1;
      var before := CarriedPlaces(read[..n]);
      ReservedIsSystem(read[n].0);
      places := before + if IsReserved(read[n].0) then [] else [n];
      forall i | 0 <= i < |read| ensures i in places <==> !SystemName(read[i].0) {
        assert i < n ==> read[..n][i] == read[i];
      }
    }
  }

  /** A property is carried over if and only if it was read and is none of the system's. */
  lemma CarriedExactly(read: seq<(string, string)>, sent: seq<(string, string)>)
    requires CarriesOver(read, sent)
    ensures forall p :: p in sent <==> p in read && !SystemName(p.0)
  {
    hide SystemName;
    var places :| CarriesAt(read, sent, places);
    forall p | p in read && !SystemName(p.0) ensures p in sent {
      var i :| 0 <= i < |read| && read[i] == p;
      var k :| 0 <= k < |places| && places[k] == i;
      assert sent[k] == p;
    }
    forall p | p in sent ensures p in read && !SystemName(p.0) {
      var k :| 0 <= k < |sent| && sent[k] == p;
      assert places[k] in places;
    }
  }

  /** `push_update` collects the properties one by one. */
  method CarryForward(read: seq<(string, string)>) returns (sent: seq<(string, string)>)
    ensures sent == Carried(read) && CarriesOver(read, sent)
  {
    sent := [];
    for n := 0 to |read|
      invariant sent == Carried(read[..n])
    {
      assert read[..n + 1][..n] == read[..n];
      if !IsReserved(read[n].0) {
        sent := sent + [read[n]];
      }
    }
    assert read[..|read|] == read;
    ghost var places := CarriedPlaces(read);
  }

  // ----- the repository ---------------------------------------------------

  class AnytypeRepository {
    const transport: Transport
    const spaceId: string
    const maxReads: nat
    var cache: Repo

    constructor (transport: Transport, spaceId: string, maxReads: nat, cache: Repo)
      ensures this.transport == transport && this.spaceId == spaceId && this.cache == cache
      ensures this.maxReads == if maxReads == 0 then 1 else maxReads
    {
      this.transport := transport;
      this.spaceId := spaceId;
      this.maxReads := if maxReads == 0 then 1 else maxReads;
      this.cache := cache;
    }

    predicate Accepts(record: ObjectRecord, expected: Option<string>) {
      record.spaceId == spaceId && expected in {None, Some(record.id)}
    }

    /** The full object behind a listed one: listings may leave the body out. */
    method Complete(listed: ObjectRecord) returns (r: Result<ObjectRecord, AdapterError>)
      modifies transport`log, transport`trail, transport.fake`failure, transport.fake`delayNextRead
      ensures transport.Follows(old(transport.trail), old(transport.Tracked(spaceId)), spaceId)
      ensures OnlyRead(old(transport.log), transport.log) && NoListings(old(transport.log), transport.log)
      ensures r.Ok? ==> FetchedFor(transport.log, |old(transport.log)|, listed, r.value) && Accepts(r.value, Some(listed.id))
      ensures old(transport.Clear()) && listed in transport.Space(spaceId) ==> transport.Clear() && r == Ok(listed)
    {
      hide Matching;
      if listed in transport.Space(spaceId) {
        MatchingShows(transport.fake.objects, spaceId, transport.fake.delayed, listed);
      }
      if !Accepts(listed, None) {
        return Err(MalformedRemote);
      }
      var record := listed;
      if listed.body.NoBody? && listed.id != "" {
        ghost var before := transport.log;
        var answer := transport.Get(spaceId, listed.id);
        if answer.Err? { return Err(Remote(answer.error)); }
        record := answer.value;
        assert record.id == listed.id ==> transport.log[|before|] == Reading(listed.id, Ok(record));
      }
      if !Accepts(record, Some(listed.id)) {
        return Err(MalformedRemote);
      }
      return Ok(record);
    }

    /** What staging a page has done after `k` of its records. */
    ghost predicate Staging(data: seq<ObjectRecord>, k: nat, before: seq<ObjectRecord>, from: nat, fetched: seq<ObjectRecord>,
                            staged: seq<Envelope>)
      requires k <= |data|
      reads this`cache, transport`log
    {
      StageAll(before + fetched, cache.digest) == Ok(staged) && Fetched(transport.log, from, data[..k], fetched)
    }

    /** Stages the records of one page behind those staged already. */
    method StagePage(data: seq<ObjectRecord>, ghost before: seq<ObjectRecord>, staged: seq<Envelope>, ghost from: nat)
      returns (r: Result<seq<Envelope>, AdapterError>, ghost fetched: seq<ObjectRecord>)
      requires StageAll(before, cache.digest) == Ok(staged) && from <= |transport.log|
      modifies transport`log, transport`trail, transport.fake`failure, transport.fake`delayNextRead
      ensures transport.Follows(old(transport.trail), old(transport.Tracked(spaceId)), spaceId)
      ensures OnlyRead(old(transport.log), transport.log) && NoListings(old(transport.log), transport.log)
      ensures r.Ok? ==> StageAll(before + fetched, cache.digest) == r && Fetched(transport.log, from, data, fetched)
      ensures old(transport.Clear()) && ListsOf(data, transport.Space(spaceId)) ==>
                transport.Clear() && r == StageAll(before + data, cache.digest) && (r.Ok? ==> fetched == data)
    {
      hide StageAll, Fetched, FetchedFor, Matching;
      ghost var clear := transport.Clear() && ListsOf(data, transport.Space(spaceId));
      var result := staged;
      fetched := [];
      NothingFetched(transport.log, from);
      assert before + [] == before && data[..0] == [];
      for k := 0 to |data|
        invariant transport.Follows(old(transport.trail), old(transport.Tracked(spaceId)), spaceId)
        invariant OnlyRead(old(transport.log), transport.log) && NoListings(old(transport.log), transport.log)
        invariant Staging(data, k, before, from, fetched, result)
        invariant clear ==> transport.Clear() && fetched == data[..k]
      {
        var one: Result<seq<Envelope>, AdapterError>;
        ghost var full;
        one, full := StageNext(data, k, before, result, from, fetched);
        if one.Err? {
          if clear {
            assert fetched + [full] == data[..k + 1] && data == data[..k + 1] + data[k + 1..];
            assert before + data == before + data[..k + 1] + data[k + 1..];
            StageAllFails(before + data, before + data[..k + 1], cache.digest);
          }
          return one, fetched;
        }
        result := one.value;
        fetched := fetched + [full];
      }
      assert data[..|data|] == data;
      return Ok(result), fetched;
    }

    /** Completes one listed record and stages it. */
    method StageNext(data: seq<ObjectRecord>, k: nat, ghost before: seq<ObjectRecord>, staged: seq<Envelope>, ghost from: nat,
                     ghost fetched: seq<ObjectRecord>)
      returns (r: Result<seq<Envelope>, AdapterError>, ghost full: ObjectRecord)
      requires k < |data| && from <= |transport.log| && Staging(data, k, before, from, fetched, staged)
      modifies transport`log, transport`trail, transport.fake`failure, transport.fake`delayNextRead
      ensures transport.Follows(old(transport.trail), old(transport.Tracked(spaceId)), spaceId)
      ensures OnlyRead(old(transport.log), transport.log) && NoListings(old(transport.log), transport.log)
      ensures r.Ok? ==> Staging(data, k + 1, before, from, fetched + [full], r.value)
      ensures old(transport.Clear()) && data[k] in transport.Space(spaceId) ==>
                transport.Clear() && full == data[k] && r == StageAll(before + (fetched + [full]), cache.digest)
    {
      hide StageObject, FetchedFor, Matching;
      ghost var log := transport.log;
      full := data[k];
      var answer := Complete(data[k]);
      if answer.Err? { return Err(answer.error), full; }
      full := answer.value;
      var one := StageObject(answer.value, cache.digest);
      StageOneMore(before, fetched, full, cache.digest);
      if one.Err? { return Err(one.error), full; }
      FetchedOneMore(log, transport.log, from, data[..k], fetched, data[k], full);
      assert data[..k + 1] == data[..k] + [data[k]];
      return Ok(if one.value.Some? then staged + [one.value.value] else staged), full;
    }

    /** What following the pages has done when it comes to a cursor. */
    ghost predicate Following(before: seq<Exchange>, cursor: Option<string>, listed: seq<ObjectRecord>,
                              fetched: seq<ObjectRecord>, staged: seq<Envelope>)
      reads this`cache, transport`log
    {
      OnlyRead(before, transport.log) && StageAll(fetched, cache.digest) == Ok(staged) &&
      Listed(transport.log) == Listed(before) + listed && Fetched(transport.log, |before|, listed, fetched) &&
      WalkOf(transport.log, |before|) == Follow(cursor)
    }

    /** Of a clear script, everything before the cursor has been listed and fetched. */
    ghost predicate Through(cursor: Option<string>, listed: seq<ObjectRecord>, fetched: seq<ObjectRecord>)
      reads transport.fake
    {
      transport.Clear() && Offset(cursor) <= |transport.Space(spaceId)| &&
      listed == fetched == transport.Space(spaceId)[..Offset(cursor)]
    }

    /** Reads every page and stages what it lists; the first failure stops it. */
    method FetchAll() returns (r: Result<seq<Envelope>, AdapterError>, ghost fetched: seq<ObjectRecord>,
                               ghost listed: seq<ObjectRecord>)
      modifies transport, transport.fake`failure, transport.fake`delayNextRead
      ensures transport.Follows(old(transport.trail), old(transport.Tracked(spaceId)), spaceId)
      ensures OnlyRead(old(transport.log), transport.log)
      ensures r.Ok? ==> StageAll(fetched, cache.digest) == r && Reread(old(transport.log), transport.log, listed, fetched)
      ensures old(transport.Clear()) ==>
                transport.Clear() && r == StageAll(transport.Space(spaceId), cache.digest) &&
                (r.Ok? ==> fetched == listed == transport.Space(spaceId))
    {
      hide StageAll, Listings, Listed, Fetched, FetchedFor, WalkOf, Matching;
      fetched, listed := [], [];
      var staged: seq<Envelope> := [];
      var cursor: Option<string> := None;
      NothingStaged(cache.digest);
      WalkStarts(transport.log);
      NothingFetched(transport.log, |transport.log|);
      while true
        invariant transport.Follows(old(transport.trail), old(transport.Tracked(spaceId)), spaceId)
        invariant Following(old(transport.log), cursor, listed, fetched, staged)
        invariant old(transport.Clear()) ==> Through(cursor, listed, fetched)
        decreases transport.Ahead(spaceId, cursor)
      {
        var page, more;
        ghost var got;
        page, more, got := FetchPage(old(transport.log), cursor, listed, fetched, staged);
        if more.Err? { return more, fetched, listed; }
        staged, fetched, listed := more.value, fetched + got, listed + page.data;
        cursor := page.next;
        if cursor.None? { return Ok(staged), fetched, listed; }
      }
    }

    /** Reads one page and stages what it lists. */
    method FetchPage(ghost before: seq<Exchange>, cursor: Option<string>, ghost listed: seq<ObjectRecord>,
                     ghost fetched: seq<ObjectRecord>, staged: seq<Envelope>)
      returns (page: Page, r: Result<seq<Envelope>, AdapterError>, ghost got: seq<ObjectRecord>)
      requires Following(before, cursor, listed, fetched, staged)
      modifies transport, transport.fake`failure, transport.fake`delayNextRead
      ensures transport.Follows(old(transport.trail), old(transport.Tracked(spaceId)), spaceId)
      ensures OnlyRead(before, transport.log)
      ensures r.Ok? && page.next.Some? ==>
                Following(before, page.next, listed + page.data, fetched + got, r.value) &&
                transport.Ahead(spaceId, page.next) < old(transport.Ahead(spaceId, cursor))
      ensures r.Ok? && page.next.None? ==>
                StageAll(fetched + got, cache.digest) == r && Reread(before, transport.log, listed + page.data, fetched + got)
      ensures old(Through(cursor, listed, fetched)) ==>
                transport.Clear() &&
                (r.Err? ==> r == StageAll(transport.Space(spaceId), cache.digest)) &&
                (r.Ok? && page.next.Some? ==> Through(page.next, listed + page.data, fetched + got)) &&
                (r.Ok? && page.next.None? ==> fetched + got == listed + page.data == transport.Space(spaceId))
    {
      hide StageAll, Listings, Listed, Fetched, FetchedFor, WalkOf, Matching;
      ghost var start := transport.log;
      ghost var through := Through(cursor, listed, fetched);
      ghost var space := transport.Space(spaceId);
      got := [];
      var answer := transport.List(spaceId, cursor);
      ListedMore(start, Listing(cursor, answer));
      WalkMore(start, |before|, Listing(cursor, answer));
      if answer.Err? { return Page([], None), Err(Remote(answer.error)), got; }
      page := answer.value;
      ghost var paged := transport.log;
      if through {
        PageShows(space, Offset(cursor), transport.fake.pageSize, page);
      }
      r, got := StagePage(page.data, fetched, staged, |before|);
      NoListingsKeep(paged, transport.log, |before|);
      if r.Err? {
        if through {
          StageAllFails(space, fetched + page.data, cache.digest);
        }
        return page, r, got;
      }
      FetchedMore(start, transport.log, |before|, listed, fetched, page.data, got);
      ConcatAssociates(Listed(before), listed, page.data);
    }

    /** Reads every page, and only then replaces the cache. On failure resources and collections stay;
        on success the cache is what a refresh from all listed objects gives. */
    method Hydrate() returns (r: Result<(), AdapterError>, ghost refresh: Refresh)
      modifies this`cache, transport, transport.fake`failure, transport.fake`delayNextRead
      ensures transport.Follows(old(transport.trail), old(transport.Tracked(spaceId)), spaceId)
      ensures OnlyRead(old(transport.log), transport.log)
      ensures cache.digest == old(cache.digest)
      ensures r.Err? ==> cache.resources == old(cache.resources) && cache.collections == old(cache.collections) &&
                         cache.clock == old(cache.clock)
      ensures r.Ok? ==> RefreshedFrom(old(cache), old(transport.log), transport.log, refresh, cache)
      ensures old(transport.Clear()) && old(cache).failures == [] ==>
                transport.Clear() && RefreshedAs(old(cache), refresh.clock, transport.Space(spaceId), r, cache)
    {
      hide StageAll, Rebuild, Configure, Reread, Matching;
      refresh := Refresh([], [], 0);
      var configured := Configured(cache);
      var (checked, reply) := AfterRead(cache, None);
      if reply.Refused? {
        cache := checked;
        return Err(Local(reply.error)), refresh;
      }
      var staged;
      ghost var fetched, listed;
      staged, fetched, listed := FetchAll();
      if staged.Err? { return Err(staged.error), refresh; }
      var now: U64 := *;
      refresh := Refresh(listed, fetched, now);
      var refreshed := BuildCache(cache.digest, now, staged.value);
      if refreshed.Err? { return Err(refreshed.error), refresh; }
      var done := AddConfigured(refreshed.value, configured);
      RefreshedConfigures(cache.digest, now, fetched, configured);
      cache := done.value;
      return Ok(()), refresh;
    }

    method BuildCache(digest: Digest, now: U64, staged: seq<Envelope>) returns (r: Result<Repo, AdapterError>)
      ensures r == Rebuild(Empty(digest, now), staged)
    {
      hide AddResource;
      var refreshed := Empty(digest, now);
      for k := 0 to |staged|
        invariant Rebuild(Empty(digest, now), staged[..k]) == Ok(refreshed)
      {
        RebuildStep(Empty(digest, now), staged, k);
        var next := AddResource(refreshed, staged[k]);
        if next.Err? {
          RebuildFails(Empty(digest, now), staged, k + 1);
          return next;
        }
        refreshed := next.value;
      }
      assert staged[..|staged|] == staged;
      return Ok(refreshed);
    }

    method AddConfigured(refreshed: Repo, configured: seq<Collection>) returns (r: Result<Repo, AdapterError>)
      ensures r == Configure(refreshed, configured)
    {
      hide EnsureCollection;
      var result := refreshed;
      for k := 0 to |configured|
        invariant Configure(refreshed, configured[..k]) == Ok(result)
      {
        ConfigureStep(refreshed, configured, k);
        var next := EnsureCollection(result, configured[k]);
        if next.Err? {
          ConfigureFails(refreshed, configured, k + 1);
          return next;
        }
        result := next.value;
      }
      assert configured[..|configured|] == configured;
      return Ok(result);
    }

    // ----- reconciliation -------------------------------------------------

    /** A read of the object that leaves the outcome of a mutation open. */
    predicate Undecided(exchange: Exchange, expected: ObjectRecord, kind: Kind) {
      exchange.Reading? && exchange.id == expected.id &&
      match exchange.answer
      case Ok(actual) => Accepts(actual, Some(expected.id)) && !MutationMatches(expected, actual, kind)
      case Err(error) => error in {NotFound, DelayedVisibility, TimedOut}
    }

    /** What the reads from `n` on come to: the first that decides, or a timeout when none of
        `maxReads` does. */
    ghost predicate Decided(log: seq<Exchange>, n: nat, expected: ObjectRecord, kind: Kind,
                            r: Result<ObjectRecord, TransportError>)
    {
      n <= |log| <= n + maxReads &&
      if r == Err(TimedOut) then |log| == n + maxReads && forall k :: n <= k < |log| ==> Undecided(log[k], expected, kind)
      else
        n < |log| && (forall k :: n <= k < |log| - 1 ==> Undecided(log[k], expected, kind)) &&
        var last := log[|log| - 1];
        last.Reading? && last.id == expected.id &&
        match last.answer
        case Ok(actual) =>
          if Accepts(actual, Some(expected.id)) then MutationMatches(expected, actual, kind) && r == Ok(actual)
          else r == Err(MalformedAnswer)
        case Err(error) => error !in {NotFound, DelayedVisibility, TimedOut} && r == Err(error)
    }

    /** A read of the object that shows it neither archived nor, where that counts, gone. */
    predicate Waiting(exchange: Exchange, id: string) {
      exchange.Reading? && exchange.id == id &&
      match exchange.answer
      case Ok(actual) => Accepts(actual, Some(id)) && !actual.archived
      case Err(error) => error in {DelayedVisibility, TimedOut}
    }

    ghost predicate Confirmed(log: seq<Exchange>, n: nat, id: string, allowMissing: bool, r: Result<(), TransportError>) {
      n <= |log| <= n + maxReads &&
      if r == Err(TimedOut) then |log| == n + maxReads && forall k :: n <= k < |log| ==> Waiting(log[k], id)
      else
        n < |log| && (forall k :: n <= k < |log| - 1 ==> Waiting(log[k], id)) &&
        var last := log[|log| - 1];
        last.Reading? && last.id == id &&
        match last.answer
        case Ok(actual) =>
          if Accepts(actual, Some(id)) then actual.archived && r == Ok(()) else r == Err(MalformedAnswer)
        case Err(error) =>
          error !in {DelayedVisibility, TimedOut} && r == if error == NotFound && allowMissing then Ok(()) else Err(error)
    }

    /** Reads the same object a bounded number of times, until a read shows the expected outcome. */
    method ReconcileWrite(expected: ObjectRecord, kind: Kind) returns (r: Result<ObjectRecord, TransportError>)
      modifies transport`log, transport`trail, transport.fake`failure, transport.fake`delayNextRead
      ensures transport.Follows(old(transport.trail), old(transport.Tracked(spaceId)), spaceId)
      ensures OnlyRead(old(transport.log), transport.log) && |transport.log| <= |old(transport.log)| + maxReads
      ensures NoListings(old(transport.log), transport.log)
      ensures r.Ok? ==> MutationMatches(expected, r.value, kind) && Accepts(r.value, Some(expected.id))
      ensures r.Ok? ==> r.value.id == expected.id && r.value.spaceId == spaceId &&
                        if kind == Archiving || kind == Deleting then r.value.archived
                        else !r.value.archived && r.value.body == expected.body && r.value.properties == expected.properties
      ensures Decided(transport.log, |old(transport.log)|, expected, kind, r)
      ensures r.Ok? ==> ShownBy(transport.log, |old(transport.log)|, expected, kind)
    {
      for n := 0 to maxReads
        invariant transport.Follows(old(transport.trail), old(transport.Tracked(spaceId)), spaceId)
        invariant OnlyRead(old(transport.log), transport.log) && |transport.log| == |old(transport.log)| + n
        invariant NoListings(old(transport.log), transport.log)
        invariant forall k :: |old(transport.log)| <= k < |transport.log| ==> Undecided(transport.log[k], expected, kind)
      {
        var answer := transport.Get(spaceId, expected.id);
        assert transport.log[|transport.log| - 1] == Reading(expected.id, answer);
        if answer.Ok? {
          if !Accepts(answer.value, Some(expected.id)) { return Err(MalformedAnswer); }
          if MutationMatches(expected, answer.value, kind) { return answer; }
        } else if answer.error !in {NotFound, DelayedVisibility, TimedOut} {
          return answer;
        }
      }
      return Err(TimedOut);
    }

    /** Reads the object until it is archived, or gone where that is allowed. */
    method ConfirmArchive(id: string, allowMissing: bool) returns (r: Result<(), TransportError>)
      modifies transport`log, transport`trail, transport.fake`failure, transport.fake`delayNextRead
      ensures transport.Follows(old(transport.trail), old(transport.Tracked(spaceId)), spaceId)
      ensures OnlyRead(old(transport.log), transport.log) && |transport.log| <= |old(transport.log)| + maxReads
      ensures NoListings(old(transport.log), transport.log)
      ensures r.Ok? && !allowMissing ==>
                ShownBy(transport.log, |old(transport.log)|, Tombstone(id), Archiving)
      ensures r.Ok? ==> GoneBy(transport.log, |old(transport.log)|, id)
      ensures Confirmed(transport.log, |old(transport.log)|, id, allowMissing, r)
    {
      for n := 0 to maxReads
        invariant transport.Follows(old(transport.trail), old(transport.Tracked(spaceId)), spaceId)
        invariant OnlyRead(old(transport.log), transport.log) && |transport.log| == |old(transport.log)| + n
        invariant NoListings(old(transport.log), transport.log)
        invariant forall k :: |old(transport.log)| <= k < |transport.log| ==> Waiting(transport.log[k], id)
      {
        var answer := transport.Get(spaceId, id);
        assert transport.log[|transport.log| - 1] == Reading(id, answer);
        if answer.Ok? {
          if !Accepts(answer.value, Some(id)) { return Err(MalformedAnswer); }
          if answer.value.archived {
            assert MutationMatches(Tombstone(id), answer.value, Archiving);
            return Ok(());
          }
        } else if answer.error == NotFound && allowMissing {
          return Ok(());
        } else if answer.error !in {DelayedVisibility, TimedOut} {
          return Err(answer.error);
        }
      }
      return Err(TimedOut);
    }

    /** A read from position `n` on found the object archived or missing. */
    ghost predicate GoneBy(log: seq<Exchange>, n: nat, id: string) {
      exists k :: n <= k < |log| && log[k].Reading? && log[k].id == id &&
                  (log[k].answer == Err(NotFound) || (log[k].answer.Ok? && log[k].answer.value.archived))
    }

    function Tombstone(id: string): ObjectRecord {
      ObjectRecord(id, spaceId, [], NoBody, true, 0)
    }

    predicate Identified(expected: ObjectRecord, actual: ObjectRecord)
      reads this`cache
    {
      CreateIdentityMatches(expected, actual, cache.digest)
    }

    /** The object at this place has the expected identity and stands on one of the pages that are scanned. */
    predicate MetAt(expected: ObjectRecord, k: nat)
      reads this`cache, transport.fake
    {
      k < |transport.Space(spaceId)| && k < Reach(transport.fake.pageSize, maxReads) &&
      Identified(expected, transport.Space(spaceId)[k])
    }

    /** The script shows an object with the expected identity on its first `maxReads` pages. */
    ghost predicate WithinReach(expected: ObjectRecord)
      reads this`cache, transport.fake
    {
      exists k :: MetAt(expected, k)
    }

    /** Looks on one page for an object with the expected DAV identity. */
    method ScanPage(expected: ObjectRecord, data: seq<ObjectRecord>, ghost listing: nat)
      returns (r: Result<Option<ObjectRecord>, TransportError>)
      requires listing < |transport.log| && transport.log[listing].Listing? && transport.log[listing].page.Ok?
      requires data == transport.log[listing].page.value.data
      modifies transport`log, transport`trail, transport.fake`failure, transport.fake`delayNextRead
      ensures transport.Follows(old(transport.trail), old(transport.Tracked(spaceId)), spaceId)
      ensures OnlyRead(old(transport.log), transport.log) && NoListings(old(transport.log), transport.log)
      ensures r.Ok? && r.value.Some? ==> Identified(expected, r.value.value) && Accepts(r.value.value, None) &&
                                         Seen(transport.log, listing, r.value.value)
      ensures old(transport.Clear()) && ListsOf(data, transport.Space(spaceId)) ==>
                transport.Clear() && r.Ok? && (r.value.Some? ==> r.value.value in data) &&
                (r.value.None? ==> NoneIdentified(expected, data, cache.digest))
    {
      hide CreateIdentityMatches, Matching;
      ghost var clear := transport.Clear() && ListsOf(data, transport.Space(spaceId));
      for k := 0 to |data|
        invariant transport.Follows(old(transport.trail), old(transport.Tracked(spaceId)), spaceId)
        invariant OnlyRead(old(transport.log), transport.log) && NoListings(old(transport.log), transport.log)
        invariant clear ==> transport.Clear() && forall j :: 0 <= j < k ==> !Identified(expected, data[j])
      {
        ghost var start := transport.log;
        var full := Complete(data[k]);
        if full.Err? {
          return Err(if full.error.Remote? then full.error.reason else MalformedAnswer);
        }
        if Identified(expected, full.value) {
          SeenFull(transport.log, listing, |start|, data[k], full.value);
          return Ok(Some(full.value));
        }
      }
      return Ok(None);
    }

    /** Lists one page and looks on it. */
    method ScanListing(expected: ObjectRecord, cursor: Option<string>)
      returns (r: Result<Option<ObjectRecord>, TransportError>, next: Option<string>)
      modifies transport, transport.fake`failure, transport.fake`delayNextRead
      ensures transport.Follows(old(transport.trail), old(transport.Tracked(spaceId)), spaceId)
      ensures OnlyRead(old(transport.log), transport.log)
      ensures Listings(transport.log) == Listings(old(transport.log)) + 1
      ensures r.Ok? && r.value.Some? ==> Identified(expected, r.value.value) && Accepts(r.value.value, None) &&
                                         Seen(transport.log, |old(transport.log)|, r.value.value)
      ensures old(transport.Clear()) && Offset(cursor) <= |transport.Space(spaceId)| ==>
                transport.Clear() && r.Ok? && (r.value.Some? ==> r.value.value in transport.Space(spaceId)) &&
                (r.value.None? ==>
                   ScannedPage(expected, transport.Space(spaceId), Offset(cursor), transport.fake.pageSize, next, cache.digest))
    {
      hide CreateIdentityMatches, Matching, Listings, Seen, NoneIdentified, ScannedPage, PageAt;
      ghost var before := transport.log;
      ghost var clear := transport.Clear() && Offset(cursor) <= |transport.Space(spaceId)|;
      var page := transport.List(spaceId, cursor);
      ListedMore(before, Listing(cursor, page));
      next := None;
      if page.Err? { return Err(page.error), next; }
      if clear {
        PageShows(transport.Space(spaceId), Offset(cursor), transport.fake.pageSize, page.value);
      }
      ghost var paged := transport.log;
      r := ScanPage(expected, page.value.data, |before|);
      NoListingsKeep(paged, transport.log, |paged|);
      next := page.value.next;
      if clear && r.Ok? && r.value.None? {
        PageIsScanned(expected, transport.Space(spaceId), Offset(cursor), transport.fake.pageSize, page.value, cache.digest);
      }
    }

    /** Scans listings, a bounded number of them, for an object with the expected DAV identity. */
    method ReconcileCreate(expected: ObjectRecord) returns (r: Result<ObjectRecord, TransportError>)
      modifies transport, transport.fake`failure, transport.fake`delayNextRead
      ensures transport.Follows(old(transport.trail), old(transport.Tracked(spaceId)), spaceId)
      ensures OnlyRead(old(transport.log), transport.log)
      ensures Listings(transport.log) <= Listings(old(transport.log)) + maxReads
      ensures r.Ok? ==> Identified(expected, r.value) && Accepts(r.value, None)
      ensures r.Ok? ==> Seen(transport.log, |old(transport.log)|, r.value)
      ensures old(transport.Clear() && WithinReach(expected)) ==>
                transport.Clear() && r.Ok? && r.value in transport.Space(spaceId)
    {
      hide CreateIdentityMatches, ScannedPage, Matching, Listings, Seen;
      ghost var found := transport.Clear() && WithinReach(expected);
      ghost var place: nat := 0;
      if found {
        place :| MetAt(expected, place);
      }
      var cursor: Option<string> := None;
      for n := 0 to maxReads
        invariant transport.Follows(old(transport.trail), old(transport.Tracked(spaceId)), spaceId)
        invariant OnlyRead(old(transport.log), transport.log)
        invariant Listings(transport.log) <= Listings(old(transport.log)) + n
        invariant found ==> transport.Clear() && MetAt(expected, place)
        invariant found ==> Offset(cursor) == Reach(transport.fake.pageSize, n) <= place
      {
        ghost var start := |transport.log|;
        var scanned, next := ScanListing(expected, cursor);
        if scanned.Err? { return Err(scanned.error); }
        if scanned.value.Some? {
          SeenEarlier(transport.log, |old(transport.log)|, start, scanned.value.value);
          return Ok(scanned.value.value);
        }
        if found {
          ScanSkips(expected, transport.Space(spaceId), Offset(cursor), transport.fake.pageSize, next, place, cache.digest);
        }
        cursor := next;
        if cursor.None? { break; }
      }
      return Err(TimedOut);
    }

    // ----- creating -------------------------------------------------------

    /** The script will time the next mutation out without an effect. */
    predicate TimesOut()
      reads transport.fake
    {
      transport.scripted && transport.fake.failure == Some(TimedOut) && !transport.fake.delayNextRead
    }

    predicate Nameable(e: Envelope, id: string)
      reads this`cache
    {
      cache.digest.valid(Returned(e, id)) && !IsEmptyName(id)
    }

    /** An object of the script has the identity of `e`, and the result is the sent envelope under its id. */
    predicate TakenFor(e: Envelope, actual: ObjectRecord, r: Result<(Envelope, ETag), AdapterError>)
      reads this`cache, transport.fake
    {
      actual in transport.Space(spaceId) && Identified(ObjectFor(e, spaceId), actual) &&
      (Nameable(e, actual.id) ==> r == Ok((Returned(e, actual.id), cache.digest.tag(Returned(e, actual.id)))))
    }

    /** The one mutation of a create, and after a timeout a scan for the created object. */
    method SendCreate(record: ObjectRecord) returns (remote: Result<ObjectRecord, TransportError>)
      requires record.spaceId == spaceId
      modifies transport, transport.fake
      ensures transport.Follows(old(transport.trail), old(transport.Tracked(spaceId)), spaceId)
      ensures MutatedOnce(old(transport.log), transport.log, |old(transport.log)|, Creating)
      ensures transport.log[|old(transport.log)|].record == record
      ensures Listings(transport.log) <= Listings(old(transport.log)) + maxReads
      ensures transport.log[|old(transport.log)|].answer != Err(TimedOut) ==>
                remote == transport.log[|old(transport.log)|].answer && |transport.log| == |old(transport.log)| + 1
      ensures remote.Ok? ==>
                var answer := transport.log[|old(transport.log)|].answer;
                answer == remote ||
                (answer == Err(TimedOut) && Seen(transport.log, |old(transport.log)| + 1, remote.value) &&
                 Identified(record, remote.value) && Accepts(remote.value, None))
      ensures old(TimesOut() && WithinReach(record)) ==>
                transport.Clear() && transport.Space(spaceId) == old(transport.Space(spaceId)) && remote.Ok? &&
                remote.value in transport.Space(spaceId) && Identified(record, remote.value) && Accepts(remote.value, None)
      ensures old(transport.Ready() && (spaceId, record.id) !in transport.fake.objects) ==>
                transport.Ready() && remote == Ok(record) &&
                transport.fake.objects == old(transport.fake.objects)[(spaceId, record.id) := record]
    {
      hide Identified, Matching, Listings, Seen;
      ghost var doomed := TimesOut() && WithinReach(record);
      ghost var place: nat := 0;
      if doomed {
        place :| MetAt(record, place);
      }
      ghost var before := transport.log;
      remote := transport.Mutate(Creating, record);
      ListedMore(before, Mutating(Creating, record, remote));
      assert transport.log[|before|] == Mutating(Creating, record, remote);
      assert doomed ==> transport.Clear() && MetAt(record, place);
      if remote == Err(TimedOut) {
        remote := ReconcileCreate(record);
      }
    }

    /** What an answer to a creation makes of it. */
    function Taken(e: Envelope, actual: ObjectRecord, digest: Digest): Result<(Envelope, ETag), AdapterError> {
      if actual.spaceId != spaceId || IsBlankText(actual.id) then Err(MalformedRemote)
      else if !digest.valid(Returned(e, actual.id)) then Err(InvalidBody)
      else Ok((Returned(e, actual.id), digest.tag(Returned(e, actual.id))))
    }

    /** How a creation that was answered ends. */
    predicate CreateEnds(log: seq<Exchange>, m: nat, e: Envelope, digest: Digest, r: Result<(Envelope, ETag), AdapterError>) {
      m < |log| && log[m].Mutating? && log[m].record == ObjectFor(e, spaceId) &&
      match log[m].answer
      case Ok(actual) => |log| == m + 1 && r == Taken(e, actual, digest)
      case Err(error) => error != TimedOut ==> |log| == m + 1 && r == Err(Remote(error))
    }

    /** Creates the object: one mutation at `m`, and after a timeout a scan for the created object. */
    method PushCreate(e: Envelope) returns (r: Result<(Envelope, ETag), AdapterError>, ghost m: nat)
      modifies transport, transport.fake
      ensures transport.Follows(old(transport.trail), old(transport.Tracked(spaceId)), spaceId)
      ensures old(transport.log) <= transport.log
      ensures !cache.digest.valid(e) ==> r.Err? && transport.log == old(transport.log)
      ensures cache.digest.valid(e) ==> MutatedOnce(old(transport.log), transport.log, m, Creating)
      ensures cache.digest.valid(e) ==> CreateEnds(transport.log, m, e, cache.digest, r)
      ensures r.Ok? ==> r.value == (Returned(e, r.value.0.objectId), cache.digest.tag(Returned(e, r.value.0.objectId)))
      ensures r.Ok? ==> CreateShown(transport.log, m, e, r.value.0.objectId, cache.digest)
      ensures r.Ok? ==> Listings(transport.log) <= Listings(old(transport.log)) + maxReads
      ensures old(TimesOut() && WithinReach(ObjectFor(e, spaceId))) && cache.digest.valid(e) ==>
                transport.Clear() && transport.Space(spaceId) == old(transport.Space(spaceId)) &&
                exists actual :: TakenFor(e, actual, r)
      ensures old(transport.Ready() && (spaceId, e.objectId) !in transport.fake.objects) &&
              cache.digest.valid(e) && !IsEmptyName(e.objectId) ==>
                transport.Ready() && r == Ok((e, cache.digest.tag(e))) &&
                transport.fake.objects == old(transport.fake.objects)[(spaceId, e.objectId) := ObjectFor(e, spaceId)]
    {
      hide CreateIdentityMatches, Matching, Listings, Seen, WithinReach, IsBlankText, IsEmptyName;
      ghost var doomed := TimesOut() && WithinReach(ObjectFor(e, spaceId));
      m := |transport.log|;
      if !cache.digest.valid(e) { return Err(InvalidBody), m; }
      var remote := SendCreate(ObjectFor(e, spaceId));
      if remote.Err? { return Err(Remote(remote.error)), m; }
      BlankIsEmpty(remote.value.id);
      if remote.value.spaceId != spaceId || IsEmptyName(remote.value.id) {
        r := Err(MalformedRemote);
      } else if !cache.digest.valid(Returned(e, remote.value.id)) {
        r := Err(InvalidBody);
      } else {
        r := Ok((Returned(e, remote.value.id), cache.digest.tag(Returned(e, remote.value.id))));
      }
      assert doomed ==> TakenFor(e, remote.value, r);
    }

    /** The answer to the mutation named this object, or timed out and a later read showed it. */
    ghost predicate CreateShown(log: seq<Exchange>, m: nat, e: Envelope, remoteId: string, digest: Digest) {
      m < |log| && log[m].Mutating? && log[m].record == ObjectFor(e, spaceId) &&
      ((log[m].answer.Ok? && log[m].answer.value.id == remoteId) ||
       (log[m].answer == Err(TimedOut) &&
        exists actual :: Seen(log, m + 1, actual) && actual.id == remoteId &&
                         CreateIdentityMatches(ObjectFor(e, spaceId), actual, digest)))
    }

    /** Checks everything locally before the one remote creation. */
    method CreateResource(e: Envelope, condition: WriteCondition)
      returns (r: Result<(Envelope, ETag), AdapterError>, ghost m: nat)
      modifies this`cache, transport, transport.fake
      ensures transport.Follows(old(transport.trail), old(transport.Tracked(spaceId)), spaceId)
      ensures old(transport.log) <= transport.log && cache.digest == old(cache.digest)
      ensures PreflightCreate(old(cache), e, condition).Err? ==>
                transport.log == old(transport.log) && cache == old(cache) &&
                r == Err(PreflightCreate(old(cache), e, condition).error)
      ensures transport.log == old(transport.log) || MutatedOnce(old(transport.log), transport.log, m, Creating)
      ensures r.Ok? ==> MutatedOnce(old(transport.log), transport.log, m, Creating) &&
                        CreateShown(transport.log, m, e, r.value.0.objectId, cache.digest)
      ensures r.Ok? ==> r.value == (Returned(e, r.value.0.objectId), cache.digest.tag(Returned(e, r.value.0.objectId)))
      ensures r.Ok? ==> e.resourceId in cache.resources && cache.resources[e.resourceId].etag == r.value.1
      ensures r.Ok? ==> Prepared(old(cache), e).Ok? &&
                        AfterCreate(Prepared(old(cache), e).value, r.value.0, condition).1.Wrote? &&
                        cache == AfterCreate(Prepared(old(cache), e).value, r.value.0, condition).0
      ensures old(TimesOut() && WithinReach(ObjectFor(e, spaceId)) && PreflightCreate(cache, e, condition).Ok?) ==>
                transport.Clear() && transport.Space(spaceId) == old(transport.Space(spaceId)) &&
                exists actual :: CreatedAs(old(cache), e, condition, actual, r)
      ensures old(transport.Ready() && (spaceId, e.objectId) !in transport.fake.objects &&
                  PreflightCreate(cache, e, condition).Ok?) && !IsEmptyName(e.objectId) ==>
                transport.Ready() && r == Ok((e, cache.digest.tag(e))) &&
                transport.fake.objects == old(transport.fake.objects)[(spaceId, e.objectId) := ObjectFor(e, spaceId)]
    {
      hide AfterCreate, EnsureCollection, CreateShown, MutatedOnce, CreateIdentityMatches, Matching;
      m := 0;
      ghost var doomed := TimesOut() && WithinReach(ObjectFor(e, spaceId));
      var preflight := Prepared(cache, e);
      if preflight.Err? { return Err(preflight.error), m; }
      var check := Refusal(AfterCreate(preflight.value, e, condition).1);
      if check.Err? { return Err(check.error), m; }
      CreateChecks(preflight.value, e, condition);
      EnsureDigest(cache, Collection(e.collectionId, CollectionName(e.kind)));
      ghost var before := cache;
      var pushed;
      pushed, m := PushCreate(e);
      ghost var actual: ObjectRecord := ObjectFor(e, spaceId);
      if doomed {
        actual :| TakenFor(e, actual, pushed);
      }
      if pushed.Err? {
        assert doomed ==> CreatedAs(before, e, condition, actual, pushed);
        return pushed, m;
      }
      assert Prepared(cache, pushed.value.0) == preflight;
      r := Remember(pushed.value, condition);
      assert doomed ==> CreatedAs(before, e, condition, actual, r);
    }

    /** Puts what was created into the cache. */
    method Remember(created: (Envelope, ETag), condition: WriteCondition) returns (r: Result<(Envelope, ETag), AdapterError>)
      requires Prepared(cache, created.0).Ok? && created.1 == cache.digest.tag(created.0)
      modifies this`cache
      ensures cache == AfterCreate(Prepared(old(cache), created.0).value, created.0, condition).0
      ensures cache.digest == old(cache.digest)
      ensures r == match PreflightCreate(old(cache), created.0, condition) case Ok(_) => Ok(created) case Err(error) => Err(error)
      ensures r.Ok? ==> AfterCreate(Prepared(old(cache), created.0).value, created.0, condition).1.Wrote? &&
                        created.0.resourceId in cache.resources && cache.resources[created.0.resourceId].etag == created.1
    {
      hide AfterCreate, EnsureCollection;
      var ready := Prepared(cache, created.0).value;
      EnsureDigest(cache, Collection(created.0.collectionId, CollectionName(created.0.kind)));
      CreateStores(ready, created.0, condition);
      var (next, reply) := AfterCreate(ready, created.0, condition);
      cache := next;
      return if reply.Refused? then Err(Local(reply.error)) else Ok(created);
    }

    /** An object of the script has the identity of `e`; where the cache accepts its id, that is the result. */
    predicate CreatedAs(before: Repo, e: Envelope, condition: WriteCondition, actual: ObjectRecord,
                        r: Result<(Envelope, ETag), AdapterError>)
      reads this`cache, transport.fake
    {
      actual in transport.Space(spaceId) && Identified(ObjectFor(e, spaceId), actual) &&
      (Nameable(e, actual.id) && PreflightCreate(before, Returned(e, actual.id), condition).Ok? ==>
         r == Ok((Returned(e, actual.id), cache.digest.tag(Returned(e, actual.id)))))
    }

    // ----- updating -------------------------------------------------------

    /** What an update sends when the read before it was answered so. */
    function Sent(e: Envelope, existing: Result<ObjectRecord, TransportError>): ObjectRecord {
      ObjectFor(e, spaceId).(properties := if existing.Ok? then Carried(existing.value.properties) else [])
    }

    /** The mutation at `m` sent `e` with the properties that the read just before it showed. */
    ghost predicate SentAt(log: seq<Exchange>, m: nat, e: Envelope) {
      0 < m < |log| && log[m - 1].Reading? && log[m - 1].id == e.objectId &&
      (log[m - 1].answer.Ok? || log[m - 1].answer == Err(NotFound)) &&
      log[m].Mutating? && log[m].record == Sent(e, log[m - 1].answer)
    }

    /** The mutation at `m` carried over what the read before it showed of the object, if there was one. */
    ghost predicate CarriedAt(log: seq<Exchange>, m: nat, id: string) {
      0 < m < |log| && log[m - 1].Reading? && log[m - 1].id == id && log[m].Mutating? &&
      match log[m - 1].answer
      case Ok(existing) => CarriesOver(existing.properties, log[m].record.properties)
      case Err(e) => e == NotFound && log[m].record.properties == []
    }

    lemma SentIsCarried(log: seq<Exchange>, m: nat, e: Envelope)
      ensures SentAt(log, m, e) ==> CarriedAt(log, m, e.objectId)
    {
      if SentAt(log, m, e) && log[m - 1].answer.Ok? {
        var places := CarriedPlaces(log[m - 1].answer.value.properties);
      }
    }

    /** How an update ends: with the read of the object, when that fails or shows a foreign one, and
        otherwise as the mutation behind it does. */
    ghost predicate UpdateEnds(before: nat, log: seq<Exchange>, e: Envelope, tag: ETag, r: Result<(Envelope, ETag), AdapterError>) {
      before < |log| && log[before].Reading? && log[before].id == e.objectId &&
      match log[before].answer
      case Ok(existing) =>
        if Accepts(existing, Some(e.objectId)) then MutationEnds(before + 1, log, e, tag, r)
        else |log| == before + 1 && r == Err(MalformedRemote)
      case Err(error) =>
        if error == NotFound then MutationEnds(before + 1, log, e, tag, r)
        else |log| == before + 1 && r == Err(Remote(error))
    }

    ghost predicate MutationEnds(m: nat, log: seq<Exchange>, e: Envelope, tag: ETag, r: Result<(Envelope, ETag), AdapterError>) {
      exists sent :: Ends(log, m, Updating, sent) &&
                     r == match sent case Ok(_) => Ok((e, tag)) case Err(error) => Err(error)
    }

    /** The script holds what an update of `e` sends when the object was there before. */
    predicate UpdatedTo(before: Objects, e: Envelope)
      reads transport.fake
    {
      (spaceId, e.objectId) in before &&
      transport.fake.objects == before[(spaceId, e.objectId) := Sent(e, Ok(before[(spaceId, e.objectId)]))]
    }

    /** Carries foreign properties forward, then updates: one mutation at `m`, and after a timeout
        reads of the same object. */
    method PushUpdate(e: Envelope) returns (r: Result<(Envelope, ETag), AdapterError>, ghost m: nat)
      modifies transport, transport.fake
      ensures transport.Follows(old(transport.trail), old(transport.Tracked(spaceId)), spaceId)
      ensures OnlyRead(old(transport.log), transport.log) || m == |old(transport.log)| + 1
      ensures OnlyRead(old(transport.log), transport.log) ||
              (MutatedOnce(old(transport.log), transport.log, m, Updating) && SentAt(transport.log, m, e) &&
               CarriedAt(transport.log, m, e.objectId))
      ensures NoListings(old(transport.log), transport.log)
      ensures r.Ok? ==> MutatedOnce(old(transport.log), transport.log, m, Updating) && Shown(transport.log, m, Updating)
      ensures r.Ok? ==> r.value == (e, cache.digest.tag(e)) && cache.digest.valid(e)
      ensures if cache.digest.valid(e) then UpdateEnds(|old(transport.log)|, transport.log, e, cache.digest.tag(e), r)
              else r == Err(InvalidBody) && transport.log == old(transport.log)
      ensures old(transport.Ready() && (spaceId, e.objectId) in transport.fake.objects) && cache.digest.valid(e) ==>
                transport.Ready() && r.Ok? && UpdatedTo(old(transport.fake.objects), e)
    {
      hide Shown, CarriedAt, CarriesOver, Carried, Ends;
      m := |transport.log|;
      if !cache.digest.valid(e) { return Err(InvalidBody), m; }
      var record := ObjectFor(e, spaceId);
      var existing := transport.Get(spaceId, record.id);
      if existing.Ok? {
        if !Accepts(existing.value, Some(record.id)) { return Err(MalformedRemote), m; }
        var carried := CarryForward(existing.value.properties);
        record := record.(properties := carried);
      } else if existing.error != NotFound {
        return Err(Remote(existing.error)), m;
      }
      ghost var before := transport.log;
      m := |before|;
      var sent := SendUpdate(record);
      assert transport.log[m - 1] == before[m - 1] == Reading(e.objectId, existing);
      SentIsCarried(transport.log, m, e);
      assert Ends(transport.log, m, Updating, sent);
      return if sent.Ok? then Ok((e, cache.digest.tag(e))) else Err(sent.error), m;
    }

    /** How a mutation that is not confirmed further ends: as it was answered, and after a timeout as
        the reads decide. */
    ghost predicate Ends(log: seq<Exchange>, m: nat, kind: Kind, r: Result<(), AdapterError>) {
      m < |log| && log[m].Mutating? &&
      match log[m].answer
      case Ok(actual) => |log| == m + 1 && r == if Accepts(actual, Some(log[m].record.id)) then Ok(()) else Err(MalformedRemote)
      case Err(error) =>
        if error != TimedOut then |log| == m + 1 && r == Err(Remote(error))
        else exists resolved :: Decided(log, m + 1, log[m].record, kind, resolved) && r == Unit(resolved)
    }

    function Unit<T>(r: Result<T, TransportError>): Result<(), AdapterError> {
      match r
      case Ok(_) => Ok(())
      case Err(error) => Err(Remote(error))
    }

    /** The one mutation of an update, and after a timeout reads of the same object. */
    method SendUpdate(record: ObjectRecord) returns (r: Result<(), AdapterError>)
      requires record.spaceId == spaceId
      modifies transport, transport.fake
      ensures transport.Follows(old(transport.trail), old(transport.Tracked(spaceId)), spaceId)
      ensures MutatedOnce(old(transport.log), transport.log, |old(transport.log)|, Updating)
      ensures transport.log[|old(transport.log)|].record == record && NoListings(old(transport.log), transport.log)
      ensures r.Ok? ==> Shown(transport.log, |old(transport.log)|, Updating)
      ensures Ends(transport.log, |old(transport.log)|, Updating, r)
      ensures old(transport.Ready() && (spaceId, record.id) in transport.fake.objects) ==>
                transport.Ready() && r == Ok(()) &&
                transport.fake.objects == old(transport.fake.objects)[(spaceId, record.id) := record]
    {
      hide MutationMatches, Decided;
      ghost var m := |transport.log|;
      var answer := transport.Mutate(Updating, record);
      assert transport.log[m] == Mutating(Updating, record, answer);
      if answer.Ok? {
        return if Accepts(answer.value, Some(record.id)) then Ok(()) else Err(MalformedRemote);
      }
      if answer.error != TimedOut { return Err(Remote(answer.error)); }
      var resolved := ReconcileWrite(record, Updating);
      assert Decided(transport.log, m + 1, transport.log[m].record, Updating, resolved);
      return Unit(resolved);
    }

    /** The mutation was answered for the object itself, or timed out and one of at most `maxReads`
        later reads shows its outcome. */
    ghost predicate Shown(log: seq<Exchange>, m: nat, kind: Kind) {
      m < |log| && log[m].Mutating? &&
      ((log[m].answer.Ok? && Accepts(log[m].answer.value, Some(log[m].record.id)) && |log| == m + 1) ||
       (log[m].answer == Err(TimedOut) && |log| <= m + 1 + maxReads && ShownBy(log, m + 1, log[m].record, kind)))
    }

    /** Checks an update against the refreshed cache, sends it once, and makes it in the cache. */
    method UpdateChecked(e: Envelope, condition: WriteCondition)
      returns (r: Result<(Envelope, ETag), AdapterError>, ghost m: nat)
      modifies this`cache, transport, transport.fake
      ensures transport.Follows(old(transport.trail), old(transport.Tracked(spaceId)), spaceId)
      ensures cache.digest == old(cache.digest)
      ensures OnlyRead(old(transport.log), transport.log) ||
              (MutatedOnce(old(transport.log), transport.log, m, Updating) && SentAt(transport.log, m, e) &&
               CarriedAt(transport.log, m, e.objectId) && m == |old(transport.log)| + 1 && AfterUpdate(old(cache), e, condition).1.Wrote?)
      ensures r.Ok? ==> MutatedOnce(old(transport.log), transport.log, m, Updating) && Shown(transport.log, m, Updating)
      ensures r.Ok? ==> r.value == (e, cache.digest.tag(e))
      ensures r.Ok? ==> Prepared(old(cache), e).Ok? && AfterUpdate(Prepared(old(cache), e).value, e, condition).1.Wrote? &&
                        cache == AfterUpdate(Prepared(old(cache), e).value, e, condition).0
      ensures old(transport.Ready() && cache.failures == [] && (spaceId, e.objectId) in transport.fake.objects &&
                  AfterUpdate(cache, e, condition).1.Wrote?) ==>
                transport.Ready() && r.Ok? && UpdatedTo(old(transport.fake.objects), e) && cache.failures == []
    {
      hide AfterUpdate, EnsureCollection, SentAt, CarriedAt, Shown, MutatedOnce;
      m := 0;
      var check := Refusal(AfterUpdate(cache, e, condition).1);
      if check.Err? { return Err(check.error), m; }
      UpdateAnswers(cache, e, condition);
      UpdateChecks(cache, e, condition);
      r, m := PushUpdate(e);
      if r.Err? { return; }
      if cache.failures == [] {
        PreparedAgain(cache, e, condition);
      }
      var ready := Prepared(cache, e);
      if ready.Err? { return Err(ready.error), m; }
      EnsureDigest(cache, Collection(e.collectionId, CollectionName(e.kind)));
      UpdateAnswers(ready.value, e, condition);
      var (next, reply) := AfterUpdate(ready.value, e, condition);
      cache := next;
      if reply.Refused? { return Err(Local(reply.error)), m; }
    }

    /** Refreshes, checks locally, updates once. `checked` is the refreshed cache that the check saw. */
    method UpdateResource(e: Envelope, condition: WriteCondition)
      returns (r: Result<(Envelope, ETag), AdapterError>, ghost m: nat, ghost refresh: Refresh, ghost checked: Repo)
      modifies this`cache, transport, transport.fake
      ensures transport.Follows(old(transport.trail), old(transport.Tracked(spaceId)), spaceId)
      ensures cache.digest == old(cache.digest)
      ensures OnlyRead(old(transport.log), transport.log) ||
              (MutatedOnce(old(transport.log), transport.log, m, Updating) && SentAt(transport.log, m, e) &&
               CarriedAt(transport.log, m, e.objectId) && AfterUpdate(checked, e, condition).1.Wrote?)
      ensures OnlyRead(old(transport.log), transport.log) ||
              (OnlyRead(old(transport.log), transport.log[..m - 1]) &&
               RefreshedFrom(old(cache), old(transport.log), transport.log[..m - 1], refresh, checked))
      ensures r.Ok? ==> MutatedOnce(old(transport.log), transport.log, m, Updating) && Shown(transport.log, m, Updating)
      ensures r.Ok? ==> r.value == (e, cache.digest.tag(e))
      ensures r.Ok? ==> Prepared(checked, e).Ok? && AfterUpdate(Prepared(checked, e).value, e, condition).1.Wrote? &&
                        cache == AfterUpdate(Prepared(checked, e).value, e, condition).0
      ensures old(transport.Ready() && cache.failures == []) &&
              Refreshed(old(cache).digest, refresh.clock, old(transport.Space(spaceId)), Configured(old(cache))).Ok? ==>
                var renewed := Refreshed(old(cache).digest, refresh.clock, old(transport.Space(spaceId)),
                                         Configured(old(cache))).value;
                checked == renewed &&
                (old((spaceId, e.objectId) in transport.fake.objects) && renewed.failures == [] &&
                 AfterUpdate(renewed, e, condition).1.Wrote? ==>
                   transport.Ready() && r.Ok? && UpdatedTo(old(transport.fake.objects), e) && cache.failures == [])
    {
      hide AfterUpdate, EnsureCollection, RefreshedFrom, RefreshedAs, Refreshed, SentAt, CarriedAt, Shown, MutatedOnce, UpdatedTo, Matching;
      m, checked := 0, cache;
      var hydrated;
      hydrated, refresh := Hydrate();
      checked := cache;
      if old(transport.Ready() && cache.failures == []) {
        RefreshedAsTells(old(cache), refresh.clock, transport.Space(spaceId), hydrated, cache);
      }
      r := Err(InvalidBody);
      if hydrated.Err? { return Err(hydrated.error), m, refresh, checked; }
      ghost var reread := transport.log;
      r, m := UpdateChecked(e, condition);
      if r.Ok? {
        OnceIsNotQuiet(reread, transport.log, m, Updating);
      }
      if !OnlyRead(reread, transport.log) {
        MutatedLater(old(transport.log), reread, transport.log, m, Updating);
        assert transport.log[..m - 1] == reread;
      }
    }

    // ----- archiving and deleting -----------------------------------------

    /** How an archive or a delete ends: refused as it was answered; where it was accepted, as the
        confirming reads come out; and after a timeout as the reads decide, where a delete counts as done
        when they find nothing or stay open. */
    ghost predicate Goes(log: seq<Exchange>, m: nat, id: string, kind: Kind, deletes: bool, r: Result<(), AdapterError>) {
      m < |log| && log[m].Mutating? && log[m].kind == kind &&
      match log[m].answer
      case Ok(actual) =>
        if Accepts(actual, Some(id)) then exists confirmed :: Confirmed(log, m + 1, id, deletes, confirmed) && r == Unit(confirmed)
        else |log| == m + 1 && r == Err(MalformedRemote)
      case Err(error) =>
        if error != TimedOut then |log| == m + 1 && r == Err(Remote(error))
        else exists resolved :: Decided(log, m + 1, Tombstone(id), kind, resolved) &&
                                r == if deletes && resolved.Err? && resolved.error in {TimedOut, NotFound} then Ok(())
                                     else Unit(resolved)
    }

    /** Archives an object once and waits until a read shows it archived. */
    method PushArchive(id: string) returns (r: Result<(), AdapterError>, ghost m: nat)
      modifies transport, transport.fake
      ensures transport.Follows(old(transport.trail), old(transport.Tracked(spaceId)), spaceId)
      ensures m == |old(transport.log)|
      ensures MutatedOnce(old(transport.log), transport.log, m, Archiving) && NoListings(old(transport.log), transport.log)
      ensures |transport.log| <= m + 1 + maxReads
      ensures r.Ok? ==> ShownBy(transport.log, m + 1, Tombstone(id), Archiving)
      ensures transport.log[m].record == Tombstone(id) && Tombstone(id).id == id && Tombstone(id).spaceId == spaceId
      ensures Goes(transport.log, m, id, Archiving, false, r)
    {
      hide Decided, Confirmed, MutationMatches;
      m := |transport.log|;
      var answer := transport.Mutate(Archiving, Tombstone(id));
      assert transport.log[m] == Mutating(Archiving, Tombstone(id), answer);
      if answer.Ok? {
        if !Accepts(answer.value, Some(id)) { return Err(MalformedRemote), m; }
        var confirmed := ConfirmArchive(id, false);
        assert Confirmed(transport.log, m + 1, id, false, confirmed);
        return Unit(confirmed), m;
      }
      if answer.error != TimedOut { return Err(Remote(answer.error)), m; }
      var resolved := ReconcileWrite(Tombstone(id), Archiving);
      assert Decided(transport.log, m + 1, Tombstone(id), Archiving, resolved);
      return Unit(resolved), m;
    }

    /** Deletes an object once and waits until a read shows it archived or gone; an unresolved timeout
        counts as done. */
    method PushDelete(id: string) returns (r: Result<(), AdapterError>, ghost m: nat)
      modifies transport, transport.fake
      ensures transport.Follows(old(transport.trail), old(transport.Tracked(spaceId)), spaceId)
      ensures m == |old(transport.log)|
      ensures MutatedOnce(old(transport.log), transport.log, m, Deleting) && NoListings(old(transport.log), transport.log)
      ensures |transport.log| <= m + 1 + maxReads
      ensures transport.log[m].record == Tombstone(id) && Tombstone(id).id == id && Tombstone(id).spaceId == spaceId
      ensures Goes(transport.log, m, id, Deleting, true, r)
      ensures r.Ok? && transport.log[m].answer.Ok? ==> GoneBy(transport.log, m + 1, id)
    {
      hide Decided, Confirmed, MutationMatches;
      m := |transport.log|;
      var answer := transport.Mutate(Deleting, Tombstone(id));
      assert transport.log[m] == Mutating(Deleting, Tombstone(id), answer);
      if answer.Ok? {
        if !Accepts(answer.value, Some(id)) { return Err(MalformedRemote), m; }
        var confirmed := ConfirmArchive(id, true);
        assert Confirmed(transport.log, m + 1, id, true, confirmed);
        return Unit(confirmed), m;
      }
      if answer.error != TimedOut { return Err(Remote(answer.error)), m; }
      var resolved := ReconcileWrite(Tombstone(id), Deleting);
      assert Decided(transport.log, m + 1, Tombstone(id), Deleting, resolved);
      return if resolved.Ok? || resolved.error in {TimedOut, NotFound} then Ok(()) else Err(Remote(resolved.error)), m;
    }

    /** Refreshes, checks locally, archives once. */
    method ArchiveResource(id: string, condition: WriteCondition)
      returns (r: Result<Stored, AdapterError>, ghost m: nat, ghost refresh: Refresh, ghost checked: Repo)
      modifies this`cache, transport, transport.fake
      ensures transport.Follows(old(transport.trail), old(transport.Tracked(spaceId)), spaceId)
      ensures cache.digest == old(cache.digest)
      ensures OnlyRead(old(transport.log), transport.log) ||
              (MutatedOnce(old(transport.log), transport.log, m, Archiving) && AfterArchive(checked, id, condition).1.Wrote?)
      ensures OnlyRead(old(transport.log), transport.log) ||
              (OnlyRead(old(transport.log), transport.log[..m]) &&
               RefreshedFrom(old(cache), old(transport.log), transport.log[..m], refresh, checked))
      ensures r.Ok? ==> MutatedOnce(old(transport.log), transport.log, m, Archiving) && |transport.log| <= m + 1 + maxReads
      ensures r.Ok? ==> id in checked.resources &&
                        ShownBy(transport.log, m + 1, Tombstone(checked.resources[id].envelope.objectId), Archiving)
      ensures r.Ok? ==> (cache, Wrote(r.value)) == AfterArchive(checked, id, condition)
      ensures r.Ok? ==> transport.log[m].record == Tombstone(checked.resources[id].envelope.objectId)
    {
      hide AfterArchive, RefreshedFrom;
      m, checked := 0, cache;
      var hydrated;
      hydrated, refresh := Hydrate();
      checked := cache;
      r := Err(InvalidBody);
      if hydrated.Err? { return Err(hydrated.error), m, refresh, checked; }
      var (next, reply) := AfterArchive(cache, id, condition);
      if reply.Refused? { return Err(Local(reply.error)), m, refresh, checked; }
      ArchiveFinds(cache, id, condition);
      ghost var reread := transport.log;
      var pushed;
      pushed, m := PushArchive(cache.resources[id].envelope.objectId);
      assert reread <= transport.log && transport.log[..|reread|] == reread;
      if pushed.Err? { return Err(pushed.error), m, refresh, checked; }
      cache := next;
      return Ok(reply.stored), m, refresh, checked;
    }

    /** Refreshes, checks locally, deletes once. */
    method DeleteResource(id: string, condition: WriteCondition)
      returns (r: Result<Stored, AdapterError>, ghost m: nat, ghost refresh: Refresh, ghost checked: Repo)
      modifies this`cache, transport, transport.fake
      ensures transport.Follows(old(transport.trail), old(transport.Tracked(spaceId)), spaceId)
      ensures cache.digest == old(cache.digest)
      ensures OnlyRead(old(transport.log), transport.log) ||
              (MutatedOnce(old(transport.log), transport.log, m, Deleting) && AfterDelete(checked, id, condition).1.Wrote?)
      ensures OnlyRead(old(transport.log), transport.log) ||
              (OnlyRead(old(transport.log), transport.log[..m]) &&
               RefreshedFrom(old(cache), old(transport.log), transport.log[..m], refresh, checked))
      ensures r.Ok? ==> MutatedOnce(old(transport.log), transport.log, m, Deleting) && |transport.log| <= m + 1 + maxReads
      ensures r.Ok? ==> (cache, Wrote(r.value)) == AfterDelete(checked, id, condition)
      ensures r.Ok? ==> id in checked.resources &&
                        transport.log[m].record == Tombstone(checked.resources[id].envelope.objectId)
      ensures r.Ok? && transport.log[m].answer.Ok? ==>
                GoneBy(transport.log, m + 1, checked.resources[id].envelope.objectId)
    {
      hide AfterDelete, RefreshedFrom;
      m, checked := 0, cache;
      var hydrated;
      hydrated, refresh := Hydrate();
      checked := cache;
      r := Err(InvalidBody);
      if hydrated.Err? { return Err(hydrated.error), m, refresh, checked; }
      var (next, reply) := AfterDelete(cache, id, condition);
      if reply.Refused? { return Err(Local(reply.error)), m, refresh, checked; }
      DeleteFinds(cache, id, condition);
      ghost var reread := transport.log;
      var pushed;
      pushed, m := PushDelete(cache.resources[id].envelope.objectId);
      assert reread <= transport.log && transport.log[..|reread|] == reread;
      if pushed.Err? { return Err(pushed.error), m, refresh, checked; }
      cache := next;
      return Ok(reply.stored), m, refresh, checked;
    }

    // ----- reading --------------------------------------------------------

    /** Refreshes and looks the resource up, if it is of a served kind. */
    method GetResource(id: string) returns (r: Result<Option<Stored>, AdapterError>, ghost refresh: Refresh)
      modifies this`cache, transport, transport.fake`failure, transport.fake`delayNextRead
      ensures transport.Follows(old(transport.trail), old(transport.Tracked(spaceId)), spaceId)
      ensures OnlyRead(old(transport.log), transport.log)
      ensures r.Ok? ==> RefreshedFrom(old(cache), old(transport.log), transport.log, refresh, cache)
      ensures r.Ok? ==> r.value == if id in cache.resources && Served(cache.resources[id].envelope.kind)
                                   then Some(cache.resources[id]) else None
      ensures old(transport.Clear()) && old(cache).failures == [] ==>
                transport.Clear() &&
                RefreshedAs(old(cache), refresh.clock, transport.Space(spaceId), if r.Ok? then Ok(()) else Err(r.error), cache)
    {
      hide RefreshedFrom;
      var hydrated;
      hydrated, refresh := Hydrate();
      if hydrated.Err? { return Err(hydrated.error), refresh; }
      var current := Current(cache, id);
      return Ok(if current.Some? && Served(current.value.envelope.kind) then current else None), refresh;
    }
  }

  // ----- helpers ----------------------------------------------------------

  function Configured(r: Repo): seq<Collection> {
    MemoryRepository.Entries(r.collections, SortedKeys(r.collections.Keys))
  }

  /** All of these records are listed. */
  predicate ListsOf(data: seq<ObjectRecord>, space: seq<ObjectRecord>) {
    forall k :: 0 <= k < |data| ==> data[k] in space
  }

  /** A page continues what was listed before it, to the end when it is the last one. */
  lemma PageShows(space: seq<ObjectRecord>, skip: nat, size: nat, page: Page)
    requires size >= 1 && skip <= |space| && page == Written(PageAt(space, skip, size))
    ensures ListsOf(page.data, space) && space[..skip] + page.data <= space
    ensures if page.next.Some? then Offset(page.next) <= |space| && space[..Offset(page.next)] == space[..skip] + page.data
            else space[..skip] + page.data == space
  {
    var numbered := PageAt(space, skip, size);
    var to := skip + |page.data|;
    assert page.data == space[skip..to] && space[..skip] + page.data == space[..to];
    assert space == space[..to] + space[to..];
    if numbered.next.Some? {
      CursorIsRead(numbered.next.value);
    } else {
      assert to == |space| && space[..to] == space;
    }
  }

  /** How many objects `n` pages show at most. */
  function Reach(size: nat, n: nat): nat {
    if n == 0 then 0 else Reach(size, n - 1) + size
  }

  predicate NoneIdentified(expected: ObjectRecord, records: seq<ObjectRecord>, digest: Digest) {
    forall k :: 0 <= k < |records| ==> !CreateIdentityMatches(expected, records[k], digest)
  }

  /** Nothing from `skip` up to where the next page starts has the expected identity. */
  predicate ScannedPage(expected: ObjectRecord, space: seq<ObjectRecord>, skip: nat, size: nat, next: Option<string>,
                        digest: Digest) {
    var end := if next.Some? then Offset(next) else |space|;
    (next.Some? ==> end == skip + size) && end <= |space| &&
    forall k :: skip <= k < end ==> !CreateIdentityMatches(expected, space[k], digest)
  }

  lemma ScanSkips(expected: ObjectRecord, space: seq<ObjectRecord>, skip: nat, size: nat, next: Option<string>, place: nat,
                  digest: Digest)
    requires ScannedPage(expected, space, skip, size, next, digest) && skip <= place < |space|
    requires CreateIdentityMatches(expected, space[place], digest)
    ensures next.Some? && Offset(next) == skip + size <= place
  {
  }

  lemma PageIsScanned(expected: ObjectRecord, space: seq<ObjectRecord>, skip: nat, size: nat, page: Page, digest: Digest)
    requires size >= 1 && skip <= |space| && page == Written(PageAt(space, skip, size))
    requires NoneIdentified(expected, page.data, digest)
    ensures ScannedPage(expected, space, skip, size, page.next, digest)
  {
    hide CreateIdentityMatches;
    var numbered := PageAt(space, skip, size);
    if numbered.next.Some? {
      CursorIsRead(numbered.next.value);
    }
    forall k | skip <= k < skip + |page.data| ensures !CreateIdentityMatches(expected, space[k], digest) {
      assert space[k] == page.data[k - skip];
    }
  }

  lemma {:induction false} StageAllFails(objects: seq<ObjectRecord>, front: seq<ObjectRecord>, digest: Digest)
    requires front <= objects && StageAll(front, digest).Err?
    ensures StageAll(objects, digest) == StageAll(front, digest)
    decreases |objects|
  {
    hide StageObject;
    if |front| == |objects| {
      assert front == objects;
    } else {
      StageAllFails(objects[..|objects| - 1], front, digest);
    }
  }

  lemma NothingStaged(digest: Digest)
    ensures StageAll([], digest) == Ok([])
  {
  }

  lemma StageOneMore(before: seq<ObjectRecord>, fetched: seq<ObjectRecord>, record: ObjectRecord, digest: Digest)
    requires StageAll(before + fetched, digest).Ok?
    ensures StageAll(before + (fetched + [record]), digest) ==
            match StageObject(record, digest)
            case Err(e) => Err(e)
            case Ok(one) => Ok(if one.Some? then StageAll(before + fetched, digest).value + [one.value]
                               else StageAll(before + fetched, digest).value)
  {
    hide StageObject;
    var all := before + (fetched + [record]);
    assert all[..|all| - 1] == before + fetched && all[|all| - 1] == record;
  }

  lemma RefreshedConfigures(digest: Digest, clock: U64, fetched: seq<ObjectRecord>, configured: seq<Collection>)
    requires StageAll(fetched, digest).Ok?
    requires Rebuild(Empty(digest, clock), StageAll(fetched, digest).value).Ok?
    ensures Refreshed(digest, clock, fetched, configured).Ok?
    ensures Refreshed(digest, clock, fetched, configured)
         == Configure(Rebuild(Empty(digest, clock), StageAll(fetched, digest).value).value, configured)
    ensures Refreshed(digest, clock, fetched, configured).value.digest == digest
  {
    hide Configure, Rebuild, StageAll;
    var staged := StageAll(fetched, digest).value;
    RebuildHolds(digest, clock, staged);
    ConfigureKeeps(Rebuild(Empty(digest, clock), staged).value, configured, staged);
  }

  lemma RebuildStep(r: Repo, staged: seq<Envelope>, k: nat)
    requires k < |staged| && Rebuild(r, staged[..k]).Ok?
    ensures Rebuild(r, staged[..k + 1]) == AddResource(Rebuild(r, staged[..k]).value, staged[k])
  {
    hide AddResource;
    assert staged[..k + 1][..k] == staged[..k];
  }

  lemma {:induction false} RebuildFails(r: Repo, staged: seq<Envelope>, k: nat)
    requires k <= |staged| && Rebuild(r, staged[..k]).Err?
    ensures Rebuild(r, staged) == Rebuild(r, staged[..k])
    decreases |staged|
  {
    hide AddResource;
    if k == |staged| {
      assert staged[..k] == staged;
    } else {
      var front := staged[..|staged| - 1];
      assert front[..k] == staged[..k];
      RebuildFails(r, front, k);
    }
  }

  lemma ConfigureStep(r: Repo, collections: seq<Collection>, k: nat)
    requires k < |collections| && Configure(r, collections[..k]).Ok?
    ensures Configure(r, collections[..k + 1]) == EnsureCollection(Configure(r, collections[..k]).value, collections[k])
  {
    hide EnsureCollection;
    assert collections[..k + 1][..k] == collections[..k];
  }

  lemma {:induction false} ConfigureFails(r: Repo, collections: seq<Collection>, k: nat)
    requires k <= |collections| && Configure(r, collections[..k]).Err?
    ensures Configure(r, collections) == Configure(r, collections[..k])
    decreases |collections|
  {
    hide EnsureCollection;
    if k == |collections| {
      assert collections[..k] == collections;
    } else {
      var front := collections[..|collections| - 1];
      assert front[..k] == collections[..k];
      ConfigureFails(r, front, k);
    }
  }

  lemma RefreshedAsTells(cache: Repo, clock: U64, space: seq<ObjectRecord>, r: Result<(), AdapterError>, after: Repo)
    requires RefreshedAs(cache, clock, space, r, after)
    ensures r.Ok? <==> Refreshed(cache.digest, clock, space, Configured(cache)).Ok?
    ensures r.Ok? ==> after == Refreshed(cache.digest, clock, space, Configured(cache)).value
  {
    hide Refreshed;
  }

  /** The collection of a resource that can be updated is there already. */
  lemma PreparedAgain(r: Repo, e: Envelope, condition: WriteCondition)
    requires r.failures == [] && AfterUpdate(r, e, condition).1.Wrote?
    ensures Prepared(r, e) == Ok(r) && AfterUpdate(r, e, condition).0.failures == []
  {
  }

  lemma UpdateChecks(r: Repo, e: Envelope, condition: WriteCondition)
    requires AfterUpdate(r, e, condition).1.Wrote?
    ensures r.digest.valid(e)
  {
  }

  lemma EnsureDigest(r: Repo, c: Collection)
    requires EnsureCollection(r, c).Ok?
    ensures EnsureCollection(r, c).value.digest == r.digest
  {
  }

  lemma UpdateAnswers(r: Repo, e: Envelope, condition: WriteCondition)
    ensures AfterUpdate(r, e, condition).0.digest == r.digest
    ensures AfterUpdate(r, e, condition).1.Refused? || AfterUpdate(r, e, condition).1.Wrote?
  {
  }

  lemma ArchiveFinds(r: Repo, id: string, condition: WriteCondition)
    requires !AfterArchive(r, id, condition).1.Refused?
    ensures id in r.resources && AfterArchive(r, id, condition).1.Wrote?
    ensures AfterArchive(r, id, condition).0.digest == r.digest
  {
  }

  lemma DeleteFinds(r: Repo, id: string, condition: WriteCondition)
    requires !AfterDelete(r, id, condition).1.Refused?
    ensures id in r.resources && AfterDelete(r, id, condition).1.Wrote?
    ensures AfterDelete(r, id, condition).0.digest == r.digest
  {
  }

  lemma CreateChecks(r: Repo, e: Envelope, condition: WriteCondition)
    requires !AfterCreate(r, e, condition).1.Refused?
    ensures r.digest.valid(e)
  {
  }

  lemma CreateStores(r: Repo, e: Envelope, condition: WriteCondition)
    ensures AfterCreate(r, e, condition).0.digest == r.digest
    ensures AfterCreate(r, e, condition).1.Refused? || AfterCreate(r, e, condition).1.Wrote?
    ensures !AfterCreate(r, e, condition).1.Refused? ==>
              e.resourceId in AfterCreate(r, e, condition).0.resources &&
              AfterCreate(r, e, condition).0.resources[e.resourceId].etag == r.digest.tag(e)
  {
  }
}
