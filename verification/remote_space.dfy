/** The remote as the adapter sees it: a scripted one or any other, and the log of what was exchanged. */
module RemoteSpace {
  import opened Wrappers
  import opened AnytypeObjects
  import opened F = FakeTransport

  /** One request to the remote and its answer. */
  datatype Exchange =
    | Listing(cursor: Option<string>, page: Result<Page, TransportError>)
    | Reading(id: string, answer: Result<ObjectRecord, TransportError>)
    | Mutating(kind: Kind, record: ObjectRecord, answer: Result<ObjectRecord, TransportError>)

  // ----- what the script did ----------------------------------------------

  /** An exchange over one space of a scripted remote, while it shows no archived objects: an answered
      request shows or makes what the script says; one that fails may have been made all the same. */
  ghost predicate ScriptStep(before: Objects, spaceId: string, exchange: Exchange, after: Objects) {
    match exchange
    case Listing(cursor, page) =>
      after == before &&
      (page.Ok? ==> exists size: PageSize :: page.value == Written(PageAt(Matching(before, spaceId, false), Offset(cursor), size)))
    case Reading(id, answer) => after == before && (answer.Ok? ==> (spaceId, id) in before && answer.value == before[(spaceId, id)])
    case Mutating(kind, record, answer) =>
      record.spaceId == spaceId &&
      ((answer.Err? && after == before) ||
       (Denial(before, kind, record).None? && after == Mutated(before, kind, record) &&
        answer in {Ok(Answered(before, kind, record)), Err(TimedOut)}))
  }

  ghost predicate ScriptStepAt(trail: seq<Objects>, spaceId: string, log: seq<Exchange>, k: nat)
    requires |trail| == |log| + 1 && k < |log|
  {
    ScriptStep(trail[k], spaceId, log[k], trail[k + 1])
  }

  /** The trail has what the script held before, between and after the exchanges of the log. */
  ghost predicate ScriptRun(trail: seq<Objects>, spaceId: string, log: seq<Exchange>) {
    |trail| == |log| + 1 && forall k :: 0 <= k < |log| ==> ScriptStepAt(trail, spaceId, log, k)
  }

  lemma ScriptGoesOn(trail: seq<Objects>, spaceId: string, log: seq<Exchange>, exchange: Exchange, after: Objects)
    requires ScriptRun(trail, spaceId, log) && ScriptStep(trail[|log|], spaceId, exchange, after)
    ensures |trail| == |log| + 1
    ensures ScriptRun(trail + [after], spaceId, log + [exchange])
  {
    hide ScriptStep;
    forall k | 0 <= k < |log| + 1 ensures ScriptStepAt(trail + [after], spaceId, log + [exchange], k) {
      if k < |log| {
        assert ScriptStepAt(trail, spaceId, log, k);
      }
    }
  }

  lemma ListingIsStep(objects: Objects, spaceId: string, cursor: Option<string>, size: PageSize,
                      page: Result<Page, TransportError>)
    requires page.Ok? ==> page.value == Written(PageAt(Matching(objects, spaceId, false), Offset(cursor), size))
    ensures ScriptStep(objects, spaceId, Listing(cursor, page), objects)
  {
  }

  // ----- the remote -------------------------------------------------------

  /** A scripted remote, or one that may answer anything, except that its listings have finitely
      many pages. */
  class Transport {
    const fake: FakeTransport
    const scripted: bool
    ghost var log: seq<Exchange>
    /** What the script held before the first exchange and after each. */
    ghost var trail: seq<Objects>
    var pagesLeft: nat

    constructor (fake: FakeTransport, scripted: bool, pagesLeft: nat)
      ensures this.fake == fake && this.scripted == scripted && log == [] && this.pagesLeft == pagesLeft
      ensures trail == [fake.objects]
    {
      this.fake, this.scripted, log, this.pagesLeft := fake, scripted, [], pagesLeft;
      trail := [fake.objects];
    }

    /** Nobody but this transport touched the scripted remote, and it was used for one space only. */
    ghost predicate Tracked(spaceId: string)
      reads this, fake
    {
      scripted && !fake.delayed && ScriptRun(trail, spaceId, log) && trail[|log|] == fake.objects
    }

    /** The trail went on from `before`, and stays the script's own if it was. */
    ghost predicate Follows(before: seq<Objects>, tracked: bool, spaceId: string)
      reads this, fake
    {
      before <= trail && (tracked ==> Tracked(spaceId))
    }

    /** A script that neither fails nor delays anything on purpose. */
    predicate Ready()
      reads fake
    {
      Clear() && !fake.delayed && fake.timeoutAfter.None?
    }

    /** A script with no failure pending. */
    predicate Clear()
      reads fake
    {
      scripted && fake.failure.None? && !fake.delayNextRead
    }

    /** What the script lists of a space. */
    function Space(spaceId: string): seq<ObjectRecord>
      reads fake
    {
      Matching(fake.objects, spaceId, fake.delayed)
    }

    /** What a listing can still go on for: the objects behind the cursor, or the pages. */
    function Ahead(spaceId: string, cursor: Option<string>): nat
      reads this, fake
    {
      if !scripted then pagesLeft
      else if Offset(cursor) <= |Space(spaceId)| then |Space(spaceId)| - Offset(cursor) else 0
    }

    method List(spaceId: string, cursor: Option<string>) returns (r: Result<Page, TransportError>)
      modifies this`log, this`trail, this`pagesLeft, fake`failure, fake`delayNextRead
      ensures log == old(log) + [Listing(cursor, r)]
      ensures Follows(old(trail), old(Tracked(spaceId)), spaceId)
      ensures r.Ok? && r.value.next.Some? ==> Ahead(spaceId, r.value.next) < old(Ahead(spaceId, cursor))
      ensures old(Clear()) ==>
                Clear() && r == Ok(Written(PageAt(Space(spaceId), Offset(cursor), fake.pageSize)))
    {
      hide Matching, ScriptRun, ScriptStep;
      if scripted {
        r := fake.List(spaceId, cursor);
        if r.Ok? && r.value.next.Some? {
          CursorIsRead(PageAt(Space(spaceId), Offset(cursor), fake.pageSize).next.value);
        }
      } else {
        r := *;
        if r.Ok? && r.value.next.Some? {
          if pagesLeft == 0 {
            r := Ok(r.value.(next := None));
          } else {
            pagesLeft := pagesLeft - 1;
          }
        }
      }
      if old(Tracked(spaceId)) {
        ListingIsStep(fake.objects, spaceId, cursor, fake.pageSize, r);
        ScriptGoesOn(trail, spaceId, log, Listing(cursor, r), fake.objects);
      }
      log, trail := log + [Listing(cursor, r)], trail + [fake.objects];
    }

    method Get(spaceId: string, id: string) returns (r: Result<ObjectRecord, TransportError>)
      modifies this`log, this`trail, fake`failure, fake`delayNextRead
      ensures log == old(log) + [Reading(id, r)]
      ensures Follows(old(trail), old(Tracked(spaceId)), spaceId)
      ensures old(Clear()) ==>
                Clear() && r == if (spaceId, id) in fake.objects then Ok(fake.objects[(spaceId, id)]) else Err(NotFound)
    {
      if scripted {
        r := fake.Get(spaceId, id);
      } else {
        r := *;
      }
      if old(Tracked(spaceId)) {
        ScriptGoesOn(trail, spaceId, log, Reading(id, r), fake.objects);
      }
      log, trail := log + [Reading(id, r)], trail + [fake.objects];
    }

    /** Creates, updates, archives or deletes an object. */
    method Mutate(kind: Kind, record: ObjectRecord) returns (r: Result<ObjectRecord, TransportError>)
      modifies this`log, this`trail, fake
      ensures log == old(log) + [Mutating(kind, record, r)]
      ensures Follows(old(trail), old(Tracked(record.spaceId)), record.spaceId)
      ensures scripted && old(fake.failure).Some? ==>
                r == Err(old(fake.failure).value) && fake.failure == None && fake.objects == old(fake.objects) &&
                fake.delayNextRead == old(fake.delayNextRead) && fake.delayed == old(fake.delayed) &&
                fake.pageSize == old(fake.pageSize)
      ensures old(Ready()) ==>
                Ready() && fake.objects == Mutated(old(fake.objects), kind, record) && fake.pageSize == old(fake.pageSize) &&
                r == MutationAnswer(old(fake.objects), false, kind, record)
    {
      if scripted {
        r := fake.Mutate(kind, record);
      } else {
        r := *;
      }
      if old(Tracked(record.spaceId)) {
        ScriptGoesOn(trail, record.spaceId, log, Mutating(kind, record, r), fake.objects);
      }
      log, trail := log + [Mutating(kind, record, r)], trail + [fake.objects];
    }
  }

  // ----- what a log shows -------------------------------------------------

  /** No mutation from position `n` on. */
  predicate QuietFrom(log: seq<Exchange>, n: nat) {
    forall k :: n <= k < |log| ==> !log[k].Mutating?
  }

  /** The log went on from `before`, with no mutation. */
  predicate OnlyRead(before: seq<Exchange>, log: seq<Exchange>) {
    before <= log && QuietFrom(log, |before|)
  }

  /** From `before` on, the only mutation is the one at `m`. */
  predicate MutatedOnce(before: seq<Exchange>, log: seq<Exchange>, m: nat, kind: Kind) {
    before <= log && |before| <= m < |log| && log[m].Mutating? && log[m].kind == kind &&
    (forall k :: |before| <= k < m ==> !log[k].Mutating?) && QuietFrom(log, m + 1)
  }

  function Mutations(log: seq<Exchange>): nat {
    if log == [] then 0
    else Mutations(log[..|log| - 1]) + (if log[|log| - 1].Mutating? then 1 else 0)
  }

  /** A read from position `n` on that shows the expected outcome. */
  ghost predicate ShownBy(log: seq<Exchange>, n: nat, expected: ObjectRecord, kind: Kind) {
    exists k :: n <= k < |log| && log[k].Reading? && log[k].answer.Ok? &&
                MutationMatches(expected, log[k].answer.value, kind)
  }

  /** A record that the remote has shown from position `n` on, in a listing or by a read. */
  ghost predicate Seen(log: seq<Exchange>, n: nat, record: ObjectRecord) {
    exists k :: n <= k < |log| && SeenAt(log[k], record)
  }

  predicate SeenAt(exchange: Exchange, record: ObjectRecord) {
    match exchange
    case Listing(_, page) => page.Ok? && record in page.value.data
    case Reading(id, answer) => answer == Ok(record)
    case Mutating(_, _, _) => false
  }

  function Listings(log: seq<Exchange>): nat {
    if log == [] then 0
    else Listings(log[..|log| - 1]) + (if log[|log| - 1].Listing? then 1 else 0)
  }

  /** All records that the listings in a log returned, in order. */
  function Listed(log: seq<Exchange>): seq<ObjectRecord> {
    if log == [] then []
    else
      var last := log[|log| - 1];
      Listed(log[..|log| - 1]) + (if last.Listing? && last.page.Ok? then last.page.value.data else [])
  }

  /** The log went on from `before`, with no listing. */
  predicate NoListings(before: seq<Exchange>, log: seq<Exchange>) {
    before <= log && forall k :: |before| <= k < |log| ==> !log[k].Listing?
  }

  /** How far a log has followed the pages of a listing, from its first page on. */
  datatype Walk = Follow(cursor: Option<string>) | Ended | Astray

  function WalkOf(log: seq<Exchange>, from: nat): Walk {
    if |log| <= from then Follow(None)
    else
      var last, walk := log[|log| - 1], WalkOf(log[..|log| - 1], from);
      if !last.Listing? then walk
      else if last.page.Err? || walk != Follow(last.cursor) then Astray
      else if last.page.value.next.None? then Ended
      else Follow(last.page.value.next)
  }

  /** A listing may leave the body out. */
  predicate Bare(listed: ObjectRecord) {
    listed.body.NoBody? && listed.id != ""
  }

  ghost predicate ReadAs(log: seq<Exchange>, n: nat, id: string, full: ObjectRecord) {
    exists k :: n <= k < |log| && log[k] == Reading(id, Ok(full))
  }

  /** The full object is the listed one or, when that is bare, what a read of it showed. */
  ghost predicate FetchedFor(log: seq<Exchange>, n: nat, listed: ObjectRecord, full: ObjectRecord) {
    full.id == listed.id && if Bare(listed) then ReadAs(log, n, listed.id, full) else full == listed
  }

  ghost predicate Fetched(log: seq<Exchange>, n: nat, listed: seq<ObjectRecord>, fetched: seq<ObjectRecord>) {
    |fetched| == |listed| && forall k :: 0 <= k < |listed| ==> FetchedFor(log, n, listed[k], fetched[k])
  }

  /** Since `before`, the pages were followed from the first to the last, and every listed object was
      fetched in full. */
  ghost predicate Reread(before: seq<Exchange>, log: seq<Exchange>, listed: seq<ObjectRecord>, fetched: seq<ObjectRecord>) {
    WalkOf(log, |before|) == Ended && Listed(log) == Listed(before) + listed && Fetched(log, |before|, listed, fetched)
  }

  // ----- how logs grow ----------------------------------------------------

  lemma ListedMore(log: seq<Exchange>, exchange: Exchange)
    ensures Listed(log + [exchange]) ==
            Listed(log) + (if exchange.Listing? && exchange.page.Ok? then exchange.page.value.data else [])
    ensures Listings(log + [exchange]) == Listings(log) + (if exchange.Listing? then 1 else 0)
  {
    assert (log + [exchange])[..|log|] == log;
  }

  lemma WalkStarts(log: seq<Exchange>)
    ensures WalkOf(log, |log|) == Follow(None) && Listed(log) + [] == Listed(log)
  {
  }

  lemma WalkMore(log: seq<Exchange>, from: nat, exchange: Exchange)
    requires from <= |log|
    ensures WalkOf(log + [exchange], from) ==
            if !exchange.Listing? then WalkOf(log, from)
            else if exchange.page.Err? || WalkOf(log, from) != Follow(exchange.cursor) then Astray
            else if exchange.page.value.next.None? then Ended
            else Follow(exchange.page.value.next)
  {
    assert (log + [exchange])[..|log|] == log;
  }

  /** Without listings, what was listed and how far it was followed stay as they are. */
  lemma {:induction false} NoListingsKeep(before: seq<Exchange>, log: seq<Exchange>, from: nat)
    requires NoListings(before, log) && from <= |before|
    ensures Listed(log) == Listed(before) && WalkOf(log, from) == WalkOf(before, from)
    ensures Listings(log) == Listings(before)
    decreases |log|
  {
    if |log| == |before| {
      assert log == before;
    } else {
      var front, last := log[..|log| - 1], log[|log| - 1];
      assert log == front + [last] && NoListings(before, front);
      NoListingsKeep(before, front, from);
      ListedMore(front, last);
      WalkMore(front, from, last);
      assert Listed(front) + [] == Listed(front);
    }
  }

  lemma FetchedLater(log: seq<Exchange>, more: seq<Exchange>, later: nat, n: nat, listed: ObjectRecord, full: ObjectRecord)
    requires FetchedFor(log, later, listed, full) && n <= later && log <= more
    ensures FetchedFor(more, n, listed, full)
  {
    if Bare(listed) {
      var k :| later <= k < |log| && log[k] == Reading(listed.id, Ok(full));
      assert more[k] == log[k];
    }
  }

  lemma NothingFetched(log: seq<Exchange>, n: nat)
    ensures Fetched(log, n, [], [])
  {
  }

  lemma FetchedOneMore(log: seq<Exchange>, more: seq<Exchange>, n: nat, listed: seq<ObjectRecord>, fetched: seq<ObjectRecord>,
                       one: ObjectRecord, full: ObjectRecord)
    requires Fetched(log, n, listed, fetched) && log <= more && n <= |log| && FetchedFor(more, |log|, one, full)
    ensures Fetched(more, n, listed + [one], fetched + [full])
  {
    hide FetchedFor;
    forall k | 0 <= k < |listed| ensures FetchedFor(more, n, listed[k], fetched[k]) {
      FetchedLater(log, more, n, n, listed[k], fetched[k]);
    }
    FetchedLater(more, more, |log|, n, one, full);
  }

  lemma FetchedMore(log: seq<Exchange>, more: seq<Exchange>, n: nat, listed: seq<ObjectRecord>, fetched: seq<ObjectRecord>,
                    data: seq<ObjectRecord>, got: seq<ObjectRecord>)
    requires Fetched(log, n, listed, fetched) && log <= more && Fetched(more, n, data, got)
    ensures Fetched(more, n, listed + data, fetched + got)
  {
    hide FetchedFor;
    var all, full := listed + data, fetched + got;
    forall k | 0 <= k < |all| ensures FetchedFor(more, n, all[k], full[k]) {
      if k < |listed| {
        FetchedLater(log, more, n, n, listed[k], fetched[k]);
      }
    }
  }

  lemma SeenFull(log: seq<Exchange>, listing: nat, start: nat, listed: ObjectRecord, full: ObjectRecord)
    requires listing < start <= |log| && log[listing].Listing? && log[listing].page.Ok? && listed in log[listing].page.value.data
    requires FetchedFor(log, start, listed, full)
    ensures Seen(log, listing, full)
  {
    if Bare(listed) {
      var k :| start <= k < |log| && log[k] == Reading(listed.id, Ok(full));
      assert SeenAt(log[k], full);
    } else {
      assert SeenAt(log[listing], full);
    }
  }

  lemma SeenEarlier(log: seq<Exchange>, n: nat, later: nat, record: ObjectRecord)
    requires n <= later && Seen(log, later, record)
    ensures Seen(log, n, record)
  {
    var k :| later <= k < |log| && SeenAt(log[k], record);
  }

  lemma OnceIsNotQuiet(before: seq<Exchange>, log: seq<Exchange>, m: nat, kind: Kind)
    requires MutatedOnce(before, log, m, kind)
    ensures !OnlyRead(before, log)
  {
  }

  lemma MutatedLater(before: seq<Exchange>, mid: seq<Exchange>, log: seq<Exchange>, m: nat, kind: Kind)
    requires OnlyRead(before, mid) && MutatedOnce(mid, log, m, kind)
    ensures MutatedOnce(before, log, m, kind) && before <= mid <= log
  {
    forall k | |before| <= k < m ensures !log[k].Mutating? {
      if k < |mid| {
        assert log[k] == mid[k];
      }
    }
  }

  /** One mutation is one mutation, however long the log. */
  lemma {:induction false} OnceIsOne(before: seq<Exchange>, log: seq<Exchange>, m: nat, kind: Kind)
    requires MutatedOnce(before, log, m, kind)
    ensures Mutations(log) == Mutations(before) + 1
    decreases |log|
  {
    var front := log[..|log| - 1];
    if m == |log| - 1 {
      QuietCounts(before, front);
    } else {
      assert before <= front && front[m] == log[m];
      assert QuietFrom(front, m + 1);
      OnceIsOne(before, front, m, kind);
    }
  }

  lemma {:induction false} QuietCounts(before: seq<Exchange>, log: seq<Exchange>)
    requires OnlyRead(before, log)
    ensures Mutations(log) == Mutations(before)
    decreases |log|
  {
    if |log| == |before| {
      assert log == before;
    } else {
      QuietCounts(before, log[..|log| - 1]);
    }
  }
}
