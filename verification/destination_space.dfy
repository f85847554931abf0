/** The destination space of a materialization, as its one writer sees it, and the scan for its records. */
module DestinationSpace {
  import opened Wrappers
  import opened Text
  import opened Envelope
  import opened Composition
  import opened MaterializedRecords
  import A = AnytypeObjects

  const MAX_PAGES: nat := 100
  const MAX_ROWS: nat := 10_000

  datatype Error =
    | EmptySources | DuplicateSourceScope | SourceCollectionUnsupported | InvalidResourceId
    | Merging(error: CompositionError) | SourceResourceRequired | SourceNotFound(key: Key)
    | SourceUnavailableWithoutReference(key: Key) | SourceRepository | SourceKindMismatch
    | DestinationTransport(reason: A.TransportError) | MalformedDestinationRecord | DuplicateDestinationReference
    | DestinationBindingMismatch | ScanLimitExceeded | RepeatedPaginationOffset

  // ----- the destination space --------------------------------------------

  /** An object in a listing, which may leave the body out. */
  datatype Listed = Listed(id: string, spaceId: string, archived: bool, body: Body)

  datatype Page = Page(data: seq<Listed>, next: Option<nat>)

  predicate ListedAs(l: Listed, objects: Objects, id: string)
    requires id in objects
  {
    l.id == id && l.spaceId == objects[id].spaceId && l.archived == objects[id].archived &&
    l.body in {Blank, objects[id].body}
  }

  /** The data lists the objects with these ids, from a place on. */
  predicate Lists(data: seq<Listed>, objects: Objects, ids: seq<string>, skip: nat) {
    (data != [] ==> skip + |data| <= |ids|) &&
    forall k :: 0 <= k < |data| ==> ids[skip + k] in objects && ListedAs(data[k], objects, ids[skip + k])
  }

  predicate IsPage(page: Page, objects: Objects, ids: seq<string>, skip: nat) {
    Lists(page.data, objects, ids, skip) &&
    page.next == if skip + |page.data| < |ids| then Some(skip + |page.data|) else None
  }

  /** What becomes of a write: it may be made or not, whatever is answered, except that success means made. */
  datatype Fate = Made | MadeUnheard(reason: A.TransportError) | NotMade(reason: A.TransportError)

  /** A space that only this run writes. Any call may fail, and pages may have any size. */
  class Destination {
    const spaceId: string
    var objects: Objects
    /** Every state that a write has left. */
    ghost var past: set<Objects>

    function Shown(id: string, bare: bool): (l: Listed)
      requires id in objects
      reads this
      ensures ListedAs(l, objects, id)
    {
      Listed(id, objects[id].spaceId, objects[id].archived, if bare then Blank else objects[id].body)
    }

    method List(cursor: Option<nat>) returns (r: Result<Page, A.TransportError>)
      ensures r.Ok? ==> IsPage(r.value, objects, SortedKeys(objects.Keys), if cursor.Some? then cursor.value else 0)
    {
      hide Lists, ListedAs;
      var failure: Option<A.TransportError> := *;
      if failure.Some? { return Err(failure.value); }
      var ids := SortedKeys(objects.Keys);
      var data := Slice(ids, if cursor.Some? then cursor.value else 0);
      var end := (if cursor.Some? then cursor.value else 0) + |data|;
      return Ok(Page(data, if end < |ids| then Some(end) else None));
    }

    /** Any number of objects, from a place on. */
    method Slice(ids: seq<string>, skip: nat) returns (data: seq<Listed>)
      requires forall id :: id in ids ==> id in objects
      ensures Lists(data, objects, ids, skip)
    {
      hide ListedAs;
      var size: nat := *;
      data := [];
      while |data| < size && skip + |data| < |ids|
        invariant Lists(data, objects, ids, skip)
      {
        var bare: bool := *;
        data := data + [Shown(ids[skip + |data|], bare)];
      }
    }

    method Get(id: string) returns (r: Result<Stored, A.TransportError>)
      ensures r.Ok? ==> id in objects && r.value == objects[id]
    {
      var failure: Option<A.TransportError> := *;
      if failure.Some? { return Err(failure.value); }
      if id !in objects { return Err(A.NotFound); }
      return Ok(objects[id]);
    }

    /** The server names the new object; a name that is taken is a conflict. */
    method Create(stored: Stored) returns (r: Result<(string, Stored), A.TransportError>, ghost at: string)
      modifies this
      ensures past == old(past) + {objects}
      ensures objects == old(objects) || (at !in old(objects) && objects == old(objects)[at := stored])
      ensures r.Ok? ==> at !in old(objects) && objects == old(objects)[at := stored] && r.value == (at, stored)
    {
      var id: string := *;
      var fate: Fate := *;
      at := id;
      if id in objects {
        fate := NotMade(A.Conflict);
      }
      if !fate.NotMade? {
        objects := objects[id := stored];
      }
      past := past + {objects};
      match fate
      case Made => r := Ok((id, stored));
      case MadeUnheard(reason) => r := Err(reason);
      case NotMade(reason) => r := Err(reason);
    }

    /** The answer to an update may name another object. */
    method Update(id: string, stored: Stored) returns (r: Result<(string, Stored), A.TransportError>)
      modifies this
      ensures past == old(past) + {objects}
      ensures objects == old(objects) || (id in old(objects) && objects == old(objects)[id := stored])
      ensures r.Ok? ==> id in old(objects) && objects == old(objects)[id := stored] && r.value.1 == stored
    {
      var fate: Fate := *;
      var named: string := *;
      if id !in objects {
        fate := NotMade(A.NotFound);
      }
      if !fate.NotMade? {
        objects := objects[id := stored];
      }
      past := past + {objects};
      match fate
      case Made => r := Ok((named, stored));
      case MadeUnheard(reason) => r := Err(reason);
      case NotMade(reason) => r := Err(reason);
    }
  }

  // ----- scanning ---------------------------------------------------------

  predicate ShowsLive(row: Loaded, objects: Objects) {
    Live(objects, row.id) && objects[row.id] == row.stored && RecordAt(objects, row.id) == row.record
  }

  /** Live records, each once. */
  predicate LiveRows(rows: seq<Loaded>, objects: Objects) {
    (forall k :: 0 <= k < |rows| ==> ShowsLive(rows[k], objects)) &&
    (forall j, k :: 0 <= j < k < |rows| ==> rows[j].id != rows[k].id)
  }

  /** Nothing but a record mentions the record type, unless it is archived. */
  predicate Legible(stored: Stored) {
    stored.archived ||
    match stored.body
    case Blank => true
    case Text(mentions) => !mentions
    case Holds(record) => RecordOk(record)
  }

  /** The live records among the objects seen so far. */
  predicate Scanned(rows: seq<Loaded>, objects: Objects, seen: set<string>) {
    LiveRows(rows, objects) && (forall k :: 0 <= k < |rows| ==> rows[k].id in seen) &&
    (forall id :: id in seen && Live(objects, id) ==> HasRow(rows, id)) &&
    (forall id :: id in seen && id in objects ==> Legible(objects[id]))
  }

  /** The ids before `n` were seen, the others not. */
  predicate Passed(ids: seq<string>, n: nat, seen: set<string>) {
    n <= |ids| && (forall j :: 0 <= j < n ==> ids[j] in seen) && (forall j :: n <= j < |ids| ==> ids[j] !in seen)
  }

  lemma PassOne(ids: seq<string>, n: nat, seen: set<string>)
    requires StrictlySorted(ids) && Passed(ids, n, seen) && n < |ids|
    ensures Passed(ids, n + 1, seen + {ids[n]})
  {
    forall j | n + 1 <= j < |ids| ensures ids[j] != ids[n] {
      LessTrichotomy(ids[n], ids[j]);
    }
  }

  /** The record in a listed object, if it is live; the full body is fetched where the listing left it out. */
  method ScanOne(d: Destination, listed: Listed) returns (r: Result<Option<Loaded>, Error>)
    requires listed.id in d.objects && ListedAs(listed, d.objects, listed.id)
    ensures r.Ok? ==> (r.value.Some? <==> Live(d.objects, listed.id))
    ensures r.Ok? && r.value.Some? ==> r.value.value.id == listed.id && ShowsLive(r.value.value, d.objects)
    ensures r.Ok? ==> d.objects[listed.id].spaceId == d.spaceId && Legible(d.objects[listed.id])
  {
    if listed.spaceId != d.spaceId { return Err(DestinationBindingMismatch); }
    if listed.archived { return Ok(None); }
    var stored := d.objects[listed.id];
    if listed.body.Blank? {
      var full := d.Get(listed.id);
      if full.Err? { return Err(DestinationTransport(full.error)); }
      stored := full.value;
    }
    if stored.spaceId != d.spaceId { return Err(DestinationBindingMismatch); }
    var record := ReadBody(stored.body);
    if record.Some? { return Ok(Some(Loaded(listed.id, stored, record.value))); }
    if Mentions(stored.body) { return Err(MalformedDestinationRecord); }
    return Ok(None);
  }

  lemma ScanMore(rows: seq<Loaded>, objects: Objects, seen: set<string>, id: string, found: Option<Loaded>)
    requires Scanned(rows, objects, seen) && id !in seen
    requires (found.Some? <==> Live(objects, id)) && (id in objects ==> Legible(objects[id]))
    requires found.Some? ==> found.value.id == id && ShowsLive(found.value, objects)
    ensures Scanned(if found.Some? then rows + [found.value] else rows, objects, seen + {id})
  {
    hide ShowsLive, Live, Legible;
    if found.Some? {
      var more := rows + [found.value];
      forall other | other in seen + {id} && Live(objects, other) ensures HasRow(more, other) {
        if other == id {
          assert more[|rows|].id == id;
        } else {
          assert HasRow(rows, other);
          var k :| 0 <= k < |rows| && rows[k].id == other;
          assert more[k].id == other;
        }
      }
    }
  }

  method ScanPage(d: Destination, data: seq<Listed>, ghost ids: seq<string>, ghost skip: nat, ghost before: set<string>,
                  rows: seq<Loaded>)
    returns (r: Result<seq<Loaded>, Error>, ghost seen: set<string>)
    requires StrictlySorted(ids) && Lists(data, d.objects, ids, skip)
    requires Passed(ids, skip, before) && Scanned(rows, d.objects, before)
    ensures r.Ok? ==> Passed(ids, skip + |data|, seen) && Scanned(r.value, d.objects, seen)
  {
    hide Scanned, ListedAs, Live, ShowsLive, StrictlySorted, Passed, Legible;
    var all := rows;
    seen := before;
    for k := 0 to |data|
      invariant Passed(ids, skip + k, seen) && Scanned(all, d.objects, seen)
    {
      if |all| >= MAX_ROWS { return Err(ScanLimitExceeded), seen; }
      ghost var id := ids[skip + k];
      ListedId(data[k], d.objects, id);
      var found := ScanOne(d, data[k]);
      if found.Err? { return Err(found.error), seen; }
      NotSeen(ids, skip + k, seen);
      ScanMore(all, d.objects, seen, id, found.value);
      PassOne(ids, skip + k, seen);
      if found.value.Some? {
        all := all + [found.value.value];
      }
      seen := seen + {id};
    }
    return Ok(all), seen;
  }

  lemma NotSeen(ids: seq<string>, n: nat, seen: set<string>)
    requires Passed(ids, n, seen) && n < |ids|
    ensures ids[n] !in seen
  {
  }

  lemma ListedId(l: Listed, objects: Objects, id: string)
    requires id in objects && ListedAs(l, objects, id)
    ensures l.id == id
  {
  }

  /** Exactly the live records of the space, each once. */
  ghost predicate Complete(rows: seq<Loaded>, objects: Objects) {
    LiveRows(rows, objects) && forall id :: Live(objects, id) ==> HasRow(rows, id)
  }

  lemma AllScanned(rows: seq<Loaded>, objects: Objects, seen: set<string>)
    requires Passed(SortedKeys(objects.Keys), |SortedKeys(objects.Keys)|, seen) && Scanned(rows, objects, seen)
    ensures Complete(rows, objects)
    ensures forall id :: id in objects ==> Legible(objects[id])
  {
    hide Legible;
    var ids := SortedKeys(objects.Keys);
    forall id | Live(objects, id) ensures HasRow(rows, id) {
      assert id in ids;
    }
    forall id | id in objects ensures Legible(objects[id]) {
      assert id in ids;
    }
  }

  lemma PageEnds(page: Page, objects: Objects, ids: seq<string>, skip: nat)
    requires IsPage(page, objects, ids, skip) && skip <= |ids|
    ensures skip + |page.data| <= |ids| && (page.next.None? ==> skip + |page.data| == |ids|)
    ensures page.next.Some? ==> page.next.value == skip + |page.data|
  {
  }

  /** `scan_destination_materialized`: on success, exactly the live records of the space, and no
      other object that passes for one. */
  method Scan(d: Destination) returns (r: Result<seq<Loaded>, Error>)
    ensures r.Ok? ==> Complete(r.value, d.objects)
    ensures r.Ok? ==> forall id :: id in d.objects ==> Legible(d.objects[id])
  {
    ghost var ids := SortedKeys(d.objects.Keys);
    SortedKeysAscend(d.objects.Keys);
    var cursor: Option<nat> := None;
    var rows: seq<Loaded> := [];
    ghost var at: nat := 0;
    ghost var seen: set<string> := {};
    hide StrictlySorted, Complete, SortedKeys, Live, Legible;
    for n := 0 to MAX_PAGES
      invariant at == (if cursor.Some? then cursor.value else 0) && Passed(ids, at, seen)
      invariant Scanned(rows, d.objects, seen)
    {
      hide Scanned, Passed;
      var page := d.List(cursor);
      if page.Err? { return Err(DestinationTransport(page.error)); }
      assert at <= |ids| by { PassedBound(ids, at, seen); }
      PageEnds(page.value, d.objects, ids, at);
      var more;
      more, seen := ScanPage(d, page.value.data, ids, at, seen, rows);
      if more.Err? { return more; }
      rows := more.value;
      if page.value.next.None? {
        AllScanned(rows, d.objects, seen);
        return Ok(rows);
      }
      if page.value.next == cursor { return Err(RepeatedPaginationOffset); }
      cursor := page.value.next;
      at := cursor.value;
    }
    return Err(ScanLimitExceeded);
  }

  lemma PassedBound(ids: seq<string>, n: nat, seen: set<string>)
    requires Passed(ids, n, seen)
    ensures n <= |ids|
  {
  }
}
