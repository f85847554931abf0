/** Remotes that keep what they are sent: what their answers say, and what a refresh over them reads. */
module StoringRemote {
  import opened Wrappers
  import opened Text
  import opened Repository
  import opened AnytypeObjects
  import opened F = FakeTransport
  import opened RemoteSpace

  predicate UnderOwnIds(objects: map<string, ObjectRecord>) {
    forall id :: id in objects ==> objects[id].id == id
  }

  /** The objects of one space by id. */
  type Contents = m: map<string, ObjectRecord> | UnderOwnIds(m)

  function LiveOf(objects: Contents, ids: seq<string>): seq<ObjectRecord>
    requires forall id :: id in ids ==> id in objects
  {
    if ids == [] then []
    else
      assert ids[0] in ids && forall id :: id in ids[1..] ==> id in ids;
      (if objects[ids[0]].archived then [] else [objects[ids[0]]]) + LiveOf(objects, ids[1..])
  }

  /** What the space lists: its objects that are not archived, in the order of their ids. */
  function Live(objects: Contents): seq<ObjectRecord> {
    LiveOf(objects, SortedKeys(objects.Keys))
  }

  lemma {:induction false} LiveOfIs(objects: Contents, ids: seq<string>, record: ObjectRecord)
    requires forall id :: id in ids ==> id in objects
    ensures record in LiveOf(objects, ids) <==>
            record.id in ids && objects[record.id] == record && !record.archived
  {
    if ids != [] {
      assert ids[0] in ids && forall id :: id in ids[1..] ==> id in ids;
      LiveOfIs(objects, ids[1..], record);
    }
  }

  lemma LiveIs(objects: Contents, record: ObjectRecord)
    ensures record in Live(objects) <==> record.id in objects && objects[record.id] == record && !record.archived
  {
    LiveOfIs(objects, SortedKeys(objects.Keys), record);
  }

  // ----- what an answer says about the space ------------------------------

  /** A listing may leave the body out where there is a name to ask for it by. */
  predicate ListedAs(listed: ObjectRecord, stored: ObjectRecord) {
    listed == stored || (stored.id != "" && listed == stored.(body := NoBody))
  }

  predicate Lists(data: seq<ObjectRecord>, live: seq<ObjectRecord>, skip: nat) {
    (data != [] ==> skip + |data| <= |live|) &&
    forall k :: 0 <= k < |data| ==> ListedAs(data[k], live[skip + k])
  }

  /** A page of any size, from a place on, and the cursor behind it. */
  predicate IsPage(page: Page, live: seq<ObjectRecord>, skip: nat) {
    Lists(page.data, live, skip) &&
    page.next == if skip + |page.data| < |live| then Some(Decimal(skip + |page.data|)) else None
  }

  /** What the remote stores of what it was sent; properties and revision are its own business. */
  predicate Keeps(sent: ObjectRecord, stored: ObjectRecord) {
    stored.body == sent.body && stored.spaceId == sent.spaceId && stored.archived == sent.archived
  }

  /** A mutation is made or not, whatever is answered, except that success means made. A created
      object gets an id of the remote's own, which the answer names. */
  ghost predicate Changes(before: Contents, kind: Kind, sent: ObjectRecord, answer: Result<ObjectRecord, TransportError>,
                          after: Contents) {
    (answer.Err? && after == before) ||
    match kind
    case Creating =>
      exists stored: ObjectRecord :: Keeps(sent, stored) && stored.id !in before &&
                       after == before[stored.id := stored] && (answer.Ok? ==> answer.value.id == stored.id)
    case Updating =>
      exists stored: ObjectRecord :: Keeps(sent, stored) && stored.id == sent.id && stored.id in before &&
                       after == before[stored.id := stored]
    case Archiving => sent.id in before && after == before[sent.id := before[sent.id].(archived := true)]
    case Deleting => sent.id in before && after in {before - {sent.id}, before[sent.id := before[sent.id].(archived := true)]}
  }

  /** An exchange as a remote that stores objects answers it; any call may fail. */
  ghost predicate Explains(before: Contents, exchange: Exchange, after: Contents) {
    match exchange
    case Listing(cursor, page) => after == before && (page.Ok? ==> IsPage(page.value, Live(before), Offset(cursor)))
    case Reading(id, answer) => after == before && (answer.Ok? ==> id in before && answer.value == before[id])
    case Mutating(kind, sent, answer) => Changes(before, kind, sent, answer, after)
  }

  ghost predicate ExplainedAt(spaces: seq<Contents>, log: seq<Exchange>, from: nat, k: nat)
    requires from <= k < |log| && |spaces| == |log| - from + 1
  {
    Explains(spaces[k - from], log[k], spaces[k - from + 1])
  }

  /** The space went through these contents while the log went on from a place. */
  ghost predicate Explained(spaces: seq<Contents>, log: seq<Exchange>, from: nat) {
    from <= |log| && |spaces| == |log| - from + 1 &&
    forall k :: from <= k < |log| ==> ExplainedAt(spaces, log, from, k)
  }

  /** Reads leave the space alone. */
  lemma {:induction false} QuietStays(spaces: seq<Contents>, log: seq<Exchange>, from: nat, i: nat, j: nat)
    requires Explained(spaces, log, from) && from <= i <= j <= |log|
    requires forall k :: i <= k < j ==> !log[k].Mutating?
    ensures spaces[j - from] == spaces[i - from]
    decreases j
  {
    if i < j {
      QuietStays(spaces, log, from, i, j - 1);
      assert ExplainedAt(spaces, log, from, j - 1);
    }
  }

  // ----- what a walk over the pages reads ---------------------------------

  /** All exchanges from a place on are reads of the same contents. */
  ghost predicate ReadsOf(log: seq<Exchange>, from: nat, objects: Contents) {
    forall k :: from <= k < |log| ==> !log[k].Mutating? && Explains(objects, log[k], objects)
  }

  ghost predicate ListedSo(listed: seq<ObjectRecord>, live: seq<ObjectRecord>) {
    |listed| <= |live| && forall k :: 0 <= k < |listed| ==> ListedAs(listed[k], live[k])
  }

  lemma PageExtends(listed: seq<ObjectRecord>, live: seq<ObjectRecord>, page: Page, skip: nat)
    requires ListedSo(listed, live) && |listed| == skip && IsPage(page, live, skip)
    ensures ListedSo(listed + page.data, live)
    ensures if page.next.Some? then Offset(page.next) == |listed + page.data| else |listed + page.data| == |live|
  {
    if page.next.Some? {
      CursorIsRead(skip + |page.data|);
    }
    var all := listed + page.data;
    forall k | 0 <= k < |all| ensures ListedAs(all[k], live[k]) {
      if k >= skip {
        assert all[k] == page.data[k - skip];
      }
    }
  }

  /** Following the pages lists a space from its first object on, and to its last when it ends,
      whatever the sizes of the pages. */
  lemma {:induction false} WalkLists(log: seq<Exchange>, from: nat, objects: Contents) returns (listed: seq<ObjectRecord>)
    requires from <= |log| && ReadsOf(log, from, objects) && WalkOf(log, from) != Astray
    ensures Listed(log) == Listed(log[..from]) + listed && ListedSo(listed, Live(objects))
    ensures match WalkOf(log, from)
            case Follow(cursor) => Offset(cursor) == |listed|
            case Ended => |listed| == |Live(objects)|
            case Astray => false
    decreases |log|
  {
    hide Live, IsPage;
    if |log| == from {
      listed := [];
      assert log[..from] == log;
    } else {
      var front, last := log[..|log| - 1], log[|log| - 1];
      assert log == front + [last] && front[..from] == log[..from];
      ListedMore(front, last);
      WalkMore(front, from, last);
      assert forall k :: from <= k < |front| ==> front[k] == log[k];
      assert !log[|log| - 1].Mutating? && Explains(objects, log[|log| - 1], objects);
      listed := WalkLists(front, from, objects);
      if last.Listing? && last.page.Ok? {
        PageExtends(listed, Live(objects), last.page.value, Offset(last.cursor));
        ConcatAssociates(Listed(log[..from]), listed, last.page.value.data);
        listed := listed + last.page.value.data;
      }
    }
  }

  lemma FetchedIsStored(log: seq<Exchange>, from: nat, objects: Contents, listed: ObjectRecord, full: ObjectRecord,
                        stored: ObjectRecord)
    requires ReadsOf(log, from, objects) && FetchedFor(log, from, listed, full) && ListedAs(listed, stored)
    requires stored in Live(objects)
    ensures full == stored
  {
    LiveIs(objects, stored);
    if Bare(listed) {
      var k :| from <= k < |log| && log[k] == Reading(listed.id, Ok(full));
      assert Explains(objects, log[k], objects);
    }
  }

  /** A complete walk over the pages, of whatever sizes, with every bare object read in full, has
      read exactly the live objects of the space. */
  lemma RereadIsLive(log: seq<Exchange>, before: seq<Exchange>, objects: Contents, listed: seq<ObjectRecord>,
                     fetched: seq<ObjectRecord>)
    requires before <= log && ReadsOf(log, |before|, objects) && Reread(before, log, listed, fetched)
    ensures fetched == Live(objects)
  {
    hide WalkOf, Listed, FetchedFor, Live, ListedAs;
    var walked := WalkLists(log, |before|, objects);
    assert log[..|before|] == before;
    assert walked == (Listed(before) + walked)[|Listed(before)|..] && listed == (Listed(before) + listed)[|Listed(before)|..];
    forall k | 0 <= k < |fetched| ensures fetched[k] == Live(objects)[k] {
      FetchedIsStored(log, |before|, objects, listed[k], fetched[k], Live(objects)[k]);
    }
  }

  // ----- the scripted remote is such a remote -----------------------------

  function ContentsOf(objects: Objects, spaceId: string): Contents
  {
    map id | id in IdsIn(objects, spaceId) :: objects[(spaceId, id)]
  }

  lemma {:induction false} SelectIsLive(objects: Objects, spaceId: string, ids: seq<string>)
    requires forall id :: id in ids ==> (spaceId, id) in objects
    ensures forall id :: id in ids ==> id in ContentsOf(objects, spaceId)
    ensures Select(objects, spaceId, ids, false) == LiveOf(ContentsOf(objects, spaceId), ids)
  {
    forall id | id in ids ensures id in ContentsOf(objects, spaceId) {
      assert (spaceId, id).1 in IdsIn(objects, spaceId);
    }
    if ids != [] {
      assert ids[0] in ids && forall id :: id in ids[1..] ==> id in ids;
      SelectIsLive(objects, spaceId, ids[1..]);
    }
  }

  lemma MatchingIsLive(objects: Objects, spaceId: string)
    ensures Matching(objects, spaceId, false) == Live(ContentsOf(objects, spaceId))
  {
    SelectIsLive(objects, spaceId, SortedKeys(IdsIn(objects, spaceId)));
    assert ContentsOf(objects, spaceId).Keys == IdsIn(objects, spaceId);
  }

  /** Its pages, of one size, are pages of the space. */
  lemma ScriptLists(objects: Objects, spaceId: string, cursor: Option<string>, size: PageSize)
    ensures var space := ContentsOf(objects, spaceId);
            Explains(space, Listing(cursor, Ok(Written(PageAt(Matching(objects, spaceId, false), Offset(cursor), size)))), space)
  {
    hide Matching, Live;
    MatchingIsLive(objects, spaceId);
  }

  lemma ContentsAre(objects: Objects, spaceId: string, id: string)
    ensures id in ContentsOf(objects, spaceId) <==> (spaceId, id) in objects
  {
    if (spaceId, id) in objects {
      assert (spaceId, id).1 in IdsIn(objects, spaceId);
    }
  }

  lemma ContentsPut(objects: Objects, record: ObjectRecord)
    ensures var next: Objects := objects[(record.spaceId, record.id) := record];
            ContentsOf(next, record.spaceId) == ContentsOf(objects, record.spaceId)[record.id := record]
  {
    var next: Objects := objects[(record.spaceId, record.id) := record];
    var put: map<string, ObjectRecord> := ContentsOf(objects, record.spaceId)[record.id := record];
    forall id ensures id in ContentsOf(next, record.spaceId) <==> id in put {
      ContentsAre(objects, record.spaceId, id);
      ContentsAre(next, record.spaceId, id);
    }
  }

  lemma ContentsRemoved(objects: Objects, spaceId: string, id: string)
    ensures ContentsOf(objects - {(spaceId, id)}, spaceId) == ContentsOf(objects, spaceId) - {id}
  {
    var next: Objects := objects - {(spaceId, id)};
    forall k ensures k in ContentsOf(next, spaceId) <==> k in ContentsOf(objects, spaceId) && k != id {
      ContentsAre(objects, spaceId, k);
      ContentsAre(next, spaceId, k);
    }
  }

  /** Its mutations change the space as a storing remote may, when they do not fail on purpose. */
  lemma ScriptChanges(objects: Objects, kind: Kind, record: ObjectRecord, timesOut: bool)
    requires Denial(objects, kind, record).None?
    ensures var answer := if timesOut then Err(TimedOut) else Ok(Answered(objects, kind, record));
            Explains(ContentsOf(objects, record.spaceId), Mutating(kind, record, answer),
                     ContentsOf(Mutated(objects, kind, record), record.spaceId))
  {
    hide ContentsOf;
    ContentsAre(objects, record.spaceId, record.id);
    match kind
    case Creating =>
      ContentsPut(objects, record);
      assert Keeps(record, record);
    case Updating =>
      ContentsPut(objects, record);
      assert Keeps(record, record);
    case Archiving =>
      ContentsHas(objects, record.spaceId, record.id);
      ContentsPut(objects, objects[(record.spaceId, record.id)].(archived := true));
    case Deleting => ContentsRemoved(objects, record.spaceId, record.id);
  }

  lemma ContentsHas(objects: Objects, spaceId: string, id: string)
    requires (spaceId, id) in objects
    ensures id in ContentsOf(objects, spaceId) && ContentsOf(objects, spaceId)[id] == objects[(spaceId, id)]
  {
    ContentsAre(objects, spaceId, id);
  }

  lemma ScriptStepExplains(before: Objects, spaceId: string, exchange: Exchange, after: Objects)
    requires ScriptStep(before, spaceId, exchange, after)
    ensures Explains(ContentsOf(before, spaceId), exchange, ContentsOf(after, spaceId))
  {
    hide ContentsOf, Matching, Live, Mutated, Answered, Denial, IsPage;
    match exchange
    case Listing(cursor, page) =>
      if page.Ok? {
        var size: PageSize :| page.value == Written(PageAt(Matching(before, spaceId, false), Offset(cursor), size));
        ScriptLists(before, spaceId, cursor, size);
      }
    case Reading(id, answer) =>
      if answer.Ok? {
        ContentsHas(before, spaceId, id);
      }
    case Mutating(kind, record, answer) =>
      if !(answer.Err? && after == before) {
        ScriptChanges(before, kind, record, answer.Err?);
      }
  }

  function Spaces(trail: seq<Objects>, spaceId: string): (spaces: seq<Contents>)
    ensures |spaces| == |trail|
  {
    seq(|trail|, k requires 0 <= k < |trail| => ContentsOf(trail[k], spaceId))
  }

  /** Whatever is done with a scripted remote, its own objects explain the log. */
  lemma ScriptIsExplained(trail: seq<Objects>, spaceId: string, log: seq<Exchange>, from: nat)
    requires ScriptRun(trail, spaceId, log) && from <= |log|
    ensures Explained(Spaces(trail, spaceId)[from..], log, from)
  {
    hide Explains, ScriptStep;
    var spaces := Spaces(trail, spaceId)[from..];
    forall k | from <= k < |log| ensures ExplainedAt(spaces, log, from, k) {
      assert ScriptStepAt(trail, spaceId, log, k);
      ScriptStepExplains(trail[k], spaceId, log[k], trail[k + 1]);
    }
  }
}
