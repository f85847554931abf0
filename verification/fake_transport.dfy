/** The scripted remote used in tests: its paging, its injected failures, and its ambiguous timeouts. */
module FakeTransport {
  import opened Wrappers
  import opened Text
  import opened AnytypeObjects

  /** Objects by space and id; each stands under its own. */
  type Objects = m: map<(string, string), ObjectRecord> | WellKeyed(m)

  predicate WellKeyed(objects: map<(string, string), ObjectRecord>) {
    forall key :: key in objects ==> (objects[key].spaceId, objects[key].id) == key
  }

  // ----- cursors ----------------------------------------------------------

  datatype NumberedPage = NumberedPage(data: seq<ObjectRecord>, next: Option<nat>)

  /** The place a cursor names: its decimal number, and the beginning when it is none. A number past
      the machine's word is no place in any listing either. */
  function Offset(cursor: Option<string>): nat {
    match cursor
    case None => 0
    case Some(text) =>
      var digits := if text != "" && text[0] == '+' then text[1..] else text;
      if digits != "" && AllDigits(digits) then DecimalValue(digits) else 0
  }

  function Written(page: NumberedPage): Page {
    Page(page.data, if page.next.Some? then Some(Decimal(page.next.value)) else None)
  }

  lemma CursorIsRead(n: nat)
    ensures Offset(Some(Decimal(n))) == n
  {
    DecimalReads(n);
    assert Decimal(n)[0] in Decimal(n);
  }

  /** Exactly which cursors name a place: decimal digits, perhaps behind one plus sign. Every other
      cursor, and none, is the beginning. */
  lemma OffsetIs(text: string)
    ensures Offset(None) == 0
    ensures forall digits :: digits != "" && AllDigits(digits) && (text == digits || text == "+" + digits) ==>
              Offset(Some(text)) == DecimalValue(digits)
    ensures (forall digits :: digits != "" && AllDigits(digits) ==> text != digits && text != "+" + digits) ==>
              Offset(Some(text)) == 0
  {
    forall digits | digits != "" && AllDigits(digits) ensures digits[0] != '+' && ("+" + digits)[1..] == digits {
      assert digits[0] in digits;
    }
    if text != "" && text[0] == '+' {
      assert text == "+" + text[1..];
    }
  }

  // ----- paging -----------------------------------------------------------

  function IdsIn(objects: Objects, spaceId: string): set<string> {
    set key | key in objects && key.0 == spaceId :: key.1
  }

  predicate Visible(record: ObjectRecord, delayed: bool) {
    !record.archived || delayed
  }

  function Select(objects: Objects, spaceId: string, ids: seq<string>, delayed: bool): seq<ObjectRecord>
    requires forall id :: id in ids ==> (spaceId, id) in objects
  {
    if ids == [] then []
    else
      assert ids[0] in ids && forall id :: id in ids[1..] ==> id in ids;
      (if Visible(objects[(spaceId, ids[0])], delayed) then [objects[(spaceId, ids[0])]] else []) +
      Select(objects, spaceId, ids[1..], delayed)
  }

  /** What a space lists, in the order of the object ids. */
  function Matching(objects: Objects, spaceId: string, delayed: bool): seq<ObjectRecord> {
    Select(objects, spaceId, SortedKeys(IdsIn(objects, spaceId)), delayed)
  }

  function PageAt(matching: seq<ObjectRecord>, skip: nat, size: nat): (page: NumberedPage)
    ensures |page.data| <= size
    ensures page.next.Some? ==> page.next.value == skip + |page.data| < |matching|
    ensures page.next.Some? && size >= 1 ==> page.data != []
  {
    var from := if skip < |matching| then skip else |matching|;
    var to := if from + size < |matching| then from + size else |matching|;
    var data := matching[from..to];
    NumberedPage(data, if skip + |data| < |matching| then Some(skip + |data|) else None)
  }

  /** Everything that chained pages of one size return, from a place on. */
  function Chained(matching: seq<ObjectRecord>, skip: nat, size: nat): seq<ObjectRecord>
    requires size >= 1
    decreases |matching| - skip
  {
    var page := PageAt(matching, skip, size);
    if page.next.None? then page.data else page.data + Chained(matching, page.next.value, size)
  }

  /** Chaining pages ends, and shows each object of the space once and in order. */
  lemma {:induction false} ChainedIsAll(matching: seq<ObjectRecord>, skip: nat, size: nat)
    requires size >= 1 && skip <= |matching|
    ensures Chained(matching, skip, size) == matching[skip..]
    decreases |matching| - skip
  {
    var page := PageAt(matching, skip, size);
    if page.next.Some? {
      ChainedIsAll(matching, page.next.value, size);
      assert matching[skip..] == page.data + matching[page.next.value..];
    }
  }

  lemma {:induction false} SelectShows(objects: Objects, spaceId: string, ids: seq<string>, delayed: bool, record: ObjectRecord)
    requires forall id :: id in ids ==> (spaceId, id) in objects
    ensures record in Select(objects, spaceId, ids, delayed) <==>
            record.spaceId == spaceId && record.id in ids && objects[(spaceId, record.id)] == record && Visible(record, delayed)
  {
    if ids != [] {
      assert ids[0] in ids && forall id :: id in ids[1..] ==> id in ids;
      SelectShows(objects, spaceId, ids[1..], delayed, record);
    }
  }

  /** A space lists exactly its visible objects. */
  lemma MatchingShows(objects: Objects, spaceId: string, delayed: bool, record: ObjectRecord)
    ensures record in Matching(objects, spaceId, delayed) <==>
            (spaceId, record.id) in objects && objects[(spaceId, record.id)] == record && (delayed || !record.archived)
  {
    var ids := SortedKeys(IdsIn(objects, spaceId));
    SelectShows(objects, spaceId, ids, delayed, record);
    if (spaceId, record.id) in objects {
      assert (spaceId, record.id).1 in IdsIn(objects, spaceId);
    }
  }

  predicate AscendById(records: seq<ObjectRecord>) {
    forall j, k :: 0 <= j < k < |records| ==> Less(records[j].id, records[k].id)
  }

  lemma {:induction false} SelectAscends(objects: Objects, spaceId: string, ids: seq<string>, delayed: bool)
    requires StrictlySorted(ids) && forall id :: id in ids ==> (spaceId, id) in objects
    ensures AscendById(Select(objects, spaceId, ids, delayed))
  {
    if ids != [] {
      var rest := ids[1..];
      assert ids == [ids[0]] + rest;
      SelectAscends(objects, spaceId, rest, delayed);
      forall record | record in Select(objects, spaceId, rest, delayed) ensures Less(ids[0], record.id) {
        SelectShows(objects, spaceId, rest, delayed, record);
        var k :| 0 <= k < |rest| && rest[k] == record.id;
        assert ids[k + 1] == rest[k];
      }
      var first := objects[(spaceId, ids[0])];
      assert (spaceId, ids[0]) in objects && first.id == ids[0];
      FirstAscends(first, Select(objects, spaceId, rest, delayed));
      assert [] + Select(objects, spaceId, rest, delayed) == Select(objects, spaceId, rest, delayed);
    }
  }

  lemma FirstAscends(first: ObjectRecord, rest: seq<ObjectRecord>)
    requires AscendById(rest) && forall record :: record in rest ==> Less(first.id, record.id)
    ensures AscendById([first] + rest)
  {
  }

  /** It lists them by ascending ids, so each once. */
  lemma MatchingAscends(objects: Objects, spaceId: string, delayed: bool)
    ensures AscendById(Matching(objects, spaceId, delayed))
  {
    var ids := SortedKeys(IdsIn(objects, spaceId));
    SortedKeysAscend(IdsIn(objects, spaceId));
    SelectAscends(objects, spaceId, ids, delayed);
  }

  // ----- the transport ----------------------------------------------------

  type PageSize = n: nat | n >= 1 witness 1

  class FakeTransport {
    var objects: Objects
    var pageSize: PageSize
    var failure: Option<TransportError>
    var delayed: bool
    var delayNextRead: bool
    var timeoutAfter: Option<Kind>
    var mutations: nat

    constructor (pageSize: nat)
      ensures this.pageSize == (if pageSize == 0 then 1 else pageSize) && objects == map[] && failure == None && !delayed && !delayNextRead
      ensures timeoutAfter == None && mutations == 0
    {
      this.pageSize := if pageSize == 0 then 1 else pageSize;
      objects, failure, delayed, delayNextRead, timeoutAfter, mutations := map[], None, false, false, None, 0;
    }

    /** Hands out an injected failure, or a pending delay, once. */
    method TakeReadFailure() returns (r: Option<TransportError>)
      modifies this`failure, this`delayNextRead
      ensures r == if old(failure).Some? then old(failure)
                   else if old(delayNextRead) then Some(DelayedVisibility) else None
      ensures failure == None
      ensures delayNextRead == (old(delayNextRead) && old(failure).Some?)
    {
      if failure.Some? {
        r := failure;
        failure := None;
        return;
      }
      if delayNextRead {
        delayNextRead := false;
        return Some(DelayedVisibility);
      }
      return None;
    }

    method List(spaceId: string, cursor: Option<string>) returns (r: Result<Page, TransportError>)
      modifies this`failure, this`delayNextRead
      ensures failure == None && delayNextRead == (old(delayNextRead) && old(failure).Some?)
      ensures r == if old(failure).Some? then Err(old(failure).value)
                   else if old(delayNextRead) then Err(DelayedVisibility)
                   else Ok(Written(PageAt(Matching(objects, spaceId, delayed), Offset(cursor), pageSize)))
    {
      var failed := TakeReadFailure();
      if failed.Some? { return Err(failed.value); }
      return Ok(Written(PageAt(Matching(objects, spaceId, delayed), Offset(cursor), pageSize)));
    }

    method Get(spaceId: string, id: string) returns (r: Result<ObjectRecord, TransportError>)
      modifies this`failure, this`delayNextRead
      ensures failure == None && delayNextRead == (old(delayNextRead) && old(failure).Some?)
      ensures r == if old(failure).Some? then Err(old(failure).value)
                   else if old(delayNextRead) then Err(DelayedVisibility)
                   else if (spaceId, id) in objects then Ok(objects[(spaceId, id)]) else Err(NotFound)
    {
      var failed := TakeReadFailure();
      if failed.Some? { return Err(failed.value); }
      if (spaceId, id) !in objects { return Err(NotFound); }
      return Ok(objects[(spaceId, id)]);
    }

    /** Creates, updates or archives; a scripted timeout strikes after the change was made. */
    method Mutate(kind: Kind, record: ObjectRecord) returns (r: Result<ObjectRecord, TransportError>)
      modifies this
      ensures mutations == old(mutations) + 1 && pageSize == old(pageSize) && delayed == old(delayed) && failure == None
      ensures old(failure).Some? ==> r == Err(old(failure).value) && objects == old(objects) &&
                                     delayNextRead == old(delayNextRead) && timeoutAfter == old(timeoutAfter)
      ensures old(failure).None? ==>
                objects == Mutated(old(objects), kind, record) &&
                r == MutationAnswer(old(objects), old(timeoutAfter) == Some(kind), kind, record) &&
                timeoutAfter == (if r == Err(TimedOut) then None else old(timeoutAfter)) &&
                delayNextRead == (old(delayNextRead) || (r.Ok? && delayed && kind in {Creating, Updating}))
    {
      mutations := mutations + 1;
      if failure.Some? {
        r := Err(failure.value);
        failure := None;
        return;
      }
      var refused := Denial(objects, kind, record);
      if refused.Some? { return Err(refused.value); }
      var key := (record.spaceId, record.id);
      var shown := if key in objects then objects[key] else record;
      match kind {
        case Creating => objects := objects[key := record]; shown := record;
        case Updating => objects := objects[key := record]; shown := record;
        case Archiving => objects := objects[key := objects[key].(archived := true)]; shown := objects[key];
        case Deleting => objects := objects - {key};
      }
      if timeoutAfter == Some(kind) {
        timeoutAfter := None;
        return Err(TimedOut);
      }
      if delayed && (kind == Creating || kind == Updating) {
        delayNextRead := true;
      }
      return Ok(shown);
    }
  }

  /** Why a mutation is refused before anything changes. */
  function Denial(objects: Objects, kind: Kind, record: ObjectRecord): Option<TransportError> {
    var known := (record.spaceId, record.id) in objects;
    if kind == Creating then (if known then Some(Conflict) else None) else if known then None else Some(NotFound)
  }

  /** The object that an accepted mutation shows. */
  function Answered(objects: Objects, kind: Kind, record: ObjectRecord): ObjectRecord {
    var key := (record.spaceId, record.id);
    match kind
    case Creating => record
    case Updating => record
    case Archiving => if key in objects then objects[key].(archived := true) else record
    case Deleting => if key in objects then objects[key] else record
  }

  /** What a mutation answers when no failure was injected. */
  function MutationAnswer(objects: Objects, timesOut: bool, kind: Kind, record: ObjectRecord): Result<ObjectRecord, TransportError> {
    match Denial(objects, kind, record)
    case Some(error) => Err(error)
    case None => if timesOut then Err(TimedOut) else Ok(Answered(objects, kind, record))
  }

  function Mutated(objects: Objects, kind: Kind, record: ObjectRecord): Objects {
    var key := (record.spaceId, record.id);
    if Denial(objects, kind, record).Some? then objects
    else
      match kind
      case Creating => objects[key := record]
      case Updating => objects[key := record]
      case Archiving => objects[key := objects[key].(archived := true)]
      case Deleting => objects - {key}
  }

  /** What a mutation does to the one object it names: a creation of a known object is a conflict and
      any other mutation of an unknown one finds nothing, both without a change; what is created or
      updated is then there as it was sent, what is archived is only marked, and what is deleted is gone. */
  lemma MutationActs(objects: Objects, timesOut: bool, kind: Kind, record: ObjectRecord)
    ensures var key, after := (record.spaceId, record.id), Mutated(objects, kind, record);
            var answer := MutationAnswer(objects, timesOut, kind, record);
            (forall other :: other != key ==> (other in after <==> other in objects)) &&
            (forall other :: other != key && other in objects ==> after[other] == objects[other]) &&
            if kind == Creating && key in objects then answer == Err(Conflict) && after == objects
            else if kind != Creating && key !in objects then answer == Err(NotFound) && after == objects
            else
              (timesOut ==> answer == Err(TimedOut)) &&
              match kind
              case Creating => after == objects[key := record] && (!timesOut ==> answer == Ok(record))
              case Updating => after == objects[key := record] && (!timesOut ==> answer == Ok(record))
              case Archiving =>
                after == objects[key := objects[key].(archived := true)] && (!timesOut ==> answer == Ok(after[key]))
              case Deleting => key !in after && (!timesOut ==> answer == Ok(objects[key]))
  {
  }
}
