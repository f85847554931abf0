/** The audit store's operations on its directory, its paged readback, and whole runs of it. */
module AuditStore {
  import opened Wrappers
  import opened AuditJournal

  // ----- the store --------------------------------------------------------

  lemma TakeFront<T>(page: seq<T>, rest: seq<T>, n: nat)
    requires |page| == n || (rest == [] && |page| <= n)
    ensures Take(page + rest, n) == page
  {
  }

  lemma AfterStep(records: seq<Record>, k: nat, after: Option<nat>, page: seq<Record>)
    requires k < |records|
    ensures page + After(records[k..], after) ==
            (if after.None? || records[k].sequence > after.value then page + [records[k]] else page) +
            After(records[k + 1..], after)
  {
    assert records[k..][0] == records[k] && records[k..][1..] == records[k + 1..];
  }

  /** The first records after a number, up to a limit. */
  method Filter(records: seq<Record>, after: Option<nat>, limit: nat) returns (page: seq<Record>)
    ensures page == Take(After(records, after), limit)
  {
    page := [];
    assert records[0..] == records && [] + After(records, after) == After(records, after);
    for k := 0 to |records|
      invariant |page| <= limit && page + After(records[k..], after) == After(records, after)
    {
      if |page| == limit {
        TakeFront(page, After(records[k..], after), limit);
        return;
      }
      AfterStep(records, k, after, page);
      if after.None? || records[k].sequence > after.value {
        page := page + [records[k]];
      }
    }
    TakeFront(page, After(records[|records|..], after), limit);
  }

  /** What reading comes to when `records` were read already. */
  function Behind(records: seq<Record>, r: Result<seq<Record>, JournalError>): Result<seq<Record>, JournalError> {
    match r
    case Ok(rest) => Ok(records + rest)
    case Err(e) => Err(e)
  }

  lemma BehindStep(records: seq<Record>, file: File, k: nat)
    requires k < |file|
    ensures file[k].Whole? ==>
              Behind(records, RecordsIn(file[k..])) == Behind(records + [file[k].record], RecordsIn(file[k + 1..]))
    ensures file[k].Cut? ==> RecordsIn(file[k..]) == if k == |file| - 1 then Ok([]) else Err(InvalidData)
    ensures file[k].Garbage? ==> RecordsIn(file[k..]) == Err(InvalidData)
  {
    var rest := file[k + 1..];
    assert file[k..][0] == file[k] && file[k..][1..] == rest;
    if file[k].Whole? && RecordsIn(rest).Ok? {
      assert records + ([file[k].record] + RecordsIn(rest).value) == records + [file[k].record] + RecordsIn(rest).value;
    }
  }

  class Store {
    var journal: Journal

    constructor (journal: Journal)
      ensures this.journal == journal
    {
      this.journal := journal;
    }

    method RecordsOf(file: Option<File>) returns (r: Result<seq<Record>, JournalError>)
      ensures r == if file.Some? then RecordsIn(file.value) else Ok([])
    {
      if file.None? { return Ok([]); }
      var records: seq<Record> := [];
      ghost var whole := RecordsIn(file.value);
      assert file.value[0..] == file.value && (whole.Ok? ==> [] + whole.value == whole.value);
      for k := 0 to |file.value|
        invariant Behind(records, RecordsIn(file.value[k..])) == whole
      {
        BehindStep(records, file.value, k);
        assert records + [] == records;
        match file.value[k]
        case Whole(record) => records := records + [record];
        case Cut => return if k == |file.value| - 1 then Ok(records) else Err(InvalidData);
        case Garbage => return Err(InvalidData);
      }
      assert file.value[|file.value|..] == [] && records + [] == records;
      return Ok(records);
    }

    /** Rewrites the active file without a torn last line. */
    method RecoverActive() returns (r: Result<(), JournalError>)
      modifies this
      ensures r.Ok? ==> Recovered(old(journal)) == Ok(journal)
      ensures r.Err? ==> Recovered(old(journal)) == Err(r.error) && journal == old(journal)
    {
      var records := RecordsOf(journal.active);
      if records.Err? { return Err(records.error); }
      if !Contiguous(records.value) { return Err(InvalidData); }
      if journal.active.Some? {
        journal := journal.(active := Some(Lines(records.value)));
      }
      return Ok(());
    }

    /** Appends behind everything there is and returns the record's number. */
    method Append(event: string) returns (r: Result<nat, JournalError>)
      modifies this
      ensures r.Ok? ==> Appended(old(journal), event) == Ok((journal, r.value))
      ensures r.Err? ==> Appended(old(journal), event) == Err(r.error) && journal == old(journal)
    {
      var records := AllRecords(journal);
      if records.Err? { return Err(records.error); }
      var sequence := Next(LastSequence(records.value));
      var active := RecordsOf(journal.active);
      if active.Err? { return Err(active.error); }
      journal := journal.(active := Some(Lines(active.value + [Record(sequence, event)])));
      return Ok(sequence);
    }

    /** Closes the active segment. */
    method Rollover() returns (r: Result<Option<nat>, JournalError>)
      modifies this
      ensures r.Ok? ==> RolledOver(old(journal)) == Ok(journal)
      ensures r.Ok? && r.value.None? ==> journal == old(journal) && ActiveRecords(old(journal)) == Ok([])
      ensures r.Ok? && r.value.Some? ==>
                journal.active.None? && journal.segments != [] && old(journal).active.Some? &&
                journal.segments[|journal.segments| - 1] == Segment(r.value.value, old(journal).active.value)
      ensures r.Ok? && r.value.Some? && Valid(old(journal)) && LastNumber(old(journal).segments) < MAX_U64 ==>
                journal.segments == old(journal).segments + [Segment(r.value.value, old(journal).active.value)] &&
                forall segment :: segment in old(journal).segments ==> segment.number < r.value.value
      ensures r.Err? ==> RolledOver(old(journal)) == Err(r.error) && journal == old(journal)
    {
      var records := RecordsOf(journal.active);
      if records.Err? { return Err(records.error); }
      if records.value == [] { return Ok(None); }
      if Valid(journal) && LastNumber(journal.segments) < MAX_U64 {
        RolledSegment(journal);
      }
      var last := LastNumber(journal.segments);
      var kept := if last < MAX_U64 then journal.segments else journal.segments[..|journal.segments| - 1];
      journal := Journal(kept + [Segment(Next(last), journal.active.value)], None);
      return Ok(Some(Next(last)));
    }

    method ReadbackAfter(after: Option<nat>, limit: nat) returns (r: Result<seq<Record>, JournalError>)
      ensures r == Readback(journal, after, limit)
    {
      if limit == 0 || limit > MAX_AUDIT_READBACK { return Err(InvalidInput); }
      var records := AllRecords(journal);
      if records.Err? { return Err(records.error); }
      var page := Filter(records.value, after, limit);
      return Ok(page);
    }
  }

  // ----- paging -----------------------------------------------------------

  /** The pages that a client gets who asks on behind the last record it was shown, with these limits. */
  function Pages(j: Journal, after: Option<nat>, limits: seq<nat>): seq<Record>
    requires AllRecords(j).Ok? && forall l :: l in limits ==> 1 <= l <= MAX_AUDIT_READBACK
    decreases |limits|
  {
    if limits == [] then []
    else
      assert limits[0] in limits;
      var page := Readback(j, after, limits[0]).value;
      if page == [] then []
      else
        assert forall l :: l in limits[1..] ==> l in limits;
        page + Pages(j, Some(page[|page| - 1].sequence), limits[1..])
  }

  function Cursor(after: Option<nat>): nat {
    if after.Some? then after.value else 0
  }

  lemma {:induction false} AfterNumbered(records: seq<Record>, after: Option<nat>, base: nat)
    requires forall i :: 0 <= i < |records| ==> records[i].sequence == base + i + 1
    ensures After(records, after) ==
            if Cursor(after) <= base then records
            else if Cursor(after) - base >= |records| then [] else records[Cursor(after) - base..]
  {
    if records != [] {
      var rest, c := records[1..], Cursor(after);
      AfterNumbered(rest, after, base + 1);
      AfterFirst(records, after);
      if c <= base {
        assert records == [records[0]] + rest;
      } else if c - base < |records| {
        assert records[c - base..] == rest[c - base - 1..];
      }
    }
  }

  lemma AfterFirst(records: seq<Record>, after: Option<nat>)
    requires records != []
    ensures After(records, after) ==
            if after.None? || records[0].sequence > after.value then [records[0]] + After(records[1..], after)
            else After(records[1..], after)
  {
    assert [] + After(records[1..], after) == After(records[1..], after);
  }

  /** A page is the beginning of what was not shown yet. */
  lemma ReadbackIs(j: Journal, after: Option<nat>, limit: nat)
    requires Valid(j)
    ensures Readback(j, after, limit) ==
            if limit == 0 || limit > 64 then Err(InvalidInput)
            else Ok(Take(if Cursor(after) <= |Contents(j)| then Contents(j)[Cursor(after)..] else [], limit))
  {
    AllRecordsAreContents(j);
    ContentsNumbered(j);
    hide AllRecords, Valid, Contents, After;
    AfterNumbered(Contents(j), after, 0);
    assert Contents(j)[|Contents(j)|..] == [];
    if Cursor(after) == 0 {
      assert Contents(j)[0..] == Contents(j);
    }
  }

  lemma PageMoves(all: seq<Record>, c: nat, limit: nat)
    requires Numbered(all) && c <= |all| && limit >= 1
    ensures var page := Take(all[c..], limit);
            if c == |all| then page == []
            else 0 < |page| && c + |page| <= |all| && page[|page| - 1].sequence == c + |page| &&
                 all[c..] == page + all[c + |page|..]
  {
  }

  /** Chained pages, of any sizes from 1 to 64, show each record once and in order: together they
      are a stretch of the contents from the first unseen record on, and all the rest of them when
      there is a page for each. */
  lemma {:induction false} PagesAreContents(j: Journal, after: Option<nat>, limits: seq<nat>)
    requires Valid(j) && Cursor(after) <= |Contents(j)|
    requires AllRecords(j).Ok? && forall l :: l in limits ==> 1 <= l <= MAX_AUDIT_READBACK
    ensures Pages(j, after, limits) <= Contents(j)[Cursor(after)..]
    ensures |limits| >= |Contents(j)| - Cursor(after) ==> Pages(j, after, limits) == Contents(j)[Cursor(after)..]
    decreases |limits|
  {
    hide Readback, AllRecords, SegmentRecords, ActiveRecords, Contents, Valid, Pages, Take;
    PagesUnfold(j, after, limits);
    if limits != [] {
      var all, c := Contents(j), Cursor(after);
      assert limits[0] in limits && forall l :: l in limits[1..] ==> l in limits;
      ReadbackIs(j, after, limits[0]);
      ContentsNumbered(j);
      PageMoves(all, c, limits[0]);
      var page := Take(all[c..], limits[0]);
      if page != [] {
        PagesAreContents(j, Some(c + |page|), limits[1..]);
        PrefixBehind(page, Pages(j, Some(c + |page|), limits[1..]), all[c + |page|..]);
      }
    }
  }

  lemma PagesUnfold(j: Journal, after: Option<nat>, limits: seq<nat>)
    requires AllRecords(j).Ok? && forall l :: l in limits ==> 1 <= l <= MAX_AUDIT_READBACK
    ensures limits == [] ==> Pages(j, after, limits) == []
    ensures limits != [] ==> limits[0] in limits && (forall l :: l in limits[1..] ==> l in limits) &&
                             Readback(j, after, limits[0]).Ok? &&
                             var page := Readback(j, after, limits[0]).value;
                             Pages(j, after, limits) ==
                             if page == [] then [] else page + Pages(j, Some(page[|page| - 1].sequence), limits[1..])
  {
    hide AllRecords, After;
    if limits != [] {
      assert limits[0] in limits;
      assert forall l :: l in limits[1..] ==> l in limits;
    }
  }

  lemma ContentsNumbered(j: Journal)
    requires Valid(j)
    ensures Numbered(Contents(j))
  {
  }

  lemma PrefixBehind(page: seq<Record>, rest: seq<Record>, tail: seq<Record>)
    requires rest <= tail
    ensures page + rest <= page + tail
  {
    assert page + tail == page + rest + tail[|rest|..];
  }

  // ----- runs -------------------------------------------------------------

  datatype Event =
    /** An append: acknowledged, or cut off before or after the new active file replaced the old one. */
    | Appending(event: string, written: bool, acknowledged: bool)
    | Rolling(done: bool)
    | Reopening
    /** A crash in the middle of a line: the active file ends in an incomplete one. */
    | Tearing

  ghost predicate Step(j: Journal, e: Event, after: Journal) {
    match e
    case Appending(event, written, acknowledged) =>
      (acknowledged ==> written) &&
      if written then Appended(j, event).Ok? && after == Appended(j, event).value.0 else after == j
    case Rolling(done) => if done then RolledOver(j) == Ok(after) else after == j
    case Reopening => Recovered(j) == Ok(after)
    case Tearing =>
      var file := if j.active.Some? then j.active.value else [];
      (file == [] || file[|file| - 1] != Cut) && after == j.(active := Some(file + [Cut]))
  }

  /** The operations never fail on a journal that was written by them. */
  lemma OperationsSucceed(j: Journal, event: string)
    requires Valid(j)
    ensures Recovered(j).Ok? && Appended(j, event).Ok? && RolledOver(j).Ok? && AllRecords(j).Ok?
  {
    RecoveryKeeps(j);
    AllRecordsAreContents(j);
  }

  /** What a step keeps of the segments: none is lost, changed or renamed, and new ones have greater numbers. */
  ghost predicate SegmentsKept(j: Journal, after: Journal) {
    j.segments <= after.segments && LastNumber(after.segments) <= LastNumber(j.segments) + 1 &&
    forall i, k :: 0 <= i < |j.segments| <= k < |after.segments| ==> j.segments[i].number < after.segments[k].number
  }

  lemma SameSegments(j: Journal, after: Journal)
    requires after.segments == j.segments
    ensures SegmentsKept(j, after)
  {
  }

  lemma RollingKeeps(j: Journal)
    requires Valid(j) && LastNumber(j.segments) < MAX_U64
    ensures RolledOver(j).Ok?
    ensures Valid(RolledOver(j).value) && Contents(RolledOver(j).value) == Contents(j) && SegmentsKept(j, RolledOver(j).value)
  {
    RolloverKeeps(j);
    RolledSegment(j);
    hide Valid, Contents, AllRecords, RecordsIn, SegmentRecords, Ordered;
    var after := RolledOver(j).value;
    if after.segments == j.segments {
      SameSegments(j, after);
    }
  }

  lemma TearingKeeps(j: Journal, after: Journal)
    requires Valid(j) && Step(j, Tearing, after)
    ensures Valid(after) && Contents(after) == Contents(j)
  {
    hide SegmentRecords, Ordered;
    TornTailIgnored(if j.active.Some? then j.active.value else []);
  }

  lemma StepKeeps(j: Journal, e: Event, after: Journal)
    requires Valid(j) && |Contents(j)| + 1 < MAX_U64 && LastNumber(j.segments) < MAX_U64
    requires Step(j, e, after)
    ensures Valid(after) && SegmentsKept(j, after) && (!e.Rolling? ==> after.segments == j.segments)
    ensures Contents(after) == if e.Appending? && e.written
                               then Contents(j) + [Record(|Contents(j)| + 1, e.event)] else Contents(j)
  {
    hide Valid, Contents, AllRecords, SegmentsKept, ActiveRecords, SegmentRecords, Appended, RolledOver, Recovered;
    if !(e.Rolling? && e.done) && after.segments == j.segments {
      SameSegments(j, after);
    }
    match e
    case Appending(event, written, acknowledged) =>
      if written {
        AppendAdds(j, event);
        SameSegments(j, after);
      }
    case Rolling(done) => if done { RollingKeeps(j); }
    case Reopening =>
      RecoveryKeeps(j);
      SameSegments(j, after);
    case Tearing => TearingKeeps(j, after);
  }

  ghost predicate StepAt(journals: seq<Journal>, events: seq<Event>, i: nat)
    requires |journals| == |events| + 1 && i < |events|
  {
    Step(journals[i], events[i], journals[i + 1])
  }

  ghost predicate IsRun(journals: seq<Journal>, events: seq<Event>) {
    |journals| == |events| + 1 && journals[0] == Journal([], None) && |events| + 1 < MAX_U64 &&
    forall i :: 0 <= i < |events| ==> StepAt(journals, events, i)
  }

  /** The records that a run has written. */
  function Written(events: seq<Event>): seq<Record> {
    if events == [] then []
    else
      var before, last := Written(events[..|events| - 1]), events[|events| - 1];
      if last.Appending? && last.written then before + [Record(|before| + 1, last.event)] else before
  }

  lemma {:induction false} WrittenIsShort(events: seq<Event>)
    ensures |Written(events)| <= |events|
  {
    if events != [] {
      WrittenIsShort(events[..|events| - 1]);
    }
  }

  /** Along any run from empty, through closed segments, torn lines and reopenings, the journal
      holds exactly the written records, numbered from 1, and its segments ascend strictly. */
  lemma {:induction false} RunHolds(journals: seq<Journal>, events: seq<Event>, n: nat)
    requires IsRun(journals, events) && n <= |events|
    ensures Valid(journals[n]) && Contents(journals[n]) == Written(events[..n]) && Ordered(journals[n].segments)
    ensures LastNumber(journals[n].segments) <= n
  {
    if n == 0 {
      EmptyIsValid();
    } else {
      hide AllRecords, Appended, RolledOver, Recovered, SegmentRecords, ActiveRecords, Valid, Contents, Written, Step, Ordered;
      RunHolds(journals, events, n - 1);
      assert StepAt(journals, events, n - 1);
      RunStep(journals[n - 1], events, n - 1, journals[n]);
    }
  }

  lemma ValidIsOrdered(j: Journal)
    requires Valid(j)
    ensures Ordered(j.segments)
  {
  }

  lemma RunStep(j: Journal, events: seq<Event>, k: nat, after: Journal)
    requires k < |events| && |events| + 1 < MAX_U64 && Step(j, events[k], after)
    requires Valid(j) && Contents(j) == Written(events[..k]) && LastNumber(j.segments) <= k
    ensures Valid(after) && Contents(after) == Written(events[..k + 1]) && LastNumber(after.segments) <= k + 1
    ensures Ordered(after.segments)
  {
    hide AllRecords, Appended, RolledOver, Recovered, SegmentRecords, ActiveRecords, Valid, Contents, Written, Step;
    WrittenIsShort(events[..k]);
    StepKeeps(j, events[k], after);
    ValidIsOrdered(after);
    WrittenStep(events, k);
  }

  lemma WrittenStep(events: seq<Event>, k: nat)
    requires k < |events|
    ensures Written(events[..k + 1]) ==
            if events[k].Appending? && events[k].written
            then Written(events[..k]) + [Record(|Written(events[..k])| + 1, events[k].event)] else Written(events[..k])
  {
    assert events[..k + 1][..k] == events[..k];
  }

  /** Along any run: segments have numbers of their own, in ascending order, and once closed none is
      lost, renamed or rewritten. */
  lemma {:induction false} SegmentsStay(journals: seq<Journal>, events: seq<Event>, n: nat, m: nat)
    requires IsRun(journals, events) && n <= m <= |events|
    ensures journals[n].segments <= journals[m].segments && Ordered(journals[m].segments)
  {
    RunHolds(journals, events, m);
    if n < m {
      SegmentsStay(journals, events, n, m - 1);
      SegmentsStep(journals, events, m - 1);
      hide IsRun, Ordered;
      var a, b, c := journals[n].segments, journals[m - 1].segments, journals[m].segments;
      assert a == b[..|a|] && b == c[..|b|];
      assert a == c[..|a|];
    }
  }

  lemma SegmentsStep(journals: seq<Journal>, events: seq<Event>, k: nat)
    requires IsRun(journals, events) && k < |events|
    ensures journals[k].segments <= journals[k + 1].segments
  {
    hide Step, Contents, AllRecords, Valid, Ordered, Written;
    RunHolds(journals, events, k);
    WrittenIsShort(events[..k]);
    assert StepAt(journals, events, k);
    StepKeeps(journals[k], events[k], journals[k + 1]);
  }

  /** A rollover in a run closes the active file as it is, under a number greater than every number
      that any earlier rollover gave, and it stays so at all later times. */
  lemma RolledStays(journals: seq<Journal>, events: seq<Event>, i: nat, n: nat)
    requires IsRun(journals, events) && i < n <= |events|
    requires events[i] == Rolling(true) && ActiveRecords(journals[i]) != Ok([])
    ensures var at := |journals[i].segments|;
            at < |journals[n].segments| && journals[i].active.Some? &&
            journals[n].segments[at].file == journals[i].active.value &&
            (forall k :: 0 <= k < at ==> journals[n].segments[k].number < journals[n].segments[at].number) &&
            forall m, k :: 0 <= m <= i && 0 <= k < |journals[m].segments| ==>
              journals[m].segments[k].number < journals[n].segments[at].number
  {
    hide RecordsIn, SegmentRecords, Step, Contents;
    RunHolds(journals, events, i);
    SegmentsStay(journals, events, i + 1, n);
    RolledSegment(journals[i]);
    assert StepAt(journals, events, i);
    RollsTo(journals[i], journals[i + 1]);
    forall m, k | 0 <= m <= i && 0 <= k < |journals[m].segments|
      ensures journals[m].segments[k].number < journals[n].segments[|journals[i].segments|].number
    {
      SegmentsStay(journals, events, m, i);
      assert journals[m].segments[k] == journals[i].segments[k];
    }
  }

  lemma RollsTo(j: Journal, after: Journal)
    requires Step(j, Rolling(true), after)
    ensures RolledOver(j) == Ok(after)
  {
  }

  /** So that is what reading yields at any time. */
  lemma RunReads(journals: seq<Journal>, events: seq<Event>, n: nat)
    requires IsRun(journals, events) && n <= |events|
    ensures AllRecords(journals[n]) == Ok(Written(events[..n])) && Numbered(Written(events[..n]))
  {
    RunHolds(journals, events, n);
    AllRecordsAreContents(journals[n]);
  }

  lemma {:induction false} WrittenStays(events: seq<Event>, n: nat, m: nat)
    requires n <= m <= |events|
    ensures Written(events[..n]) <= Written(events[..m])
  {
    if n < m {
      WrittenStays(events, n, m - 1);
      WrittenStep(events, m - 1);
    }
  }

  /** An acknowledged append is there from then on, at the number it was given and nowhere else. */
  lemma AcknowledgedIsThere(journals: seq<Journal>, events: seq<Event>, i: nat, n: nat)
    requires IsRun(journals, events) && i < n <= |events|
    requires events[i].Appending? && events[i].acknowledged
    ensures Appended(journals[i], events[i].event).Ok?
    ensures var sequence := Appended(journals[i], events[i].event).value.1;
            var record := Record(sequence, events[i].event);
            AllRecords(journals[n]).Ok? && 1 <= sequence <= |AllRecords(journals[n]).value| &&
            AllRecords(journals[n]).value[sequence - 1] == record &&
            forall k :: 0 <= k < |AllRecords(journals[n]).value| && AllRecords(journals[n]).value[k].sequence == sequence ==>
              k == sequence - 1
  {
    RunHolds(journals, events, i);
    RunReads(journals, events, n);
    WrittenIsShort(events[..i]);
    assert StepAt(journals, events, i);
    AppendAdds(journals[i], events[i].event);
    WrittenStep(events, i);
    WrittenStays(events, i + 1, n);
  }
}
