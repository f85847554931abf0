/** The audit journal: closed segments and one active segment, numbered records, paged readback. */
module AuditJournal {
  import opened Wrappers
  import opened Text

  const MAX_AUDIT_READBACK: nat := 64

  datatype Record = Record(sequence: nat, event: string)

  /** A line of a segment: a record, JSON that stops too early, or anything else. */
  datatype Line = Whole(record: Record) | Cut | Garbage

  type File = seq<Line>

  datatype Segment = Segment(number: nat, file: File)

  /** The audit directory; segments in the order of their numbers, which is that of their names. */
  datatype Journal = Journal(segments: seq<Segment>, active: Option<File>)

  datatype JournalError = InvalidData | InvalidInput | Io

  // ----- reading ----------------------------------------------------------

  /** The records of a file. An incomplete last line is a torn append and ignored; nothing else is. */
  function RecordsIn(file: File): Result<seq<Record>, JournalError> {
    if file == [] then Ok([])
    else
      match file[0]
      case Whole(record) =>
        (match RecordsIn(file[1..])
         case Err(e) => Err(e)
         case Ok(rest) => Ok([record] + rest))
      case Cut => if |file| == 1 then Ok([]) else Err(InvalidData)
      case Garbage => Err(InvalidData)
  }

  /** Adds a record behind those that do not come after it. */
  function Insert(r: Record, sorted: seq<Record>): seq<Record> {
    if sorted == [] then [r]
    else if r.sequence < sorted[0].sequence then [r] + sorted
    else [sorted[0]] + Insert(r, sorted[1..])
  }

  /** A stable sort by sequence number. */
  function SortBySequence(records: seq<Record>): seq<Record> {
    if records == [] then [] else Insert(records[|records| - 1], SortBySequence(records[..|records| - 1]))
  }

  function Next(sequence: nat): nat {
    if sequence < MAX_U64 then sequence + 1 else MAX_U64
  }

  predicate Contiguous(records: seq<Record>) {
    forall i :: 0 <= i < |records| - 1 ==> records[i + 1].sequence == Next(records[i].sequence)
  }

  function SegmentRecords(segments: seq<Segment>): Result<seq<Record>, JournalError> {
    if segments == [] then Ok([])
    else
      match RecordsIn(segments[0].file)
      case Err(e) => Err(e)
      case Ok(first) =>
        match SegmentRecords(segments[1..])
        case Err(e) => Err(e)
        case Ok(rest) => Ok(first + rest)
  }

  function ActiveRecords(j: Journal): Result<seq<Record>, JournalError> {
    if j.active.Some? then RecordsIn(j.active.value) else Ok([])
  }

  /** Every record by sequence number; the active file's name sorts before those of the segments. */
  function AllRecords(j: Journal): Result<seq<Record>, JournalError> {
    match ActiveRecords(j)
    case Err(e) => Err(e)
    case Ok(active) =>
      match SegmentRecords(j.segments)
      case Err(e) => Err(e)
      case Ok(closed) =>
        var records := SortBySequence(active + closed);
        if Contiguous(records) then Ok(records) else Err(InvalidData)
  }

  // ----- writing ----------------------------------------------------------

  function Lines(records: seq<Record>): File {
    seq(|records|, i requires 0 <= i < |records| => Whole(records[i]))
  }

  function LastSequence(records: seq<Record>): nat {
    if records == [] then 0 else records[|records| - 1].sequence
  }

  /** Opening rewrites the active file without a torn last line. */
  function Recovered(j: Journal): Result<Journal, JournalError> {
    match ActiveRecords(j)
    case Err(e) => Err(e)
    case Ok(records) =>
      if !Contiguous(records) then Err(InvalidData)
      else if j.active.None? then Ok(j)
      else Ok(j.(active := Some(Lines(records))))
  }

  function Appended(j: Journal, event: string): Result<(Journal, nat), JournalError> {
    match AllRecords(j)
    case Err(e) => Err(e)
    case Ok(records) =>
      match ActiveRecords(j)
      case Err(e) => Err(e)
      case Ok(active) =>
        var sequence := Next(LastSequence(records));
        Ok((j.(active := Some(Lines(active + [Record(sequence, event)]))), sequence))
  }

  function LastNumber(segments: seq<Segment>): nat {
    if segments == [] then 0 else segments[|segments| - 1].number
  }

  /** Renames the active file to the next segment; at the largest number that replaces the last one. */
  function RolledOver(j: Journal): Result<Journal, JournalError> {
    match ActiveRecords(j)
    case Err(e) => Err(e)
    case Ok(records) =>
      if records == [] then Ok(j)
      else
        var kept := if LastNumber(j.segments) < MAX_U64 then j.segments else j.segments[..|j.segments| - 1];
        Ok(Journal(kept + [Segment(Next(LastNumber(j.segments)), j.active.value)], None))
  }

  // ----- readback ---------------------------------------------------------

  function After(records: seq<Record>, after: Option<nat>): seq<Record> {
    if records == [] then []
    else (if after.None? || records[0].sequence > after.value then [records[0]] else []) + After(records[1..], after)
  }

  function Take<T>(s: seq<T>, n: nat): seq<T> {
    if |s| <= n then s else s[..n]
  }

  function Readback(j: Journal, after: Option<nat>, limit: nat): Result<seq<Record>, JournalError> {
    if limit == 0 || limit > MAX_AUDIT_READBACK then Err(InvalidInput)
    else
      match AllRecords(j)
      case Err(e) => Err(e)
      case Ok(records) => Ok(Take(After(records, after), limit))
  }

  // ----- the invariant ----------------------------------------------------

  /** What the journal has been told, in order: the closed segments, then the active one. */
  ghost function Contents(j: Journal): seq<Record> {
    if SegmentRecords(j.segments).Ok? && ActiveRecords(j).Ok? then
      SegmentRecords(j.segments).value + ActiveRecords(j).value
    else []
  }

  predicate Numbered(records: seq<Record>) {
    forall i :: 0 <= i < |records| ==> records[i].sequence == i + 1
  }

  /** The segments have numbers of their own, in ascending order: no name is taken twice. */
  predicate Ordered(segments: seq<Segment>) {
    (forall i, j :: 0 <= i < j < |segments| ==> segments[i].number < segments[j].number) &&
    forall i :: 0 <= i < |segments| ==> segments[i].number <= MAX_U64
  }

  ghost predicate Valid(j: Journal) {
    Ordered(j.segments) && SegmentRecords(j.segments).Ok? && ActiveRecords(j).Ok? && Numbered(Contents(j)) && |Contents(j)| < MAX_U64
  }

  lemma {:induction false} LinesRead(records: seq<Record>)
    ensures RecordsIn(Lines(records)) == Ok(records)
  {
    if records != [] {
      LinesRead(records[1..]);
      assert Lines(records)[1..] == Lines(records[1..]);
      assert records == [records[0]] + records[1..];
    }
  }

  predicate Ascending(records: seq<Record>) {
    forall i, j :: 0 <= i < j < |records| ==> records[i].sequence < records[j].sequence
  }

  lemma {:induction false} InsertAdds(r: Record, records: seq<Record>)
    ensures multiset(Insert(r, records)) == multiset(records) + multiset{r}
  {
    if records != [] {
      InsertAdds(r, records[1..]);
      assert records == [records[0]] + records[1..];
    }
  }

  predicate Sorted(records: seq<Record>) {
    forall i, j :: 0 <= i < j < |records| ==> records[i].sequence <= records[j].sequence
  }

  lemma SortedBehind(first: Record, rest: seq<Record>)
    requires Sorted(rest) && forall x :: x in rest ==> first.sequence <= x.sequence
    ensures Sorted([first] + rest)
  {
  }

  lemma {:induction false} InsertSorted(r: Record, records: seq<Record>)
    requires Sorted(records)
    ensures Sorted(Insert(r, records))
  {
    if records == [] {
    } else if r.sequence < records[0].sequence {
      SortedBehind(r, records);
    } else {
      var first, rest := records[0], records[1..];
      InsertSorted(r, rest);
      InsertAdds(r, rest);
      forall x | x in Insert(r, rest) ensures first.sequence <= x.sequence {
        assert x in multiset(Insert(r, rest));
        assert x == r || x in rest;
      }
      SortedBehind(first, Insert(r, rest));
    }
  }

  /** The sort orders any records, and keeps each as often as it was there. */
  lemma {:induction false} SortSorts(records: seq<Record>)
    ensures var sorted := SortBySequence(records);
            multiset(sorted) == multiset(records) && Sorted(sorted)
  {
    if records != [] {
      var n := |records| - 1;
      SortSorts(records[..n]);
      InsertSorted(records[n], SortBySequence(records[..n]));
      InsertAdds(records[n], SortBySequence(records[..n]));
      assert records == records[..n] + [records[n]];
    }
  }

  /** Whatever journal is read: every record of every file is there as often as it was written, and
      the numbers go up one by one, without gap or repetition, up to the largest 64-bit number. */
  lemma ReadIsConsecutive(j: Journal)
    requires AllRecords(j).Ok?
    ensures ActiveRecords(j).Ok? && SegmentRecords(j.segments).Ok?
    ensures multiset(AllRecords(j).value) == multiset(SegmentRecords(j.segments).value + ActiveRecords(j).value)
    ensures var records := AllRecords(j).value;
            forall i :: 0 <= i < |records| - 1 ==>
              records[i + 1].sequence == records[i].sequence + 1 ||
              (records[i + 1].sequence == MAX_U64 && records[i].sequence >= MAX_U64)
  {
    SortSorts(ActiveRecords(j).value + SegmentRecords(j.segments).value);
  }

  lemma {:induction false} InsertBehind(r: Record, front: seq<Record>, back: seq<Record>)
    requires forall f :: f in front ==> f.sequence <= r.sequence
    requires forall b :: b in back ==> r.sequence < b.sequence
    ensures Insert(r, front + back) == front + [r] + back
  {
    if front == [] {
      assert front + back == back && front + [r] + back == [r] + back;
      if back != [] { assert back[0] in back; }
    } else {
      var rest := front[1..];
      assert front[0] in front && forall f :: f in rest ==> f in front;
      assert (front + back)[0] == front[0] && (front + back)[1..] == rest + back;
      InsertBehind(r, rest, back);
      assert [front[0]] + (rest + [r] + back) == front + [r] + back;
    }
  }

  lemma {:induction false} SortStays(records: seq<Record>)
    requires Ascending(records)
    ensures SortBySequence(records) == records
  {
    if records != [] {
      var n := |records| - 1;
      var front := records[..n];
      SortStays(front);
      InsertLast(records[n], front);
      assert front + [records[n]] == records;
    }
  }

  lemma InsertLast(r: Record, front: seq<Record>)
    requires forall f :: f in front ==> f.sequence <= r.sequence
    ensures Insert(r, front) == front + [r]
  {
    InsertBehind(r, front, []);
    assert front + [] == front && front + [r] + [] == front + [r];
  }

  /** Sorting records that are listed after some they should precede puts them in front. */
  lemma {:induction false} SortSwaps(late: seq<Record>, early: seq<Record>)
    requires Ascending(early + late)
    ensures SortBySequence(late + early) == early + late
    decreases |early|
  {
    if early == [] {
      assert late + early == late && early + late == late;
      SortStays(late);
    } else {
      var n := |early| - 1;
      var last, rest := early[n], early[..n];
      assert early == rest + [last];
      AscendingWithout(rest, last, late);
      SortSwaps(late, rest);
      InsertBehind(last, rest, late);
      SortLast(late, rest, last);
    }
  }

  lemma SortLast(late: seq<Record>, rest: seq<Record>, last: Record)
    ensures SortBySequence(late + (rest + [last])) == Insert(last, SortBySequence(late + rest))
  {
    var all := late + (rest + [last]);
    assert all[..|all| - 1] == late + rest && all[|all| - 1] == last;
  }

  lemma AscendingWithout(rest: seq<Record>, last: Record, late: seq<Record>)
    requires Ascending(rest + [last] + late)
    ensures Ascending(rest + late)
    ensures forall f :: f in rest ==> f.sequence <= last.sequence
    ensures forall b :: b in late ==> last.sequence < b.sequence
  {
    var all, n := rest + [last] + late, |rest|;
    forall i, j | 0 <= i < j < |rest + late| ensures (rest + late)[i].sequence < (rest + late)[j].sequence {
      var x, y := if i < n then i else i + 1, if j < n then j else j + 1;
      assert all[x] == (rest + late)[i] && all[y] == (rest + late)[j];
    }
    forall f | f in rest ensures f.sequence <= last.sequence {
      var i :| 0 <= i < n && rest[i] == f;
      assert all[i] == f && all[n] == last;
    }
    forall b | b in late ensures last.sequence < b.sequence {
      var i :| 0 <= i < |late| && late[i] == b;
      assert all[n + 1 + i] == b && all[n] == last;
    }
  }

  /** Reading a valid journal yields its contents: the records 1, 2, ... in order. */
  lemma AllRecordsAreContents(j: Journal)
    requires Valid(j)
    ensures AllRecords(j) == Ok(Contents(j))
  {
    var closed, active := SegmentRecords(j.segments).value, ActiveRecords(j).value;
    SortSwaps(active, closed);
  }

  // ----- what each operation does -----------------------------------------

  lemma EmptyIsValid()
    ensures Valid(Journal([], None)) && Contents(Journal([], None)) == []
  {
  }

  /** Recovery takes a torn line off the active file, and nothing else. */
  lemma RecoveryKeeps(j: Journal)
    requires Valid(j)
    ensures Recovered(j).Ok? && Valid(Recovered(j).value) && Contents(Recovered(j).value) == Contents(j)
    ensures var next := Recovered(j).value;
            next.segments == j.segments && (next.active.Some? <==> j.active.Some?) &&
            (next.active.Some? ==> forall line :: line in next.active.value ==> line.Whole?)
  {
    var active, closed := ActiveRecords(j).value, SegmentRecords(j.segments).value;
    forall i | 0 <= i < |active| - 1 ensures active[i + 1].sequence == Next(active[i].sequence) {
      assert Contents(j)[|closed| + i] == active[i] && Contents(j)[|closed| + i + 1] == active[i + 1];
    }
    LinesRead(active);
  }

  /** An append returns the next number and puts the event there, behind everything else. */
  lemma AppendAdds(j: Journal, event: string)
    requires Valid(j) && |Contents(j)| + 1 < MAX_U64
    ensures Appended(j, event).Ok?
    ensures var (next, sequence) := Appended(j, event).value;
            Valid(next) && sequence == |Contents(j)| + 1 &&
            Contents(next) == Contents(j) + [Record(sequence, event)] && next.segments == j.segments
  {
    var active, record := ActiveRecords(j).value, Record(|Contents(j)| + 1, event);
    AppendIs(j, event, active, record);
    ActiveGrows(j, active, record);
    NumberedMore(Contents(j), record);
    hide AllRecords, SegmentRecords, ActiveRecords, RecordsIn, Lines, Appended, Ordered;
  }

  lemma AppendIs(j: Journal, event: string, active: seq<Record>, record: Record)
    requires Valid(j) && ActiveRecords(j) == Ok(active) && record == Record(|Contents(j)| + 1, event)
    ensures Appended(j, event) == Ok((j.(active := Some(Lines(active + [record]))), record.sequence))
  {
    AllRecordsAreContents(j);
    hide AllRecords, SegmentRecords, ActiveRecords, RecordsIn, Lines, Ordered;
  }

  lemma ActiveGrows(j: Journal, active: seq<Record>, record: Record)
    requires SegmentRecords(j.segments).Ok? && ActiveRecords(j) == Ok(active)
    ensures var next := j.(active := Some(Lines(active + [record])));
            ActiveRecords(next) == Ok(active + [record]) && Contents(next) == Contents(j) + [record]
  {
    LinesRead(active + [record]);
    hide RecordsIn, SegmentRecords, Lines;
    ConcatAssociates(SegmentRecords(j.segments).value, active, [record]);
  }

  lemma NumberedMore(records: seq<Record>, record: Record)
    requires Numbered(records) && record.sequence == |records| + 1
    ensures Numbered(records + [record])
  {
  }

  lemma {:induction false} SegmentAppends(segments: seq<Segment>, last: Segment)
    ensures SegmentRecords(segments).Ok? && RecordsIn(last.file).Ok? ==>
              SegmentRecords(segments + [last]) == Ok(SegmentRecords(segments).value + RecordsIn(last.file).value)
    ensures SegmentRecords(segments + [last]).Ok? ==> SegmentRecords(segments).Ok? && RecordsIn(last.file).Ok?
  {
    if segments == [] {
      assert segments + [last] == [last] && [last][1..] == [];
      if RecordsIn(last.file).Ok? {
        assert RecordsIn(last.file).value + [] == RecordsIn(last.file).value;
        assert [] + RecordsIn(last.file).value == RecordsIn(last.file).value;
      }
    } else {
      assert (segments + [last])[1..] == segments[1..] + [last] && (segments + [last])[0] == segments[0];
      SegmentAppends(segments[1..], last);
      if RecordsIn(segments[0].file).Ok? && SegmentRecords(segments[1..]).Ok? && RecordsIn(last.file).Ok? {
        var a, b, c := RecordsIn(segments[0].file).value, SegmentRecords(segments[1..]).value, RecordsIn(last.file).value;
        assert a + (b + c) == (a + b) + c;
      }
    }
  }

  /** There is a number left for the active segment, or nothing is lost by replacing the last one. */
  predicate RoomToRoll(j: Journal)
    requires ActiveRecords(j).Ok?
  {
    LastNumber(j.segments) < MAX_U64 || ActiveRecords(j).value == [] ||
    RecordsIn(j.segments[|j.segments| - 1].file) == Ok([])
  }

  /** Where the closed segment goes: behind the others, or, at the largest number, over the last. */
  lemma RolledContents(j: Journal)
    requires Valid(j) && ActiveRecords(j).value != []
    ensures var kept := if LastNumber(j.segments) < MAX_U64 then j.segments else j.segments[..|j.segments| - 1];
            SegmentRecords(kept).Ok? && RolledOver(j).Ok? &&
            SegmentRecords(RolledOver(j).value.segments) == Ok(SegmentRecords(kept).value + ActiveRecords(j).value) &&
            Contents(RolledOver(j).value) == SegmentRecords(kept).value + ActiveRecords(j).value
    ensures LastNumber(j.segments) >= MAX_U64 ==>
              var last := RecordsIn(j.segments[|j.segments| - 1].file);
              last.Ok? &&
              SegmentRecords(j.segments).value == SegmentRecords(j.segments[..|j.segments| - 1]).value + last.value
  {
    hide RecordsIn, SegmentRecords;
    var kept := if LastNumber(j.segments) < MAX_U64 then j.segments else j.segments[..|j.segments| - 1];
    if LastNumber(j.segments) >= MAX_U64 {
      var last := j.segments[|j.segments| - 1];
      assert j.segments == kept + [last];
      SegmentAppends(kept, last);
    }
    var closing := Segment(Next(LastNumber(j.segments)), j.active.value);
    SegmentAppends(kept, closing);
    var next := RolledOver(j).value;
    assert next.segments == kept + [closing];
    assert ActiveRecords(next) == Ok([]);
    assert SegmentRecords(kept).value + ActiveRecords(j).value + [] == SegmentRecords(kept).value + ActiveRecords(j).value;
  }

  /** While there are numbers, an active segment with records is closed as it is, under a number above
      all others; one without records stays. */
  lemma RolledSegment(j: Journal)
    requires Valid(j) && LastNumber(j.segments) < MAX_U64
    ensures RolledOver(j).Ok?
    ensures var next, number := RolledOver(j).value, LastNumber(RolledOver(j).value.segments);
            if ActiveRecords(j).value == [] then next == j
            else
              next.segments == j.segments + [Segment(number, j.active.value)] && next.active.None? &&
              0 < number && (forall segment :: segment in j.segments ==> segment.number < number) &&
              Ordered(next.segments)
  {
    hide RecordsIn, SegmentRecords;
  }

  lemma RolledOrdered(j: Journal)
    requires Ordered(j.segments) && RolledOver(j).Ok?
    ensures Ordered(RolledOver(j).value.segments)
  {
    hide RecordsIn;
  }

  /** Closing the active segment leaves what is read unchanged exactly when there is room to roll:
      otherwise the last segment has the largest number, and its records are lost. */
  lemma RolloverKeeps(j: Journal)
    requires Valid(j)
    ensures RolledOver(j).Ok?
    ensures Contents(RolledOver(j).value) == Contents(j) <==> RoomToRoll(j)
    ensures RoomToRoll(j) ==> Valid(RolledOver(j).value) && AllRecords(RolledOver(j).value) == AllRecords(j)
  {
    hide RecordsIn, SegmentRecords;
    var next, active := RolledOver(j).value, ActiveRecords(j).value;
    if active != [] {
      RolledContents(j);
      RolledOrdered(j);
      if LastNumber(j.segments) >= MAX_U64 {
        var kept := SegmentRecords(j.segments[..|j.segments| - 1]).value;
        var last := RecordsIn(j.segments[|j.segments| - 1].file).value;
        assert Contents(j) == kept + last + active;
        assert last == [] ==> kept + last == kept;
        assert |Contents(next)| == |kept| + |active|;
      }
    }
    if RoomToRoll(j) {
      AllRecordsAreContents(j);
      AllRecordsAreContents(next);
    }
  }

  lemma {:induction false} TornTailIgnored(file: File)
    requires RecordsIn(file).Ok? && (file == [] || file[|file| - 1] != Cut)
    ensures RecordsIn(file + [Cut]) == RecordsIn(file)
  {
    if file == [] {
      assert file + [Cut] == [Cut];
    } else {
      assert (file + [Cut])[0] == file[0] && (file + [Cut])[1..] == file[1..] + [Cut];
      assert file[0].Whole?;
      TornTailIgnored(file[1..]);
    }
  }

  /** An interior line that is no record is an error, never skipped. */
  lemma {:induction false} InteriorDamageRejected(file: File, k: nat)
    requires k < |file| && (file[k].Garbage? || (file[k].Cut? && k < |file| - 1))
    ensures RecordsIn(file).Err?
  {
    if k > 0 && file[0].Whole? {
      InteriorDamageRejected(file[1..], k - 1);
    }
  }
}
