/** `project`: clip intervals to a window, subtract exclusions, merge what is left.
    Times are compared as text, so a time point is any string, ordered by `Text.Less`. */
module FreeBusy {
  import opened Wrappers
  import opened Text
  import opened Gregorian

  datatype Interval = Interval(start: string, end: string)

  datatype FreeBusyError = InvalidTime(value: string) | ReversedInterval | InvalidWindow

  // ----- normalized times -------------------------------------------------

  predicate IsCompactTime(t: string) {
    |t| == 14 && AllDigits(t)
  }

  predicate IsValidTime(t: string)
    requires IsCompactTime(t)
  {
    var year, month, day := DecimalValue(t[0..4]), DecimalValue(t[4..6]), DecimalValue(t[6..8]);
    0 < day <= MaxDay(year, month) && DecimalValue(t[8..10]) < 24 && DecimalValue(t[10..12]) < 60 && DecimalValue(t[12..14]) < 60
  }

  /** The fourteen digits of a value in one of the accepted spellings. */
  function Compact(v: string): (r: Option<string>)
    ensures r.Some? ==> IsCompactTime(r.value)
    ensures IsCompactTime(v) ==> r == Some(v)
  {
    if |v| == 8 && AllDigits(v) then Some(v + "000000")
    else if |v| == 14 && AllDigits(v) then Some(v)
    else if |v| == 15 && v[8] == 'T' && AllDigits(v[..8]) && AllDigits(v[9..]) then Some(v[..8] + v[9..])
    else if |v| == 16 && v[15] == 'Z' && v[8] == 'T' && AllDigits(v[..8]) && AllDigits(v[9..15]) then
      Some(v[..8] + v[9..15])
    else if |v| == 19 && v[4] == '-' && v[7] == '-' && v[10] == 'T' && v[13] == ':' && v[16] == ':' &&
            AllDigits(v[..4]) && AllDigits(v[5..7]) && AllDigits(v[8..10]) && AllDigits(v[11..13]) &&
            AllDigits(v[14..16]) && AllDigits(v[17..]) then
      Some(v[..4] + v[5..7] + v[8..10] + v[11..13] + v[14..16] + v[17..])
    else None
  }

  function NormalizeTime(text: string): (r: Result<string, FreeBusyError>)
    ensures r.Ok? ==> IsCompactTime(r.value) && IsValidTime(r.value)
    decreases |text|
  {
    var value := Trim(text);
    match Compact(value)
    case Some(compact) => if IsValidTime(compact) then Ok(compact) else Err(InvalidTime(value))
    case None =>
      if ByteLength(value) == 20 && value[|value| - 1] == 'Z' then NormalizeTime(value[..|value| - 1])
      else Err(InvalidTime(value))
  }

  lemma CompactTimeIsTrimmed(t: string)
    requires IsCompactTime(t)
    ensures Trim(t) == t
  {
    assert t[0] in t && t[13] in t;
  }

  /** A normalized time is its own normal form: normalizing twice is normalizing once. */
  lemma NormalizedTime(text: string)
    ensures NormalizeTime(text).Ok? ==> NormalizeTime(NormalizeTime(text).value) == NormalizeTime(text)
  {
    if NormalizeTime(text).Ok? {
      NormalizeFixed(NormalizeTime(text).value);
    }
  }

  lemma NormalizeFixed(t: string)
    requires IsCompactTime(t) && IsValidTime(t)
    ensures NormalizeTime(t) == Ok(t)
  {
    CompactTimeIsTrimmed(t);
    assert Compact(t) == Some(t);
  }

  // ----- which times are accepted -----------------------------------------

  /** The two digits from `i` on. */
  function TwoDigits(r: string, i: nat): int
    requires i + 1 < |r|
  {
    10 * (r[i] as int - '0' as int) + (r[i + 1] as int - '0' as int)
  }

  const MONTHS: seq<int> := [31, 28, 31, 30, 31, 30, 31, 31, 30, 31, 30, 31]

  /** Year, month, day, hour, minute and second of a date that exists and a time of day. */
  predicate IsStamp(r: string) {
    |r| == 14 && (forall i :: 0 <= i < 14 ==> '0' <= r[i] <= '9') && 1 <= TwoDigits(r, 4) <= 12 &&
    var leap := if TwoDigits(r, 2) == 0 then TwoDigits(r, 0) % 4 == 0 else TwoDigits(r, 2) % 4 == 0;
    1 <= TwoDigits(r, 6) <= (if leap && TwoDigits(r, 4) == 2 then 29 else MONTHS[TwoDigits(r, 4) - 1]) &&
    TwoDigits(r, 8) <= 23 && TwoDigits(r, 10) <= 59 && TwoDigits(r, 12) <= 59
  }

  /** The spellings of a time: a date alone at midnight, the basic format with or without `T` and `Z`,
      and the extended format. */
  predicate SpellsTime(v: string, r: string)
    requires |r| == 14
  {
    v == r || v + "000000" == r || v == r[..8] + "T" + r[8..] || v == r[..8] + "T" + r[8..] + "Z" ||
    v == r[..4] + "-" + r[4..6] + "-" + r[6..8] + "T" + r[8..10] + ":" + r[10..12] + ":" + r[12..14]
  }

  lemma DigitsAre(r: string, i: nat)
    requires IsCompactTime(r) && i <= 12
    ensures DecimalValue(r[i..i + 2]) == TwoDigits(r, i)
    ensures i <= 10 ==> DecimalValue(r[i..i + 4]) == 100 * TwoDigits(r, i) + TwoDigits(r, i + 2)
  {
    assert forall k :: 0 <= k < 14 ==> r[k] in r;
    TwoAre(r[i..i + 2]);
    if i <= 10 {
      var four := r[i..i + 4];
      TwoAre(four[..2]);
      assert four[..3][..2] == four[..2] && four[..3][2] == r[i + 2] && four[3] == r[i + 3];
      assert DecimalValue(four) == 10 * DecimalValue(four[..3]) + (four[3] as int - '0' as int);
      assert DecimalValue(four[..3]) == 10 * DecimalValue(four[..2]) + (four[2] as int - '0' as int);
    }
  }

  lemma TwoAre(s: string)
    requires |s| == 2 && AllDigits(s)
    ensures DecimalValue(s) == 10 * (s[0] as int - '0' as int) + (s[1] as int - '0' as int)
  {
    assert s[0] in s && s[..1] == [s[0]] && s[..1][..0] == "";
    assert DecimalValue(s[..1]) == 10 * DecimalValue("") + (s[0] as int - '0' as int);
  }

  lemma ValidIsStamp(r: string)
    requires IsCompactTime(r)
    ensures IsValidTime(r) <==> IsStamp(r)
  {
    hide DecimalValue;
    DigitsAre(r, 0);
    DigitsAre(r, 4);
    DigitsAre(r, 6);
    DigitsAre(r, 8);
    DigitsAre(r, 10);
    DigitsAre(r, 12);
    assert forall k :: 0 <= k < 14 ==> r[k] in r;
    MonthTable(TwoDigits(r, 0), TwoDigits(r, 2), TwoDigits(r, 4));
  }

  lemma MonthTable(century: int, year: int, month: int)
    requires 0 <= century < 100 && 0 <= year < 100 && 0 <= month < 100
    ensures var leap := if year == 0 then century % 4 == 0 else year % 4 == 0;
            MaxDay(100 * century + year, month) ==
            if !(1 <= month <= 12) then 0 else if leap && month == 2 then 29 else MONTHS[month - 1]
  {
  }

  lemma CompactSpells(v: string, r: string)
    requires IsCompactTime(r)
    ensures Compact(v) == Some(r) <==> SpellsTime(v, r)
  {
    if Compact(v) == Some(r) {
      CompactIsSpelled(v, r);
    } else if SpellsTime(v, r) {
      SpelledIsCompact(v, r);
    }
  }

  lemma CompactIsSpelled(v: string, r: string)
    requires IsCompactTime(r) && Compact(v) == Some(r)
    ensures SpellsTime(v, r)
  {
    if |v| == 15 {
      assert r[..8] == v[..8] && r[8..] == v[9..] && v == v[..8] + "T" + v[9..];
    } else if |v| == 16 {
      assert r[..8] == v[..8] && r[8..] == v[9..15] && v == v[..8] + "T" + v[9..15] + "Z";
    } else if |v| == 19 {
      assert r[..4] == v[..4] && r[4..6] == v[5..7] && r[6..8] == v[8..10] && r[8..10] == v[11..13];
      assert r[10..12] == v[14..16] && r[12..14] == v[17..];
    }
  }

  lemma PartDigits(r: string, i: nat, k: nat)
    requires AllDigits(r) && i <= k <= |r|
    ensures AllDigits(r[i..k])
  {
  }

  lemma SpelledIsCompact(v: string, r: string)
    requires IsCompactTime(r) && SpellsTime(v, r)
    ensures Compact(v) == Some(r)
  {
    hide AllDigits;
    PartDigits(r, 0, 8);
    PartDigits(r, 8, 14);
    if v + "000000" == r {
      assert v == r[0..8];
    } else if |v| == 15 || |v| == 16 {
      assert v[..8] == r[0..8] == r[..8] && v[9..15] == r[8..14] == r[8..];
      assert |v| == 15 ==> v[9..] == v[9..15];
      assert r[..8] + r[8..] == r;
    } else if v != r {
      ExtendedParts(v, r);
    }
  }

  lemma ExtendedParts(v: string, r: string)
    requires IsCompactTime(r)
    requires v == r[..4] + "-" + r[4..6] + "-" + r[6..8] + "T" + r[8..10] + ":" + r[10..12] + ":" + r[12..14]
    ensures Compact(v) == Some(r)
  {
    hide AllDigits;
    PartDigits(r, 0, 4);
    PartDigits(r, 4, 6);
    PartDigits(r, 6, 8);
    PartDigits(r, 8, 10);
    PartDigits(r, 10, 12);
    PartDigits(r, 12, 14);
    assert v[..4] == r[0..4] && v[5..7] == r[4..6] && v[8..10] == r[6..8];
    assert v[11..13] == r[8..10] && v[14..16] == r[10..12] && v[17..] == r[12..14];
    assert r == r[0..4] + r[4..6] + r[6..8] + r[8..10] + r[10..12] + r[12..14];
  }

  lemma {:induction false} ByteLengthConcat(a: string, b: string)
    ensures ByteLength(a + b) == ByteLength(a) + ByteLength(b)
  {
    if a == "" {
      assert a + b == b;
    } else {
      assert (a + b)[0] == a[0] && (a + b)[1..] == a[1..] + b;
      ByteLengthConcat(a[1..], b);
    }
  }

  lemma MiddleIsShorter(a: string, b: string, c: string)
    ensures ByteLength(b) <= ByteLength(a + (b + c))
  {
    hide ByteLength;
    ByteLengthConcat(a, b + c);
    ByteLengthConcat(b, c);
  }

  lemma TrimIsShorter(s: string)
    ensures ByteLength(Trim(s)) <= ByteLength(s)
  {
    hide ByteLength, SolidFrom, SolidTo;
    var low := SolidFrom(s, 0);
    var high := SolidTo(s, low, |s|);
    MiddleIsShorter(s[..low], s[low..high], s[high..]);
    assert s == s[..low] + (s[low..high] + s[high..]);
  }

  predicate EndsInZ(value: string) {
    ByteLength(value) == 20 && value != "" && value[|value| - 1] == 'Z'
  }

  lemma DigitAt(s: string, k: nat)
    requires AllDigits(s) && k < |s|
    ensures s[k] < '\U{80}'
  {
    assert s[k] in s;
  }

  lemma CompactCharIsAscii(value: string, k: nat)
    requires Compact(value).Some? && k < |value|
    ensures value[k] < '\U{80}'
  {
    hide AllDigits;
    if |value| == 8 || |value| == 14 {
      DigitAt(value, k);
    } else if |value| == 19 {
      if k < 4 { DigitAt(value[..4], k); }
      if 5 <= k < 7 { DigitAt(value[5..7], k - 5); }
      if 8 <= k < 10 { DigitAt(value[8..10], k - 8); }
      if 11 <= k < 13 { DigitAt(value[11..13], k - 11); }
      if 14 <= k < 16 { DigitAt(value[14..16], k - 14); }
      if k >= 17 { DigitAt(value[17..], k - 17); }
    } else if k < 8 {
      DigitAt(value[..8], k);
    } else if 9 <= k < 15 {
      DigitAt(if |value| == 15 then value[9..] else value[9..15], k - 9);
    }
  }

  lemma CompactIsAscii(value: string)
    requires Compact(value).Some?
    ensures ByteLength(value) == |value| <= 19
  {
    forall c | c in value ensures c < '\U{80}' {
      var k :| 0 <= k < |value| && value[k] == c;
      CompactCharIsAscii(value, k);
    }
    ByteLengthAscii(value);
  }

  lemma TwentyIsNotCompact(value: string)
    requires EndsInZ(value)
    ensures Compact(value).None?
  {
    if Compact(value).Some? {
      CompactIsAscii(value);
    }
  }

  lemma StampIsCompact(r: string)
    requires IsStamp(r)
    ensures IsCompactTime(r)
  {
  }

  lemma OneReading(text: string, r: string)
    ensures var value := Trim(text);
            NormalizeTime(text) == Ok(r) <==>
            IsStamp(r) &&
            (SpellsTime(value, r) || (EndsInZ(value) && NormalizeTime(value[..|value| - 1]) == Ok(r)))
  {
    hide IsStamp, Compact, IsValidTime, SpellsTime;
    var value := Trim(text);
    if IsStamp(r) { StampIsCompact(r); }
    if IsCompactTime(r) {
      ValidIsStamp(r);
      CompactSpells(value, r);
    }
    if EndsInZ(value) { TwentyIsNotCompact(value); }
  }

  /** Exactly what is accepted, and as what: a spelling of a time that exists, with whitespace around
      it; or, in twenty bytes, one with whitespace and a `Z` behind it. */
  lemma NormalizeExactly(text: string, r: string)
    ensures NormalizeTime(text) == Ok(r) <==>
            IsStamp(r) &&
            (SpellsTime(Trim(text), r) ||
             (EndsInZ(Trim(text)) && SpellsTime(Trim(Trim(text)[..|Trim(text)| - 1]), r)))
  {
    hide IsStamp, SpellsTime, NormalizeTime;
    var value := Trim(text);
    OneReading(text, r);
    if EndsInZ(value) {
      var front := value[..|value| - 1];
      assert value == front + ['Z'];
      ByteLengthConcat(front, ['Z']);
      TrimIsShorter(front);
      OneReading(front, r);
    }
  }

  // ----- intervals as sets of time points ---------------------------------

  predicate Holds(i: Interval, t: string) {
    !Less(t, i.start) && Less(t, i.end)
  }

  ghost predicate Covered(s: seq<Interval>, t: string) {
    exists i :: i in s && Holds(i, t)
  }

  lemma CoveredAppend(s: seq<Interval>, x: Interval, t: string)
    ensures Covered(s + [x], t) <==> Covered(s, t) || Holds(x, t)
  {
    if Holds(x, t) { assert x in s + [x]; }
    if Covered(s, t) {
      var i :| i in s && Holds(i, t);
      assert i in s + [x];
    }
  }

  lemma CoveredConcat(a: seq<Interval>, b: seq<Interval>, t: string)
    ensures Covered(a + b, t) <==> Covered(a, t) || Covered(b, t)
  {
    assert forall i :: i in a + b <==> i in a || i in b;
  }

  lemma CoveredSame(a: seq<Interval>, b: seq<Interval>, t: string)
    requires forall i :: i in a <==> i in b
    ensures Covered(a, t) <==> Covered(b, t)
  {
  }

  /** The order facts on strings, for every string at once. */
  lemma Ordered()
    ensures forall a, b {:trigger Less(a, b)} :: (Less(a, b) || a == b || Less(b, a)) && !(Less(a, b) && Less(b, a))
    ensures forall a, b, c {:trigger Less(a, b), Less(b, c)} :: Less(a, b) && Less(b, c) ==> Less(a, c)
  {
    forall a, b ensures (Less(a, b) || a == b || Less(b, a)) && !(Less(a, b) && Less(b, a)) {
      LessTrichotomy(a, b);
    }
    forall a, b, c | Less(a, b) && Less(b, c) ensures Less(a, c) {
      LessTransitive(a, b, c);
    }
  }

  function Later(a: string, b: string): string {
    if Less(a, b) then b else a
  }

  function Earlier(a: string, b: string): string {
    if Less(b, a) then b else a
  }

  /** `FreeBusyInterval::new`. */
  function NewInterval(start: string, end: string): (r: Result<Interval, FreeBusyError>)
    ensures r.Ok? ==> IsCompactTime(r.value.start) && IsCompactTime(r.value.end) && Less(r.value.start, r.value.end)
  {
    match NormalizeTime(start)
    case Err(e) => Err(e)
    case Ok(s) =>
      match NormalizeTime(end)
      case Err(e) => Err(e)
      case Ok(t) => if !Less(s, t) then Err(ReversedInterval) else Ok(Interval(s, t))
  }

  // ----- sorting ----------------------------------------------------------

  /** The derived order: by start, then by end. */
  predicate Before(a: Interval, b: Interval) {
    Less(a.start, b.start) || (a.start == b.start && !Less(b.end, a.end))
  }

  predicate SortedByStart(s: seq<Interval>) {
    forall i, j :: 0 <= i < j < |s| ==> !Less(s[j].start, s[i].start)
  }

  function Insert(x: Interval, s: seq<Interval>): (r: seq<Interval>)
    requires SortedByStart(s)
    ensures SortedByStart(r)
    ensures multiset(r) == multiset(s) + multiset{x}
    ensures forall i :: i in r <==> i == x || i in s
  {
    if s == [] then [x]
    else if Before(x, s[0]) then
      FirstIsBefore(x, s);
      [x] + s
    else
      var rest := Insert(x, s[1..]);
      FirstStays(x, s, rest);
      assert s == [s[0]] + s[1..];
      [s[0]] + rest
  }

  lemma FirstIsBefore(x: Interval, s: seq<Interval>)
    requires SortedByStart(s) && s != [] && Before(x, s[0])
    ensures SortedByStart([x] + s)
  {
    Ordered();
  }

  lemma FirstStays(x: Interval, s: seq<Interval>, rest: seq<Interval>)
    requires SortedByStart(s) && s != [] && !Before(x, s[0]) && SortedByStart(rest)
    requires forall i :: i in rest <==> i == x || i in s[1..]
    ensures SortedByStart([s[0]] + rest)
  {
    Ordered();
    forall j | 0 <= j < |rest| ensures !Less(rest[j].start, s[0].start) {
      assert rest[j] in rest;
    }
  }

  /** `slice::sort` on intervals. */
  function Sort(s: seq<Interval>): (r: seq<Interval>)
    ensures SortedByStart(r)
    ensures multiset(r) == multiset(s)
    ensures forall i :: i in r <==> i in s
  {
    if s == [] then [] else
    assert s == [s[0]] + s[1..];
    Insert(s[0], Sort(s[1..]))
  }

  // ----- the projection ---------------------------------------------------

  /** Sorted, every piece non-empty, and no two pieces overlapping or touching. */
  ghost predicate Normal(s: seq<Interval>) {
    (forall i :: 0 <= i < |s| ==> Less(s[i].start, s[i].end)) &&
    (forall i, j :: 0 <= i < j < |s| ==> Less(s[i].end, s[j].start))
  }

  ghost predicate IsProjection(out: seq<Interval>, intervals: seq<Interval>, exclusions: seq<Interval>, window: Interval) {
    Normal(out) &&
    forall t :: Covered(out, t) <==> Holds(window, t) && Covered(intervals, t) && !Covered(exclusions, t)
  }

  /** `pieces` lie in `span` outside the exclusions, and miss nothing of it below `cursor`. */
  ghost predicate Progress(pieces: seq<Interval>, span: Interval, cursor: string, exclusions: seq<Interval>) {
    !Less(cursor, span.start) &&
    (forall p :: p in pieces ==> Less(p.start, p.end)) &&
    (forall t :: Covered(pieces, t) ==> Holds(span, t) && !Covered(exclusions, t)) &&
    (forall t :: Holds(span, t) && Less(t, cursor) && !Covered(exclusions, t) ==> Covered(pieces, t))
  }

  lemma PushClear(pieces: seq<Interval>, span: Interval, cursor: string, limit: string, exclusions: seq<Interval>)
    requires Progress(pieces, span, cursor, exclusions) && Less(cursor, limit) && Less(cursor, span.end)
    requires forall t :: !Less(t, cursor) && Less(t, limit) ==> !Covered(exclusions, t)
    ensures Progress(pieces + [Interval(cursor, Earlier(limit, span.end))], span, limit, exclusions)
  {
    Ordered();
    var piece := Interval(cursor, Earlier(limit, span.end));
    forall t ensures Covered(pieces + [piece], t) <==> Covered(pieces, t) || Holds(piece, t) {
      CoveredAppend(pieces, piece, t);
    }
  }

  lemma SkipExcluded(pieces: seq<Interval>, span: Interval, cursor: string, reached: string, next: string,
                     exclusion: Interval, exclusions: seq<Interval>)
    requires Progress(pieces, span, reached, exclusions) && exclusion in exclusions
    requires !Less(reached, exclusion.start) && (reached == cursor || (Less(cursor, reached) && reached == exclusion.start))
    requires !Less(cursor, span.start) && !Less(next, cursor)
    requires next == exclusion.end || next == cursor
    ensures Progress(pieces, span, next, exclusions)
  {
    Ordered();
    forall t | Holds(span, t) && Less(t, next) && !Covered(exclusions, t)
      ensures Covered(pieces, t)
    {
      assert !Holds(exclusion, t);
    }
  }

  lemma PassedStay(exclusions: seq<Interval>, k: nat, cursor: string, next: string)
    requires k < |exclusions| && next == Later(cursor, exclusions[k].end)
    requires forall j :: 0 <= j < k ==> !Less(cursor, exclusions[j].end)
    ensures !Less(next, cursor) && (next == exclusions[k].end || next == cursor)
    ensures forall j :: 0 <= j <= k ==> !Less(next, exclusions[j].end)
  {
    Ordered();
  }

  lemma Finished(pieces: seq<Interval>, span: Interval, cursor: string, exclusions: seq<Interval>)
    requires Progress(pieces, span, cursor, exclusions) && !Less(cursor, span.end)
    ensures forall t :: Covered(pieces, t) <==> Holds(span, t) && !Covered(exclusions, t)
  {
    Ordered();
  }

  /** What one interval, already clipped to the window, leaves outside the sorted exclusions. */
  method Subtract(start: string, end: string, exclusions: seq<Interval>) returns (pieces: seq<Interval>)
    requires Less(start, end) && SortedByStart(exclusions)
    ensures forall p :: p in pieces ==> Less(p.start, p.end)
    ensures forall t :: Covered(pieces, t) <==> Holds(Interval(start, end), t) && !Covered(exclusions, t)
  {
    ghost var span := Interval(start, end);
    LessTrichotomy(start, start);
    assert Progress([], span, start, exclusions);
    pieces := [];
    var cursor := start;
    var k := 0;
    while k < |exclusions|
      invariant k <= |exclusions|
      invariant Progress(pieces, span, cursor, exclusions) && Less(cursor, end)
      invariant forall j :: 0 <= j < k ==> !Less(cursor, exclusions[j].end)
    {
      var exclusion := exclusions[k];
      if !Less(cursor, exclusion.end) {
        k := k + 1;
        continue;
      }
      if !Less(exclusion.start, end) {
        break;
      }
      ghost var reached := cursor;
      if Less(cursor, exclusion.start) {
        LessTrichotomy(exclusion.start, exclusion.start);
        ClearBelow(exclusions, k, cursor, exclusion.start);
        PushClear(pieces, span, cursor, exclusion.start, exclusions);
        pieces := pieces + [Interval(cursor, Earlier(exclusion.start, end))];
        reached := exclusion.start;
      }
      var next := Later(cursor, exclusion.end);
      PassedStay(exclusions, k, cursor, next);
      SkipExcluded(pieces, span, cursor, reached, next, exclusion, exclusions);
      cursor := next;
      if !Less(cursor, end) {
        Finished(pieces, span, cursor, exclusions);
        return;
      }
      k := k + 1;
    }
    ClearBelow(exclusions, k, cursor, end);
    PushClear(pieces, span, cursor, end, exclusions);
    pieces := pieces + [Interval(cursor, end)];
    LessTrichotomy(end, end);
    Finished(pieces, span, end, exclusions);
  }

  /** Between the ends of the exclusions already passed and the start of the next one, nothing is excluded. */
  lemma ClearBelow(exclusions: seq<Interval>, k: nat, cursor: string, limit: string)
    requires k <= |exclusions| && SortedByStart(exclusions)
    requires forall j :: 0 <= j < k ==> !Less(cursor, exclusions[j].end)
    requires k < |exclusions| ==> !Less(exclusions[k].start, limit)
    ensures forall t :: !Less(t, cursor) && Less(t, limit) ==> !Covered(exclusions, t)
  {
    Ordered();
    forall t | !Less(t, cursor) && Less(t, limit) ensures !Covered(exclusions, t) {
      forall x | x in exclusions ensures !Holds(x, t) {
        var j :| 0 <= j < |exclusions| && exclusions[j] == x;
        if j > k { assert !Less(exclusions[j].start, exclusions[k].start); }
      }
    }
  }

  predicate SortedByStartFrom(clipped: seq<Interval>, k: nat, previous: Interval)
    requires k <= |clipped|
  {
    forall j :: k <= j < |clipped| ==> !Less(clipped[j].start, previous.start)
  }

  /** Merge sorted pieces that overlap or touch. */
  method Merge(clipped: seq<Interval>) returns (merged: seq<Interval>)
    requires SortedByStart(clipped)
    requires forall p :: p in clipped ==> Less(p.start, p.end)
    ensures Normal(merged)
    ensures forall t :: Covered(merged, t) <==> Covered(clipped, t)
  {
    Ordered();
    merged := [];
    for k := 0 to |clipped|
      invariant Normal(merged)
      invariant forall t :: Covered(merged, t) <==> Covered(clipped[..k], t)
      invariant |merged| > 0 ==> SortedByStartFrom(clipped, k, merged[|merged| - 1])
    {
      var interval := clipped[k];
      assert interval in clipped && clipped[..k + 1] == clipped[..k] + [interval];
      ghost var before := merged;
      if |merged| > 0 && !Less(merged[|merged| - 1].end, interval.start) {
        var previous := merged[|merged| - 1];
        if Less(previous.end, interval.end) {
          merged := merged[|merged| - 1 := Interval(previous.start, interval.end)];
        }
        forall t ensures Covered(merged, t) <==> Covered(before, t) || Holds(interval, t) {
          LastPiece(before, t);
          LastPiece(merged, t);
          assert merged[..|merged| - 1] == before[..|before| - 1];
        }
      } else {
        merged := merged + [interval];
        forall t ensures Covered(merged, t) <==> Covered(before, t) || Holds(interval, t) {
          CoveredAppend(before, interval, t);
        }
      }
      forall t ensures Covered(merged, t) <==> Covered(clipped[..k + 1], t) {
        CoveredAppend(clipped[..k], interval, t);
      }
    }
    assert clipped[..|clipped|] == clipped;
  }

  lemma LastPiece(s: seq<Interval>, t: string)
    requires |s| > 0
    ensures Covered(s, t) <==> Covered(s[..|s| - 1], t) || Holds(s[|s| - 1], t)
  {
    assert s == s[..|s| - 1] + [s[|s| - 1]];
    CoveredAppend(s[..|s| - 1], s[|s| - 1], t);
  }

  /** Clip every interval to the window and subtract the sorted exclusions. */
  method ClipAll(intervals: seq<Interval>, window: Interval, sorted: seq<Interval>) returns (clipped: seq<Interval>)
    requires SortedByStart(sorted)
    ensures forall p :: p in clipped ==> Less(p.start, p.end)
    ensures forall t :: Covered(clipped, t) <==> Holds(window, t) && Covered(intervals, t) && !Covered(sorted, t)
  {
    clipped := [];
    for k := 0 to |intervals|
      invariant forall p :: p in clipped ==> Less(p.start, p.end)
      invariant forall t :: Covered(clipped, t) <==>
                            Holds(window, t) && Covered(intervals[..k], t) && !Covered(sorted, t)
    {
      var interval := intervals[k];
      assert intervals[..k + 1] == intervals[..k] + [interval];
      var start, end := Later(interval.start, window.start), Earlier(interval.end, window.end);
      var pieces: seq<Interval> := [];
      if Less(start, end) {
        pieces := Subtract(start, end, sorted);
      }
      forall t ensures Covered(clipped + pieces, t) <==>
                       Holds(window, t) && Covered(intervals[..k + 1], t) && !Covered(sorted, t) {
        CoveredAppend(intervals[..k], interval, t);
        CoveredConcat(clipped, pieces, t);
        ClippedHolds(interval, window, t);
      }
      clipped := clipped + pieces;
    }
    assert intervals[..|intervals|] == intervals;
  }

  lemma ClippedHolds(a: Interval, b: Interval, t: string)
    ensures Holds(Interval(Later(a.start, b.start), Earlier(a.end, b.end)), t) <==> Holds(a, t) && Holds(b, t)
    ensures Holds(a, t) && Holds(b, t) ==> Less(Later(a.start, b.start), Earlier(a.end, b.end))
  {
    Ordered();
  }

  /** `project`. Nothing is assumed about the intervals or the exclusions: empty and reversed ones count as no time. */
  method Project(intervals: seq<Interval>, windowStart: string, windowEnd: string, exclusions: seq<Interval>)
    returns (r: Result<seq<Interval>, FreeBusyError>)
    ensures NormalizeTime(windowStart).Err? ==> r == Err(NormalizeTime(windowStart).error)
    ensures NormalizeTime(windowStart).Ok? && NormalizeTime(windowEnd).Err? ==> r == Err(NormalizeTime(windowEnd).error)
    ensures NormalizeTime(windowStart).Ok? && NormalizeTime(windowEnd).Ok? ==>
              var window := Interval(NormalizeTime(windowStart).value, NormalizeTime(windowEnd).value);
              if Less(window.start, window.end) then r.Ok? && IsProjection(r.value, intervals, exclusions, window)
              else r == Err(InvalidWindow)
  {
    var from, to := NormalizeTime(windowStart), NormalizeTime(windowEnd);
    if from.Err? { return Err(from.error); }
    if to.Err? { return Err(to.error); }
    if !Less(from.value, to.value) { return Err(InvalidWindow); }
    var sorted := Sort(exclusions);
    var clipped := ClipAll(intervals, Interval(from.value, to.value), sorted);
    var merged := Merge(Sort(clipped));
    forall t ensures Covered(sorted, t) <==> Covered(exclusions, t) {
      CoveredSame(sorted, exclusions, t);
    }
    forall t ensures Covered(Sort(clipped), t) <==> Covered(clipped, t) {
      CoveredSame(Sort(clipped), clipped, t);
    }
    r := Ok(merged);
  }

  // ----- the answer is determined by the set of time points ----------------

  lemma NormalTail(s: seq<Interval>, t: string)
    requires Normal(s) && |s| > 0
    ensures Normal(s[1..])
    ensures Covered(s, t) <==> Holds(s[0], t) || Covered(s[1..], t)
    ensures Covered(s[1..], t) ==> Less(s[0].end, t)
    ensures Covered(s, t) ==> !Less(t, s[0].start)
  {
    var tail := s[1..];
    assert forall j :: 0 <= j < |tail| ==> tail[j] == s[j + 1];
    assert s == [s[0]] + tail;
    forall i | i in tail && Holds(i, t) ensures Less(s[0].end, t) && !Less(t, s[0].start) {
      var j :| 0 <= j < |tail| && tail[j] == i;
      assert Less(s[0].start, s[0].end) && Less(s[0].end, s[j + 1].start);
      LessTransitive(s[0].start, s[0].end, s[j + 1].start);
      LessTrichotomy(s[j + 1].start, t);
      if Less(s[j + 1].start, t) {
        LessTransitive(s[0].end, s[j + 1].start, t);
      }
      LessTransitive(s[0].start, s[0].end, t);
      LessTrichotomy(s[0].start, t);
    }
  }

  /** Two normal lists that cover the same time points are equal. */
  lemma {:induction false} NormalFormUnique(a: seq<Interval>, b: seq<Interval>)
    requires Normal(a) && Normal(b)
    requires forall t :: Covered(a, t) <==> Covered(b, t)
    ensures a == b
  {
    Ordered();
    if a == [] && b == [] {
    } else if a == [] {
      assert Holds(b[0], b[0].start) && b[0] in b;
      assert Covered(b, b[0].start);
    } else if b == [] {
      assert Holds(a[0], a[0].start) && a[0] in a;
      assert Covered(a, a[0].start);
    } else {
      FirstPieceAgrees(a, b);
      FirstPieceAgrees(b, a);
      assert a[0] == b[0];
      forall t ensures Covered(a[1..], t) <==> Covered(b[1..], t) {
        NormalTail(a, t);
        NormalTail(b, t);
      }
      NormalTail(a, a[0].start);
      NormalTail(b, b[0].start);
      NormalFormUnique(a[1..], b[1..]);
      assert a == [a[0]] + a[1..] && b == [b[0]] + b[1..];
    }
  }

  lemma FirstPieceAgrees(a: seq<Interval>, b: seq<Interval>)
    requires Normal(a) && Normal(b) && |a| > 0 && |b| > 0
    requires forall t :: Covered(a, t) <==> Covered(b, t)
    ensures !Less(a[0].start, b[0].start) && !Less(a[0].end, b[0].end)
  {
    Ordered();
    assert Holds(a[0], a[0].start) && a[0] in a;
    assert Covered(a, a[0].start);
    NormalTail(b, a[0].start);
    NormalTail(a, a[0].end);
    assert b[0] in b && !Covered(b, a[0].end);
  }

  /** Neither the order nor the repetition of intervals and exclusions changes the answer. */
  lemma ProjectionDetermined(out: seq<Interval>, intervals: seq<Interval>, exclusions: seq<Interval>,
                             out': seq<Interval>, intervals': seq<Interval>, exclusions': seq<Interval>, window: Interval)
    requires IsProjection(out, intervals, exclusions, window)
    requires IsProjection(out', intervals', exclusions', window)
    requires forall i :: i in intervals <==> i in intervals'
    requires forall i :: i in exclusions <==> i in exclusions'
    ensures out == out'
  {
    forall t ensures Covered(out, t) <==> Covered(out', t) {
      CoveredSame(intervals, intervals', t);
      CoveredSame(exclusions, exclusions', t);
    }
    NormalFormUnique(out, out');
  }

  /** Projecting a projection again, over the same window and exclusions, changes nothing. */
  lemma ProjectionIdempotent(out: seq<Interval>, intervals: seq<Interval>, exclusions: seq<Interval>, again: seq<Interval>, window: Interval)
    requires IsProjection(out, intervals, exclusions, window)
    requires IsProjection(again, out, exclusions, window)
    ensures again == out
  {
    NormalFormUnique(again, out);
  }

  /** On normalized times the text order is the order of the wall-clock number they spell. */
  lemma {:induction false} TextOrderIsTimeOrder(a: string, b: string)
    requires AllDigits(a) && AllDigits(b) && |a| == |b|
    ensures Less(a, b) <==> DecimalValue(a) < DecimalValue(b)
    ensures a == b <==> DecimalValue(a) == DecimalValue(b)
  {
    if a != [] {
      var n := |a| - 1;
      assert a[n] in a && b[n] in b;
      assert forall c :: c in a[..n] ==> c in a;
      assert forall c :: c in b[..n] ==> c in b;
      TextOrderIsTimeOrder(a[..n], b[..n]);
      LessByLast(a, b);
      hide Less;
      assert a == a[..n] + [a[n]] && b == b[..n] + [b[n]];
      assert DecimalValue(a) == 10 * DecimalValue(a[..n]) + (a[n] as int - '0' as int);
      assert DecimalValue(b) == 10 * DecimalValue(b[..n]) + (b[n] as int - '0' as int);
      hide DecimalValue;
    }
  }

  lemma {:induction false} LessByLast(a: string, b: string)
    requires |a| == |b| > 0
    ensures Less(a, b) <==>
            Less(a[..|a| - 1], b[..|a| - 1]) || (a[..|a| - 1] == b[..|a| - 1] && a[|a| - 1] < b[|a| - 1])
  {
    var n := |a| - 1;
    if n > 0 {
      LessByLast(a[1..], b[1..]);
      assert a[1..][..n - 1] == a[..n][1..] && b[1..][..n - 1] == b[..n][1..];
      assert a[..n] == [a[0]] + a[..n][1..] && b[..n] == [b[0]] + b[..n][1..];
    }
  }
}
