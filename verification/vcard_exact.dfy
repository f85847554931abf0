/** The round trip of a contact is exact: its fields come back if and only if they are in the domain. */
module VCardExact {
  import opened Wrappers
  import opened Text
  import opened PropertyText
  import opened ContentLines
  import opened ICalendar
  import opened ICalendarLines
  import opened ICalendarRange
  import opened ICalendarFolding
  import opened ICalendarHeads
  import opened ICalendarReturned
  import opened VCard

  // ----- what the parser can produce --------------------------------------

  lemma {:induction false} UpperScan(s: string, st: Scan)
    ensures ScanAll(Upper(s), st) == ScanAll(s, st) && (Uncut(Upper(s), st, ';') <==> Uncut(s, st, ';'))
  {
    if s != [] {
      assert Upper(s)[0] == UpperChar(s[0]) && Upper(s)[1..] == Upper(s[1..]);
      UpperScan(s[1..], Step(st, s[0]));
    }
  }

  function AsProperty(name: string, occurrence: Occurrence): Property {
    Property(name, occurrence.params, occurrence.value)
  }

  predicate ReadField(name: string, occurrences: seq<Occurrence>) {
    name != "VERSION" && occurrences != [] && Balanced(name, ';') &&
    forall o :: o in occurrences ==> ReadProperty(AsProperty(name, o))
  }

  predicate ReadFields(fields: Fields) {
    forall n :: n in fields ==> ReadField(n, fields[n])
  }

  predicate GoodLine(line: string) {
    line != "" && !IsBlank(line[0]) && Lacks(line, {'\r', '\n'})
  }

  lemma HeadBalanced(left: string)
    requires ParseHead(left).Ok?
    ensures Balanced(ParseHead(left).value.0, ';')
  {
    hide ParseParams;
    FirstPiece(left, ';');
    UpperScan(SplitUnquoted(left, ';').value[0], Outside);
  }

  lemma ReadLineFacts(line: string)
    requires GoodLine(line) && ReadLine(line).Ok? && ReadLine(line).value.0 != "VERSION"
    ensures ReadProperty(AsProperty(ReadLine(line).value.0, ReadLine(line).value.1))
    ensures Balanced(ReadLine(line).value.0, ';')
  {
    hide ParseHead, Balanced, IsUpper, ReadParamsOk, Unescape;
    SplitOnceParts(line, ':');
    var (left, value) := SplitOnce(line, ':').value;
    assert forall c :: c in left ==> c in line;
    assert forall c :: c in value ==> c in line;
    HeadFacts(left);
    HeadBalanced(left);
    assert line[0] == left[0];
    UnescapeFrom(value);
  }

  lemma PushKeeps(fields: Fields, name: string, occurrence: Occurrence)
    requires ReadFields(fields) && name != "VERSION" && Balanced(name, ';') && ReadProperty(AsProperty(name, occurrence))
    ensures ReadFields(Push(fields, name, occurrence))
  {
    hide Balanced, ReadProperty;
    var before := if name in fields then fields[name] else [];
    forall o | o in before + [occurrence] ensures ReadProperty(AsProperty(name, o)) {
      if o in before {
        assert ReadField(name, fields[name]);
      }
    }
  }

  lemma {:induction false} FieldsFacts(lines: seq<string>, contact: Contact)
    requires ParseFields(lines, contact).Ok? && ReadFields(contact.fields) && forall l :: l in lines ==> GoodLine(l)
    ensures ReadFields(ParseFields(lines, contact).value.fields)
  {
    hide ReadLine, GoodLine, ReadFields, Push, Balanced, ReadProperty;
    if lines != [] {
      assert lines[0] in lines && forall l :: l in lines[1..] ==> l in lines;
      var (name, occurrence) := ReadLine(lines[0]).value;
      if name != "VERSION" {
        ReadLineFacts(lines[0]);
        PushKeeps(contact.fields, name, occurrence);
      }
      FieldsFacts(lines[1..], Add(contact, name, occurrence));
    }
  }

  // ----- the first content line of a written line -------------------------

  lemma OwnPiece(name: string, more: string, left: string)
    requires ':' !in name && Balanced(name, ';') && CutAtColon(left, name + more) && (more != "" ==> more[0] == ';')
    ensures SplitUnquoted(left, ';').Some? ==> SplitUnquoted(left, ';').value[0] == name
  {
    assert forall i :: 0 <= i < |name| ==> (name + more)[i] == name[i] && name[i] in name;
    assert |left| >= |name|;
    if |left| == |name| {
      assert left == name;
      SplitBalanced(name, "", ';');
    } else {
      assert left == name + [';'] + left[|name| + 1..];
      SplitBalanced(name, left[|name| + 1..], ';');
    }
  }

  lemma OwnHead(name: string, params: Params, left: string)
    requires ':' !in name && Balanced(name, ';')
    requires CutAtColon(left, HeadText(name, SortedKeys(params.Keys), FoldedParams(params)))
    ensures SplitUnquoted(left, ';').Some? ==> SplitUnquoted(left, ';').value[0] == name
  {
    hide Balanced, SplitUnquoted, SortedKeys, FoldedParams, HeadText, CutAtColon, Join;
    var keys := SortedKeys(params.Keys);
    HeadIs(name, keys, FoldedParams(params));
    assert name + "" == name;
    OwnPiece(name, if keys == [] then "" else ";" + Join(ParamTexts(keys, FoldedParams(params)), ";"), left);
  }

  /** Whatever becomes of a written line, its first content line is read under its own name. */
  lemma OwnName(name: string, occurrence: Occurrence, line: string)
    requires ReadProperty(AsProperty(name, occurrence)) && Balanced(name, ';')
    requires line <= Fold(Line(name, occurrence), false) && ReadLine(line).Ok?
    ensures ReadLine(line).value.0 == name
  {
    hide Balanced, SplitUnquoted, ParseParams, SerializePropertyValue, SortedKeys, FoldedParams, Fold, HeadText, PropertyLine,
         CutAtColon, ReadParamsOk, IsUpper, Unescape;
    var p := AsProperty(name, occurrence);
    FoldLine(p);
    SplitAtColon(line, HeadText(name, SortedKeys(p.params.Keys), FoldedParams(p.params)), Fold(SerializePropertyValue(name, p.value), false));
    OwnHead(name, p.params, SplitOnce(line, ':').value.0);
    UpperOfUpper(name);
  }

  function Same(s: string): string { s }

  lemma SameIsMeek()
    ensures Meek(Same)
  {
  }

  lemma ReadGives(name: string, occurrence: Occurrence, line: string)
    requires name != "VERSION" && ReadLine(line) == Ok((name, occurrence))
    ensures GivesProperty(AsProperty(name, occurrence), line, Same)
  {
    hide ParseHead, Unescape;
    var left := SplitOnce(line, ':').value.0;
    var params := ParseHead(left).value.1;
    assert params == occurrence.params;
    forall k | k in SortedKeys(params.Keys) ensures k in params && Rereads(params[k], params[k], Same) {
    }
  }

  /** An occurrence that the first content line of its line gives back belongs to the domain. */
  lemma OccurrenceReturned(name: string, occurrence: Occurrence, line: string)
    requires name != "VERSION" && ReadProperty(AsProperty(name, occurrence))
    requires line <= Fold(Line(name, occurrence), false) && ReadLine(line) == Ok((name, occurrence))
    ensures NameOk(name) && OccurrenceOk(name, occurrence)
  {
    hide ReadProperty, ReadLine, Fold, PropertyLine, GivesProperty, Meek, NameOk, ParamsOk, ValueOk, HeadText, SortedKeys;
    SameIsMeek();
    ReadGives(name, occurrence, line);
    LineReturned(AsProperty(name, occurrence), line, Same);
  }

  // ----- counting the lines of a field ------------------------------------

  lemma {:induction false} OccurrencesConcat(a: seq<string>, b: seq<string>, name: string)
    ensures OccurrencesOf(a + b, name) == OccurrencesOf(a, name) + OccurrencesOf(b, name)
  {
    hide ReadLine;
    if a == [] {
      assert a + b == b && [] + OccurrencesOf(b, name) == OccurrencesOf(b, name);
    } else {
      assert (a + b)[1..] == a[1..] + b;
      OccurrencesConcat(a[1..], b, name);
      var first := match ReadLine(a[0])
                   case Ok((found, occurrence)) => (if found == name then [occurrence] else [])
                   case Err(_) => [];
      ConcatAssociates(first, OccurrencesOf(a[1..], name), OccurrencesOf(b, name));
    }
  }

  lemma {:induction false} UnfoldEachConcat(a: seq<string>, b: seq<string>)
    ensures UnfoldEach(a + b) == UnfoldEach(a) + UnfoldEach(b)
  {
    hide UnfoldOne;
    if a == [] {
      assert a + b == b && [] + UnfoldEach(b) == UnfoldEach(b);
    } else {
      assert (a + b)[1..] == a[1..] + b;
      UnfoldEachConcat(a[1..], b);
      ConcatAssociates(UnfoldOne(a[0]), UnfoldEach(a[1..]), UnfoldEach(b));
    }
  }

  predicate AllRead(lines: seq<string>) {
    forall l :: l in lines ==> ReadLine(l).Ok?
  }

  lemma {:induction false} ParsedAllRead(lines: seq<string>, contact: Contact)
    requires ParseFields(lines, contact).Ok?
    ensures AllRead(lines)
  {
    hide ReadLine;
    if lines != [] {
      var (name, occurrence) := ReadLine(lines[0]).value;
      ParsedAllRead(lines[1..], Add(contact, name, occurrence));
      assert lines == [lines[0]] + lines[1..];
    }
  }

  lemma LineStartsOwn(name: string, occurrence: Occurrence)
    requires ReadProperty(AsProperty(name, occurrence))
    ensures StartsLine(Line(name, occurrence))
  {
    ReadPropertyStarts(AsProperty(name, occurrence));
  }

  /** The content lines of one written line: the first is read under its own name. */
  lemma OwnFirst(name: string, occurrence: Occurrence)
    requires ReadProperty(AsProperty(name, occurrence)) && Balanced(name, ';') && AllRead(UnfoldOne(Line(name, occurrence)))
    ensures var lines := UnfoldOne(Line(name, occurrence));
            |lines| >= 1 && lines[0] <= Fold(Line(name, occurrence), false) &&
            ReadLine(lines[0]).Ok? && ReadLine(lines[0]).value.0 == name &&
            OccurrencesOf(lines, name) == [ReadLine(lines[0]).value.1] + OccurrencesOf(lines[1..], name)
  {
    hide ReadProperty, Balanced, Line, UnfoldOne, Fold, ReadLine;
    LineStartsOwn(name, occurrence);
    FirstIsFold(Line(name, occurrence));
    var lines := UnfoldOne(Line(name, occurrence));
    assert lines[0] in lines;
    OwnName(name, occurrence, lines[0]);
  }

  lemma FirstOfField(name: string, occurrences: seq<Occurrence>)
    requires occurrences != []
    ensures UnfoldEach(FieldLines(name, occurrences))
         == UnfoldOne(Line(name, occurrences[0])) + UnfoldEach(FieldLines(name, occurrences[1..]))
  {
    hide UnfoldOne, Line;
    var rest := FieldLines(name, occurrences[1..]);
    assert ([Line(name, occurrences[0])] + rest)[1..] == rest;
  }

  predicate OwnLines(name: string, occurrences: seq<Occurrence>) {
    Balanced(name, ';') && (forall o :: o in occurrences ==> ReadProperty(AsProperty(name, o))) &&
    AllRead(UnfoldEach(FieldLines(name, occurrences)))
  }

  lemma OwnRest(name: string, occurrences: seq<Occurrence>)
    requires OwnLines(name, occurrences) && occurrences != []
    ensures OwnLines(name, occurrences[1..]) && ReadProperty(AsProperty(name, occurrences[0]))
    ensures AllRead(UnfoldOne(Line(name, occurrences[0])))
  {
    hide Balanced, ReadProperty, ReadLine, UnfoldOne, Line, FieldLines;
    FirstOfField(name, occurrences);
    assert occurrences[0] in occurrences && forall o :: o in occurrences[1..] ==> o in occurrences;
  }

  /** A field reads at least as many occurrences as it was written for. */
  lemma {:induction false} AtLeast(name: string, occurrences: seq<Occurrence>)
    requires OwnLines(name, occurrences)
    ensures |OccurrencesOf(UnfoldEach(FieldLines(name, occurrences)), name)| >= |occurrences|
  {
    hide OwnLines, ReadLine, UnfoldOne, Line, Balanced, ReadProperty, AllRead, Fold;
    if occurrences != [] {
      OwnRest(name, occurrences);
      FirstOfField(name, occurrences);
      IsBalanced(name, occurrences);
      OwnFirst(name, occurrences[0]);
      AtLeast(name, occurrences[1..]);
      OccurrencesConcat(UnfoldOne(Line(name, occurrences[0])), UnfoldEach(FieldLines(name, occurrences[1..])), name);
    }
  }

  lemma IsBalanced(name: string, occurrences: seq<Occurrence>)
    requires OwnLines(name, occurrences)
    ensures Balanced(name, ';')
  {
  }

  /** When it reads exactly those, each first content line gave back its own occurrence. */
  lemma {:induction false} FieldReturned(name: string, occurrences: seq<Occurrence>)
    requires OwnLines(name, occurrences) && name != "VERSION"
    requires OccurrencesOf(UnfoldEach(FieldLines(name, occurrences)), name) == occurrences
    ensures OccurrencesOk(name, occurrences) && (occurrences != [] ==> NameOk(name))
  {
    hide OwnLines, ReadLine, UnfoldOne, Line, Balanced, ReadProperty, AllRead, Fold, OccurrenceOk, NameOk;
    if occurrences != [] {
      OwnRest(name, occurrences);
      FirstOfField(name, occurrences);
      IsBalanced(name, occurrences);
      OwnFirst(name, occurrences[0]);
      AtLeast(name, occurrences[1..]);
      var first, rest := UnfoldOne(Line(name, occurrences[0])), UnfoldEach(FieldLines(name, occurrences[1..]));
      OccurrencesConcat(first, rest, name);
      SplitCounts(OccurrencesOf(first, name), OccurrencesOf(rest, name), occurrences, 1);
      assert ReadLine(first[0]) == Ok((name, occurrences[0]));
      OccurrenceReturned(name, occurrences[0], first[0]);
      FieldReturned(name, occurrences[1..]);
    }
  }

  lemma SplitCounts<T>(a: seq<T>, b: seq<T>, whole: seq<T>, n: nat)
    requires a + b == whole && n <= |whole| && |a| >= n && |b| >= |whole| - n
    ensures a == whole[..n] && b == whole[n..]
  {
  }

  // ----- the whole contact ------------------------------------------------

  lemma FirstFieldLines(fields: Fields, names: seq<string>)
    requires names != [] && forall n :: n in names ==> n in fields
    ensures forall n :: n in names[1..] ==> n in names
    ensures UnfoldEach(AllLines(fields, names))
         == UnfoldEach(FieldLines(names[0], fields[names[0]])) + UnfoldEach(AllLines(fields, names[1..]))
  {
    hide FieldLines;
    assert names[0] in names;
    UnfoldEachConcat(FieldLines(names[0], fields[names[0]]), AllLines(fields, names[1..]));
  }

  /** One field's lines among others: if the whole gives the field back, its own lines do. */
  lemma FieldAmong(before: seq<string>, own: seq<string>, behind: seq<string>, name: string, occurrences: seq<Occurrence>)
    requires OccurrencesOf(before + (own + behind), name) == occurrences && |OccurrencesOf(own, name)| >= |occurrences|
    ensures OccurrencesOf(own, name) == occurrences
  {
    OccurrencesConcat(before, own + behind, name);
    OccurrencesConcat(own, behind, name);
  }

  /** Fields that are given back by the content lines of all fields belong to the domain. */
  lemma {:induction false} FieldsReturned(fields: Fields, names: seq<string>, before: seq<string>)
    requires ReadFields(fields) && (forall n :: n in names ==> n in fields) && AllRead(UnfoldEach(AllLines(fields, names)))
    requires forall n :: n in names ==> OccurrencesOf(before + UnfoldEach(AllLines(fields, names)), n) == fields[n]
    ensures forall n :: n in names ==> FieldOk(n, fields[n])
  {
    hide ReadLine, FieldLines, Balanced, ReadProperty, AllLines, NameOk, OccurrencesOk;
    if names != [] {
      var name, rest := names[0], names[1..];
      assert name in names && ReadField(name, fields[name]);
      FirstFieldLines(fields, names);
      var own, behind := UnfoldEach(FieldLines(name, fields[name])), UnfoldEach(AllLines(fields, rest));
      assert AllRead(own) && AllRead(behind);
      hide UnfoldEach, AllRead;
      AtLeast(name, fields[name]);
      FieldAmong(before, own, behind, name, fields[name]);
      FieldReturned(name, fields[name]);
      ConcatAssociates(before, own, behind);
      forall n | n in rest ensures OccurrencesOf(before + own + behind, n) == fields[n] {
        assert n in names;
      }
      FieldsReturned(fields, rest, before + own);
      assert names == [name] + rest;
    }
  }

  lemma {:induction false} FieldStarts(name: string, occurrences: seq<Occurrence>)
    requires forall o :: o in occurrences ==> ReadProperty(AsProperty(name, o))
    ensures forall l :: l in FieldLines(name, occurrences) ==> StartsLine(l)
  {
    hide ReadProperty, StartsLine, Line;
    if occurrences != [] {
      assert occurrences[0] in occurrences && forall o :: o in occurrences[1..] ==> o in occurrences;
      LineStartsOwn(name, occurrences[0]);
      FieldStarts(name, occurrences[1..]);
    }
  }

  lemma {:induction false} FieldsStart(fields: Fields, names: seq<string>)
    requires ReadFields(fields) && forall n :: n in names ==> n in fields
    ensures forall l :: l in AllLines(fields, names) ==> StartsLine(l)
  {
    hide ReadProperty, StartsLine, FieldLines, Balanced;
    if names != [] {
      assert names[0] in names && forall n :: n in names[1..] ==> n in names;
      assert ReadField(names[0], fields[names[0]]);
      FieldStarts(names[0], fields[names[0]]);
      FieldsStart(fields, names[1..]);
    }
  }

  lemma WrappedStart(begin: string, version: string, end: string, middle: seq<string>)
    requires begin == "BEGIN:VCARD" && version == "VERSION:4.0" && end == "END:VCARD"
    requires forall l :: l in middle ==> StartsLine(l)
    ensures Unfold(Wire([begin, version] + middle + [end])) == [begin, version] + UnfoldEach(middle) + [end]
  {
    EnvelopeIsClean(begin, version, end);
    hide StartsLine, UnfoldOne;
    var front, back := [begin, version], [end];
    UnfoldWire(front + middle + back);
    UnfoldEachConcat(front + middle, back);
    UnfoldEachConcat(front, middle);
    UnfoldEachClean(front);
    UnfoldEachClean(back);
  }

  /** The content lines of a contact whose fields were read from somewhere. */
  lemma WrittenLines(contact: Contact)
    requires ReadFields(contact.fields)
    ensures var middle := UnfoldEach(AllLines(contact.fields, SortedKeys(contact.fields.Keys)));
            Unfold(SerializeVCard(contact)) == ["BEGIN:VCARD", "VERSION:4.0"] + middle + ["END:VCARD"]
  {
    hide StartsLine, UnfoldEach, AllLines, Wire, Unfold, ReadFields;
    var middle := AllLines(contact.fields, SortedKeys(contact.fields.Keys));
    FieldsStart(contact.fields, SortedKeys(contact.fields.Keys));
    WrappedStart("BEGIN:VCARD", "VERSION:4.0", "END:VCARD", middle);
  }

  lemma MiddleLinesGood(lines: seq<string>)
    requires AreLines(lines) && |lines| >= 3
    ensures forall l :: l in lines[1..|lines| - 1] ==> GoodLine(l)
  {
    forall l | l in lines[1..|lines| - 1] ensures GoodLine(l) {
      var i :| 1 <= i < |lines| - 1 && lines[i] == l;
      assert lines[i] in lines;
    }
  }

  /** The fields of an accepted contact, whatever text it was read from. */
  lemma AcceptedFields(input: string)
    requires ParseVCard(input).Ok?
    ensures ReadFields(ParseVCard(input).value.fields)
  {
    hide ReadFields, GoodLine, AreLines, Unfold, ParseFields;
    var lines := Unfold(input);
    UnfoldedAreLines(input);
    MiddleLinesGood(lines);
    NoFields();
    FieldsFacts(lines[1..|lines| - 1], Blank);
  }

  lemma NoFields()
    ensures ReadFields(Blank.fields)
  {
  }

  lemma VersionIsApart(version: string, middle: seq<string>, name: string)
    requires version == "VERSION:4.0" && name != "VERSION"
    ensures OccurrencesOf([version] + middle, name) == OccurrencesOf(middle, name)
  {
    hide ReadLine;
    VersionLine(version);
    assert ([version] + middle)[1..] == middle && [] + OccurrencesOf(middle, name) == OccurrencesOf(middle, name);
  }

  lemma ReadOccurrences(lines: seq<string>, name: string)
    requires ParseFields(lines, Blank).Ok? && name != "VERSION" && name in ParseFields(lines, Blank).value.fields
    ensures ParseFields(lines, Blank).value.fields[name] == OccurrencesOf(lines, name)
  {
    hide ParseFields;
    ParseRegroups(lines, Blank, name);
    assert [] + OccurrencesOf(lines, name) == OccurrencesOf(lines, name);
  }

  /** A contact that is read back has fields of the domain. */
  lemma ContactReturned(contact: Contact)
    requires ParseVCard(SerializeVCard(contact)).Ok? && ParseVCard(SerializeVCard(contact)).value.fields == contact.fields
    ensures FieldsOk(contact.fields)
  {
    hide ReadField, FieldOk, SerializeVCard, Unfold, ParseFields, AllLines, UnfoldEach, OccurrencesOf, ReadLine;
    AcceptedFields(SerializeVCard(contact));
    WrittenLines(contact);
    var names := SortedKeys(contact.fields.Keys);
    var version, middle := "VERSION:4.0", UnfoldEach(AllLines(contact.fields, names));
    var lines := Unfold(SerializeVCard(contact));
    assert lines[1..|lines| - 1] == [version] + middle;
    ParsedAllRead([version] + middle, Blank);
    assert AllRead(middle);
    forall n | n in names ensures OccurrencesOf([] + middle, n) == contact.fields[n] {
      IsNoVersion(contact.fields, n);
      ReadOccurrences([version] + middle, n);
      VersionIsApart(version, middle, n);
      assert [] + middle == middle;
    }
    FieldsReturned(contact.fields, names, []);
  }

  lemma IsNoVersion(fields: Fields, name: string)
    requires ReadFields(fields) && name in fields
    ensures name != "VERSION"
  {
  }

  /** Writing a contact and reading it back gives its fields again exactly on the domain. */
  lemma VCardRoundTripExactly(contact: Contact)
    ensures (ParseVCard(SerializeVCard(contact)).Ok? && ParseVCard(SerializeVCard(contact)).value.fields == contact.fields)
            <==> FieldsOk(contact.fields)
  {
    hide ParseVCard, SerializeVCard, FieldsOk;
    if FieldsOk(contact.fields) {
      VCardRoundTrip(contact);
    }
    if ParseVCard(SerializeVCard(contact)).Ok? && ParseVCard(SerializeVCard(contact)).value.fields == contact.fields {
      ContactReturned(contact);
    }
  }
}
