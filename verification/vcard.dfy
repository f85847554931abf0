/** vCards: a flat list of lines, grouped by field name when read. */
module VCard {
  import opened Wrappers
  import opened Text
  import opened PropertyText
  import opened ContentLines
  import opened ICalendar
  import opened ICalendarLines

  datatype Occurrence = Occurrence(value: string, params: Params)

  type Fields = map<string, seq<Occurrence>>

  /** `metadata` holds the container's VERSION, apart from the contact's data. */
  datatype Contact = Contact(fields: Fields, metadata: Fields)

  datatype VCardError = MissingEnvelope | NoColon | BadHead(reason: HeadError)

  // ----- the parser -------------------------------------------------------

  function Push(fields: Fields, name: string, occurrence: Occurrence): Fields {
    fields[name := (if name in fields then fields[name] else []) + [occurrence]]
  }

  /** The field name and the occurrence on a line; values are unescaped, parameters are not again. */
  function ReadLine(line: string): Result<(string, Occurrence), VCardError> {
    match SplitOnce(line, ':')
    case None => Err(NoColon)
    case Some((left, value)) =>
      match ParseHead(left)
      case Err(e) => Err(VCardError.BadHead(e))
      case Ok((name, params)) =>
        Ok((name, Occurrence(Unescape(value), if name == "VERSION" then map[] else params)))
  }

  function Add(contact: Contact, name: string, occurrence: Occurrence): Contact {
    if name == "VERSION" then contact.(metadata := Push(contact.metadata, name, occurrence))
    else contact.(fields := Push(contact.fields, name, occurrence))
  }

  function ParseFields(lines: seq<string>, contact: Contact): Result<Contact, VCardError> {
    if lines == [] then Ok(contact)
    else
      match ReadLine(lines[0])
      case Err(e) => Err(e)
      case Ok((name, occurrence)) => ParseFields(lines[1..], Add(contact, name, occurrence))
  }

  const Blank: Contact := Contact(map[], map[])

  function ParseVCardLines(lines: seq<string>): Result<Contact, VCardError> {
    if |lines| < 3 || lines[0] != "BEGIN:VCARD" || lines[|lines| - 1] != "END:VCARD" then Err(MissingEnvelope)
    else ParseFields(lines[1..|lines| - 1], Blank)
  }

  function ParseVCard(input: string): Result<Contact, VCardError> {
    ParseVCardLines(Unfold(input))
  }

  method ParseVCardLoop(input: string) returns (r: Result<Contact, VCardError>)
    ensures r == ParseVCard(input)
  {
    var lines := UnfoldLoop(input);
    if |lines| < 3 || lines[0] != "BEGIN:VCARD" || lines[|lines| - 1] != "END:VCARD" {
      return Err(MissingEnvelope);
    }
    var fields: Fields, metadata: Fields := map[], map[];
    var middle := lines[1..|lines| - 1];
    for k := 0 to |middle|
      invariant ParseFields(middle[k..], Contact(fields, metadata)) == ParseFields(middle, Blank)
    {
      assert middle[k..][0] == middle[k] && middle[k..][1..] == middle[k + 1..];
      var split := SplitOnce(middle[k], ':');
      if split.None? { return Err(NoColon); }
      var (left, value) := split.value;
      var head := ParseHeadLoop(left);
      if head.Err? { return Err(VCardError.BadHead(head.error)); }
      var (name, params) := head.value;
      var text := UnescapeLoop(value);
      if name == "VERSION" {
        metadata := Push(metadata, name, Occurrence(text, map[]));
        continue;
      }
      fields := Push(fields, name, Occurrence(text, params));
    }
    assert middle[|middle|..] == [];
    return Ok(Contact(fields, metadata));
  }

  // ----- what a line says -------------------------------------------------

  /** A line says the name of its head, with what stands behind the first colon unescaped and the
      parameters of the head; the version keeps none. Without a colon or a head it is refused. */
  lemma LineSays(line: string, at: nat)
    ensures ':' !in line ==> ReadLine(line) == Err(NoColon)
    ensures CutAt(line, at) ==> (ReadLine(line).Ok? <==> ParseHead(line[..at]).Ok?)
    ensures CutAt(line, at) && ReadLine(line).Ok? ==>
              var (name, params) := ParseHead(line[..at]).value;
              ReadLine(line).value == (name, Occurrence(Unescape(line[at + 1..]), if name == "VERSION" then map[] else params))
  {
    SplitOnceParts(line, ':');
    if CutAt(line, at) {
      CutIs(line, at);
    }
  }

  lemma {:induction false} FieldsAccepted(lines: seq<string>, contact: Contact)
    ensures ParseFields(lines, contact).Ok? <==> forall l :: l in lines ==> ReadLine(l).Ok?
  {
    hide ReadLine;
    if lines != [] {
      assert lines == [lines[0]] + lines[1..];
      if ReadLine(lines[0]).Ok? {
        var (name, occurrence) := ReadLine(lines[0]).value;
        FieldsAccepted(lines[1..], Add(contact, name, occurrence));
      }
    }
  }

  /** Exactly which unfolded lines are a contact: the two of its envelope, and at least one between
      them, each of which is read. */
  lemma ContactAccepted(lines: seq<string>)
    ensures ParseVCardLines(lines).Ok? <==>
            |lines| >= 3 && lines[0] == "BEGIN:VCARD" && lines[|lines| - 1] == "END:VCARD" &&
            forall k :: 1 <= k < |lines| - 1 ==> ReadLine(lines[k]).Ok?
  {
    hide ReadLine, ParseFields;
    if |lines| >= 3 {
      var middle := lines[1..|lines| - 1];
      FieldsAccepted(middle, Blank);
      assert forall k :: 1 <= k < |lines| - 1 ==> lines[k] == middle[k - 1];
      assert forall k :: 0 <= k < |middle| ==> middle[k] == lines[k + 1];
    }
  }

  // ----- regrouping -------------------------------------------------------

  /** The occurrences of one field on these lines, in order. */
  function OccurrencesOf(lines: seq<string>, name: string): seq<Occurrence> {
    if lines == [] then []
    else
      (match ReadLine(lines[0])
       case Ok((found, occurrence)) => if found == name then [occurrence] else []
       case Err(_) => []) + OccurrencesOf(lines[1..], name)
  }

  function Get(fields: Fields, name: string): seq<Occurrence> {
    if name in fields then fields[name] else []
  }

  /** Whatever is accepted, every field collects exactly its own lines, in the order of the lines. */
  lemma {:induction false} ParseRegroups(lines: seq<string>, contact: Contact, name: string)
    requires ParseFields(lines, contact).Ok?
    ensures var read := ParseFields(lines, contact).value;
            Get(if name == "VERSION" then read.metadata else read.fields, name)
              == Get(if name == "VERSION" then contact.metadata else contact.fields, name) + OccurrencesOf(lines, name)
  {
    hide ReadLine;
    var before := Get(if name == "VERSION" then contact.metadata else contact.fields, name);
    if lines == [] {
      assert before + [] == before;
    } else {
      var (found, occurrence) := ReadLine(lines[0]).value;
      ParseRegroups(lines[1..], Add(contact, found, occurrence), name);
      var rest := OccurrencesOf(lines[1..], name);
      if found == name {
        ConcatAssociates(before, [occurrence], rest);
      } else {
        assert [] + rest == rest;
      }
    }
  }

  // ----- the writer -------------------------------------------------------

  function Line(name: string, occurrence: Occurrence): string {
    PropertyLine(Property(name, occurrence.params, occurrence.value))
  }

  function FieldLines(name: string, occurrences: seq<Occurrence>): seq<string> {
    if occurrences == [] then [] else [Line(name, occurrences[0])] + FieldLines(name, occurrences[1..])
  }

  function AllLines(fields: Fields, names: seq<string>): seq<string>
    requires forall n :: n in names ==> n in fields
  {
    if names == [] then []
    else
      assert names[0] in names && forall n :: n in names[1..] ==> n in names;
      FieldLines(names[0], fields[names[0]]) + AllLines(fields, names[1..])
  }

  function ContactLines(contact: Contact): seq<string> {
    ["BEGIN:VCARD", "VERSION:4.0"] + AllLines(contact.fields, SortedKeys(contact.fields.Keys)) + ["END:VCARD"]
  }

  function SerializeVCard(contact: Contact): string {
    Wire(ContactLines(contact))
  }

  // ----- the round trip ---------------------------------------------------

  predicate OccurrenceOk(name: string, occurrence: Occurrence) {
    ParamsOk(occurrence.params) && ValueOk(name, occurrence.value)
  }

  predicate OccurrencesOk(name: string, occurrences: seq<Occurrence>) {
    occurrences == [] || (OccurrenceOk(name, occurrences[0]) && OccurrencesOk(name, occurrences[1..]))
  }

  predicate FieldOk(name: string, occurrences: seq<Occurrence>) {
    NameOk(name) && name != "VERSION" && occurrences != [] && OccurrencesOk(name, occurrences)
  }

  predicate CleanLine(line: string) {
    StartsLine(line) && '\n' !in line
  }

  /** A good line is one content line and says its field and occurrence again. */
  lemma LineIsRead(name: string, occurrence: Occurrence)
    requires NameOk(name) && name != "VERSION" && OccurrenceOk(name, occurrence)
    ensures CleanLine(Line(name, occurrence)) && ReadLine(Line(name, occurrence)) == Ok((name, occurrence))
  {
    var keys, texts := SortedKeys(occurrence.params.Keys), SerializeParams(occurrence.params);
    var head, value := HeadText(name, keys, texts), SerializePropertyValue(name, occurrence.value);
    HeadReturns(name, occurrence.params);
    ValueReturns(name, occurrence.value);
    HeadStarts(name, keys, texts);
    assert name[0] in name;
    SplitOnceConcat(head, ':', value);
    var line := Line(name, occurrence);
    assert line == head + [':'] + value;
    forall c | c in line ensures c != '\r' && c != '\n' {
      assert c in head || c == ':' || c in value;
    }
    assert line[0] == head[0] && line[0] in line;
  }

  lemma {:induction false} FieldLinesClean(name: string, occurrences: seq<Occurrence>)
    requires NameOk(name) && name != "VERSION" && OccurrencesOk(name, occurrences)
    ensures forall l :: l in FieldLines(name, occurrences) ==> CleanLine(l)
  {
    hide NameOk, OccurrenceOk, Line, CleanLine;
    if occurrences != [] {
      LineIsRead(name, occurrences[0]);
      FieldLinesClean(name, occurrences[1..]);
    }
  }

  /** A field of a contact with these occurrences behind those it has. */
  function Extended(contact: Contact, name: string, occurrences: seq<Occurrence>): Contact {
    contact.(fields := contact.fields[name := Get(contact.fields, name) + occurrences])
  }

  lemma ExtendTwice(contact: Contact, name: string, first: Occurrence, more: seq<Occurrence>)
    requires name != "VERSION"
    ensures Extended(Add(contact, name, first), name, more) == Extended(contact, name, [first] + more)
    ensures Add(contact, name, first) == Extended(contact, name, [first])
  {
    ConcatAssociates(Get(contact.fields, name), [first], more);
  }

  lemma FirstLineIsRead(name: string, occurrence: Occurrence, tail: seq<string>, contact: Contact)
    requires NameOk(name) && name != "VERSION" && OccurrenceOk(name, occurrence)
    ensures ParseFields([Line(name, occurrence)] + tail, contact) == ParseFields(tail, Add(contact, name, occurrence))
  {
    hide NameOk, OccurrenceOk, Line, CleanLine, ReadLine;
    LineIsRead(name, occurrence);
    assert ([Line(name, occurrence)] + tail)[1..] == tail;
  }

  lemma {:induction false} FieldIsRead(name: string, occurrences: seq<Occurrence>, rest: seq<string>, contact: Contact)
    requires NameOk(name) && name != "VERSION" && OccurrencesOk(name, occurrences) && occurrences != []
    ensures ParseFields(FieldLines(name, occurrences) + rest, contact)
         == ParseFields(rest, Extended(contact, name, occurrences))
  {
    hide NameOk, OccurrenceOk, Line, ReadLine, Add, Extended, ParseFields;
    var first, more := occurrences[0], occurrences[1..];
    assert occurrences == [first] + more;
    ConcatAssociates([Line(name, first)], FieldLines(name, more), rest);
    FirstLineIsRead(name, first, FieldLines(name, more) + rest, contact);
    ExtendTwice(contact, name, first, more);
    if more == [] {
      assert FieldLines(name, more) + rest == rest && occurrences == [first];
    } else {
      FieldIsRead(name, more, rest, Add(contact, name, first));
    }
  }

  predicate FieldsOk(fields: Fields) {
    forall n :: n in fields ==> FieldOk(n, fields[n])
  }

  function Keep(fields: Fields, names: seq<string>): Fields
    requires forall n :: n in names ==> n in fields
  {
    map n | n in names :: fields[n]
  }

  lemma KeepStep(fields: Fields, names: seq<string>, contact: Contact)
    requires names != [] && Distinct(names) && forall n :: n in names ==> n in fields && n !in contact.fields
    ensures forall n :: n in names[1..] ==> n in names
    ensures var next := Extended(contact, names[0], fields[names[0]]);
            (forall n :: n in names[1..] ==> n !in next.fields) &&
            contact.(fields := contact.fields + Keep(fields, names)) == next.(fields := next.fields + Keep(fields, names[1..]))
  {
    var name, rest := names[0], names[1..];
    var next := Extended(contact, name, fields[name]);
    assert name in names && [] + fields[name] == fields[name];
    forall n | n in rest ensures n !in next.fields {
      var k :| 0 <= k < |rest| && rest[k] == n;
      assert names[0] != names[k + 1];
    }
    assert contact.fields + Keep(fields, names) == next.fields + Keep(fields, rest);
  }

  lemma {:induction false} FieldsAreRead(fields: Fields, names: seq<string>, contact: Contact)
    requires Distinct(names) && forall n :: n in names ==> n in fields && FieldOk(n, fields[n])
    requires forall n :: n in names ==> n !in contact.fields
    ensures ParseFields(AllLines(fields, names), contact) == Ok(contact.(fields := contact.fields + Keep(fields, names)))
  {
    hide NameOk, OccurrencesOk, Extended, FieldLines;
    if names == [] {
      assert contact.fields + Keep(fields, names) == contact.fields;
    } else {
      hide ParseFields;
      assert names[0] in names;
      KeepStep(fields, names, contact);
      FieldIsRead(names[0], fields[names[0]], AllLines(fields, names[1..]), contact);
      FieldsAreRead(fields, names[1..], Extended(contact, names[0], fields[names[0]]));
    }
  }

  lemma {:induction false} AllLinesClean(fields: Fields, names: seq<string>)
    requires forall n :: n in names ==> n in fields && FieldOk(n, fields[n])
    ensures forall l :: l in AllLines(fields, names) ==> CleanLine(l)
  {
    hide NameOk, OccurrencesOk, FieldLines, CleanLine;
    if names != [] {
      assert names[0] in names && forall n :: n in names[1..] ==> n in names;
      FieldLinesClean(names[0], fields[names[0]]);
      AllLinesClean(fields, names[1..]);
    }
  }

  const Version4: Occurrence := Occurrence("4.0", map[])

  lemma VersionIsRead(name: string, value: string)
    requires name == "VERSION" && value == "4.0"
    ensures ReadLine(name + ":" + value) == Ok((name, Occurrence(value, map[])))
  {
    hide Unescape, SplitOnce, SplitUnquoted;
    SplitOnceConcat(name, ':', value);
    UnescapeFixes(value);
    assert name == HeadText(name, [], map[]);
    PlainScan(name, ';');
    hide HeadText, ParseHead;
    ParseWrittenHead(name, [], map[]);
    assert ReadParams([], map[]) == map[];
  }

  lemma VersionLine(line: string)
    requires line == "VERSION:4.0"
    ensures ReadLine(line) == Ok(("VERSION", Version4))
  {
    hide ReadLine;
    VersionIsRead("VERSION", "4.0");
    assert "VERSION" + ":" + "4.0" == line;
  }

  lemma CleanLinesComeBack(lines: seq<string>)
    requires forall l :: l in lines ==> CleanLine(l)
    ensures Unfold(Wire(lines)) == lines
  {
    UnfoldWire(lines);
    UnfoldEachClean(lines);
  }

  lemma VersionedIs(contact: Contact)
    requires contact == Add(Blank, "VERSION", Version4)
    ensures contact == Contact(map[], map["VERSION" := [Version4]])
  {
    assert [] + [Version4] == [Version4];
  }

  /** The lines of a contact, its version first, are read as that contact. */
  lemma MiddleIsRead(fields: Fields, version: string)
    requires FieldsOk(fields) && version == "VERSION:4.0"
    ensures ParseFields([version] + AllLines(fields, SortedKeys(fields.Keys)), Blank)
         == Ok(Contact(fields, map["VERSION" := [Version4]]))
  {
    hide FieldOk, Add, ReadLine, AllLines, Keep;
    var names := SortedKeys(fields.Keys);
    var middle := AllLines(fields, names);
    var versioned := Add(Blank, "VERSION", Version4);
    VersionLine(version);
    VersionedIs(versioned);
    assert ([version] + middle)[1..] == middle;
    SortedDistinct(fields.Keys);
    FieldsAreRead(fields, names, versioned);
    KeepAll(fields, names);
  }

  lemma KeepAll(fields: Fields, names: seq<string>)
    requires forall n :: n in names <==> n in fields
    ensures map[] + Keep(fields, names) == fields
  {
  }

  lemma LinesAreClean(contact: Contact)
    requires FieldsOk(contact.fields)
    ensures forall l :: l in ContactLines(contact) ==> CleanLine(l)
  {
    hide FieldOk, AllLines;
    AllLinesClean(contact.fields, SortedKeys(contact.fields.Keys));
    EnvelopeIsClean("BEGIN:VCARD", "VERSION:4.0", "END:VCARD");
    hide CleanLine;
    WrappedLines(["BEGIN:VCARD", "VERSION:4.0"], AllLines(contact.fields, SortedKeys(contact.fields.Keys)), ["END:VCARD"]);
  }

  lemma EnvelopeIsClean(begin: string, version: string, end: string)
    requires begin == "BEGIN:VCARD" && version == "VERSION:4.0" && end == "END:VCARD"
    ensures CleanLine(begin) && CleanLine(version) && CleanLine(end)
  {
  }

  lemma WrappedLines(front: seq<string>, middle: seq<string>, back: seq<string>)
    ensures forall l :: l in front + middle + back <==> l in front || l in middle || l in back
  {
  }

  /** Writing a contact and reading it back gives its fields again, each with its occurrences in
      order, for every contact of the domain. */
  lemma VCardRoundTrip(contact: Contact)
    requires FieldsOk(contact.fields)
    ensures ParseVCard(SerializeVCard(contact)) == Ok(Contact(contact.fields, map["VERSION" := [Version4]]))
  {
    hide FieldsOk, AllLines, ParseFields, CleanLine;
    var lines, middle := ContactLines(contact), AllLines(contact.fields, SortedKeys(contact.fields.Keys));
    LinesAreClean(contact);
    CleanLinesComeBack(lines);
    MiddleIsRead(contact.fields, "VERSION:4.0");
    assert lines[1..|lines| - 1] == ["VERSION:4.0"] + middle;
  }
}
