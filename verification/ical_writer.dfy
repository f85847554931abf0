/** The writers, which append to one string, against the texts that the round trips speak of. */
module ICalendarWriter {
  import opened Wrappers
  import opened Text
  import opened PropertyText
  import opened ContentLines
  import opened ICalendar
  import V = VCard

  lemma {:induction false} JoinAppend(parts: seq<string>, last: string, separator: string)
    requires parts != []
    ensures Join(parts + [last], separator) == Join(parts, separator) + separator + last
  {
    if |parts| == 1 {
      assert parts + [last] == [parts[0], last] && [parts[0], last][1..] == [last];
    } else {
      assert (parts + [last])[1..] == parts[1..] + [last] && (parts + [last])[0] == parts[0];
      JoinAppend(parts[1..], last, separator);
      var tail := Join(parts[1..], separator);
      ConcatAssociates(parts[0] + separator, tail, separator);
      ConcatAssociates(parts[0] + separator, tail + separator, last);
    }
  }

  /** The written parameter values, joined by commas. */
  method WriteValues(values: seq<string>) returns (text: string)
    ensures text == Join(SerializeEach(values), ",")
  {
    var parts: seq<string> := [];
    for k := 0 to |values|
      invariant parts + SerializeEach(values[k..]) == SerializeEach(values)
    {
      assert values[k..][0] == values[k] && values[k..][1..] == values[k + 1..];
      ConcatAssociates(parts, [SerializeParameterValue(values[k])], SerializeEach(values[k + 1..]));
      parts := parts + [SerializeParameterValue(values[k])];
    }
    assert values[|values|..] == [] && parts + [] == parts;
    return Join(parts, ",");
  }

  lemma HeadGrows(name: string, keys: seq<string>, texts: Params, k: nat)
    requires k < |keys| && forall key :: key in keys ==> key in texts
    ensures forall key :: key in keys[..k + 1] ==> key in keys
    ensures HeadText(name, keys[..k + 1], texts) == HeadText(name, keys[..k], texts) + ";" + ParamText(keys[k], texts[keys[k]])
  {
    assert forall key :: key in keys[..k + 1] ==> key in keys;
    assert forall key :: key in keys[..k] ==> key in keys;
    var before, after := ParamTexts(keys[..k], texts), ParamTexts(keys[..k + 1], texts);
    assert after == before + [ParamText(keys[k], texts[keys[k]])];
    ConcatAssociates([name], before, [ParamText(keys[k], texts[keys[k]])]);
    JoinAppend([name] + before, ParamText(keys[k], texts[keys[k]]), ";");
  }

  lemma HeadStarts(name: string, texts: Params)
    ensures HeadText(name, [], texts) == name
  {
    assert [name] + [] == [name];
  }

  /** One parameter behind what was written so far. */
  method WriteParam(output: string, key: string, values: seq<string>) returns (longer: string)
    ensures longer == output + ";" + ParamText(key, SerializeEach(values))
  {
    var text := WriteValues(values);
    longer := output + ";" + key + "=" + text;
    assert longer == output + ";" + (key + "=" + text);
  }

  /** A property's name and parameters. */
  method WriteHead(name: string, params: Params) returns (head: string)
    ensures head == HeadText(name, SortedKeys(params.Keys), SerializeParams(params))
  {
    hide HeadText;
    var keys := SortedKeys(params.Keys);
    ghost var texts := SerializeParams(params);
    head := name;
    HeadStarts(name, texts);
    for k := 0 to |keys|
      invariant forall key :: key in keys[..k] ==> key in texts
      invariant head == HeadText(name, keys[..k], texts)
    {
      assert keys[k] in keys;
      HeadGrows(name, keys, texts, k);
      head := WriteParam(head, keys[k], params[keys[k]]);
    }
    assert keys[..|keys|] == keys;
  }

  /** One property line behind what was written so far. */
  method WriteProperty(output: string, p: Property) returns (longer: string)
    ensures longer == output + (PropertyLine(p) + "\r\n")
  {
    hide HeadText, SerializePropertyValue, SerializeParams;
    var head := WriteHead(p.name, p.params);
    longer := output + head + ":" + SerializePropertyValue(p.name, p.value) + "\r\n";
    PiecesAssociate(output, head, SerializePropertyValue(p.name, p.value));
  }

  lemma PiecesAssociate(output: string, head: string, value: string)
    ensures output + head + ":" + value + "\r\n" == output + (head + ":" + value + "\r\n")
  {
    ConcatAssociates(output, head, ":");
    ConcatAssociates(output, head + ":", value);
    ConcatAssociates(output, head + ":" + value, "\r\n");
  }

  /** A component and everything in it behind what was written so far. */
  method WriteComponent(output: string, c: Component) returns (longer: string)
    ensures longer == output + ComponentText(c)
    decreases c, 1
  {
    var open := "BEGIN:" + c.name + "\r\n";
    longer := WriteEntries(output + open, c.entries);
    ConcatAssociates(output, open, EntriesText(c.entries));
    var close := "END:" + c.name + "\r\n";
    ConcatAssociates(output, open + EntriesText(c.entries), close);
    ComponentTextParts(c);
    longer := longer + close;
  }

  lemma ComponentTextParts(c: Component)
    ensures ComponentText(c) == ("BEGIN:" + c.name + "\r\n") + EntriesText(c.entries) + ("END:" + c.name + "\r\n")
  {
    var body := "BEGIN:" + c.name + "\r\n" + EntriesText(c.entries);
    ConcatAssociates(body, "END:", c.name);
    ConcatAssociates(body, "END:" + c.name, "\r\n");
  }

  lemma EntriesStep(output: string, entries: seq<Entry>, k: nat)
    requires k < |entries|
    ensures output + EntriesText(entries[k..]) == output + EntryText(entries[k]) + EntriesText(entries[k + 1..])
  {
    assert entries[k..][0] == entries[k] && entries[k..][1..] == entries[k + 1..];
    ConcatAssociates(output, EntryText(entries[k]), EntriesText(entries[k + 1..]));
  }

  method WriteEntries(output: string, entries: seq<Entry>) returns (longer: string)
    ensures longer == output + EntriesText(entries)
    decreases entries, 0
  {
    longer := output;
    ghost var whole := output + EntriesText(entries);
    assert entries[0..] == entries;
    for k := 0 to |entries|
      invariant longer + EntriesText(entries[k..]) == whole
    {
      EntriesStep(longer, entries, k);
      longer := WriteEntry(longer, entries[k]);
    }
    assert entries[|entries|..] == [] && longer + "" == longer;
  }

  method WriteEntry(output: string, entry: Entry) returns (longer: string)
    ensures longer == output + EntryText(entry)
    decreases entry, 0
  {
    match entry
    case PropertyEntry(property) => longer := WriteProperty(output, property);
    case ComponentEntry(component) => longer := WriteComponent(output, component);
  }

  /** A whole calendar. */
  method WriteCalendar(c: Component) returns (text: string)
    ensures text == Serialize(c)
  {
    text := WriteComponent("", c);
    assert "" + ComponentText(c) == ComponentText(c);
  }

  // ----- vCards -----------------------------------------------------------

  lemma WireStep(output: string, line: string, rest: seq<string>)
    ensures output + Wire([line] + rest) == output + (line + "\r\n") + Wire(rest)
  {
    assert ([line] + rest)[1..] == rest;
    ConcatAssociates(output, line + "\r\n", Wire(rest));
  }

  method WriteField(output: string, name: string, occurrences: seq<V.Occurrence>) returns (longer: string)
    ensures longer == output + Wire(V.FieldLines(name, occurrences))
  {
    longer := output;
    ghost var whole := output + Wire(V.FieldLines(name, occurrences));
    for k := 0 to |occurrences|
      invariant longer + Wire(V.FieldLines(name, occurrences[k..])) == whole
    {
      assert occurrences[k..][0] == occurrences[k] && occurrences[k..][1..] == occurrences[k + 1..];
      WireStep(longer, V.Line(name, occurrences[k]), V.FieldLines(name, occurrences[k + 1..]));
      longer := WriteProperty(longer, Property(name, occurrences[k].params, occurrences[k].value));
    }
    assert occurrences[|occurrences|..] == [] && longer + "" == longer;
  }

  lemma ContactStep(output: string, fields: V.Fields, names: seq<string>, k: nat)
    requires k < |names| && forall n :: n in names[k..] ==> n in fields
    ensures forall n :: n in names[k + 1..] ==> n in names[k..]
    ensures names[k] in fields
    ensures output + Wire(V.AllLines(fields, names[k..]))
         == output + Wire(V.FieldLines(names[k], fields[names[k]])) + Wire(V.AllLines(fields, names[k + 1..]))
  {
    var rest := names[k + 1..];
    assert names[k..][0] == names[k] && names[k..][1..] == rest;
    var lines := V.FieldLines(names[k], fields[names[k]]);
    WireConcat(lines, V.AllLines(fields, rest));
    ConcatAssociates(output, Wire(lines), Wire(V.AllLines(fields, rest)));
  }

  lemma ContactEnds(opening: string, closing: string)
    requires opening == "BEGIN:VCARD\r\nVERSION:4.0\r\n" && closing == "END:VCARD\r\n"
    ensures Wire(["BEGIN:VCARD", "VERSION:4.0"]) == opening && Wire(["END:VCARD"]) == closing
  {
    FrontWire("BEGIN:VCARD", "VERSION:4.0");
    LastWire("END:VCARD");
  }

  lemma ContactText(contact: V.Contact, opening: string, closing: string)
    requires Wire(["BEGIN:VCARD", "VERSION:4.0"]) == opening && Wire(["END:VCARD"]) == closing
    ensures V.SerializeVCard(contact)
         == opening + Wire(V.AllLines(contact.fields, SortedKeys(contact.fields.Keys))) + closing
  {
    hide Wire, V.AllLines;
    var front, middle := ["BEGIN:VCARD", "VERSION:4.0"], V.AllLines(contact.fields, SortedKeys(contact.fields.Keys));
    WireConcat(front, middle);
    WireConcat(front + middle, ["END:VCARD"]);
  }

  /** A whole contact. */
  method WriteContact(contact: V.Contact) returns (text: string)
    ensures text == V.SerializeVCard(contact)
  {
    hide Wire, V.SerializeVCard, V.AllLines;
    var names := SortedKeys(contact.fields.Keys);
    var opening, closing := "BEGIN:VCARD\r\nVERSION:4.0\r\n", "END:VCARD\r\n";
    ContactEnds(opening, closing);
    ContactText(contact, opening, closing);
    text := WriteFields(opening, contact.fields, names);
    text := text + closing;
  }

  method WriteFields(output: string, fields: V.Fields, names: seq<string>) returns (longer: string)
    requires forall n :: n in names ==> n in fields
    ensures longer == output + Wire(V.AllLines(fields, names))
  {
    longer := output;
    assert names[0..] == names;
    ghost var whole := output + Wire(V.AllLines(fields, names));
    for k := 0 to |names|
      invariant forall n :: n in names[k..] ==> n in fields
      invariant longer + Wire(V.AllLines(fields, names[k..])) == whole
    {
      ContactStep(longer, fields, names, k);
      longer := WriteField(longer, names[k], fields[names[k]]);
    }
    assert names[|names|..] == [] && longer + "" == longer;
  }

  lemma FrontWire(a: string, b: string)
    ensures Wire([a, b]) == a + "\r\n" + b + "\r\n"
  {
    assert [a, b][1..] == [b];
    LastWire(b);
    assert a + "\r\n" + (b + "\r\n") == a + "\r\n" + b + "\r\n";
  }

  lemma LastWire(a: string)
    ensures Wire([a]) == a + "\r\n"
  {
    assert [a][1..] == [] && a + "\r\n" + "" == a + "\r\n";
  }
}
