/** Writing a calendar and parsing it back: the exact trees for which this is the identity. */
module ICalendarRoundTrip {
  import opened Wrappers
  import opened Text
  import opened PropertyText
  import opened ContentLines
  import opened ICalendar

  // ----- the writer, line by line -----------------------------------------

  function LineText(token: Token): string {
    match token
    case BeginToken(name) => "BEGIN:" + name
    case EndToken(name) => "END:" + name
    case PropertyToken(property) => PropertyLine(property)
  }

  function LineTexts(tokens: seq<Token>): (lines: seq<string>)
    ensures |lines| == |tokens|
  {
    if tokens == [] then [] else [LineText(tokens[0])] + LineTexts(tokens[1..])
  }

  lemma {:induction false} LineTextsAt(tokens: seq<Token>, i: nat)
    requires i < |tokens|
    ensures LineTexts(tokens)[i] == LineText(tokens[i])
  {
    if i > 0 {
      LineTextsAt(tokens[1..], i - 1);
    }
  }

  lemma {:induction false} LineTextsConcat(a: seq<Token>, b: seq<Token>)
    ensures LineTexts(a + b) == LineTexts(a) + LineTexts(b)
  {
    if a == [] {
      assert a + b == b;
    } else {
      assert (a + b)[1..] == a[1..] + b;
      LineTextsConcat(a[1..], b);
      ConcatAssociates([LineText(a[0])], LineTexts(a[1..]), LineTexts(b));
    }
  }

  function TokensWire(tokens: seq<Token>): string {
    Wire(LineTexts(tokens))
  }

  lemma TokensWireConcat(a: seq<Token>, b: seq<Token>)
    ensures TokensWire(a + b) == TokensWire(a) + TokensWire(b)
  {
    LineTextsConcat(a, b);
    WireConcat(LineTexts(a), LineTexts(b));
  }

  lemma TokensWireOne(token: Token)
    ensures TokensWire([token]) == LineText(token) + "\r\n"
  {
    var line := LineText(token);
    assert [token][1..] == [] && LineTexts([token]) == [line] + LineTexts([]);
    assert [line] + [] == [line] && [line][1..] == [];
    assert Wire([line]) == line + "\r\n" + Wire([]);
    assert line + "\r\n" + "" == line + "\r\n";
  }

  /** The written text is the tree's lines, each with its line end. */
  lemma {:induction false} ComponentWire(c: Component)
    ensures ComponentText(c) == TokensWire(Flatten(c))
    decreases c, 1
  {
    var open, inner, close := [BeginToken(c.name)], FlattenEntries(c.entries), [EndToken(c.name)];
    EntriesWire(c.entries);
    TokensWireConcat(open + inner, close);
    TokensWireConcat(open, inner);
    TokensWireOne(BeginToken(c.name));
    TokensWireOne(EndToken(c.name));
    var body := "BEGIN:" + c.name + "\r\n" + EntriesText(c.entries);
    ConcatAssociates(body, "END:", c.name);
    ConcatAssociates(body, "END:" + c.name, "\r\n");
  }

  lemma {:induction false} EntriesWire(entries: seq<Entry>)
    ensures EntriesText(entries) == TokensWire(FlattenEntries(entries))
    decreases entries, 0
  {
    if entries != [] {
      EntryWire(entries[0]);
      EntriesWire(entries[1..]);
      TokensWireConcat(FlattenEntry(entries[0]), FlattenEntries(entries[1..]));
    }
  }

  lemma {:induction false} EntryWire(entry: Entry)
    ensures EntryText(entry) == TokensWire(FlattenEntry(entry))
    decreases entry, 0
  {
    match entry
    case PropertyEntry(property) => TokensWireOne(PropertyToken(property));
    case ComponentEntry(component) => ComponentWire(component);
  }

  // ----- the parser, line by line -----------------------------------------

  predicate LexesTo(lines: seq<string>, tokens: seq<Token>) {
    |lines| == |tokens| && forall i :: 0 <= i < |lines| ==> Lex(lines[i]) == Ok(tokens[i])
  }

  lemma {:induction false} ParseIsRun(lines: seq<string>, tokens: seq<Token>, s: State)
    requires LexesTo(lines, tokens)
    ensures ParseLines(lines, s) == Run(tokens, s)
  {
    if lines != [] {
      assert Lex(lines[0]) == Ok(tokens[0]);
      assert StepLine(s, lines[0]) == StepToken(s, tokens[0]);
      if StepToken(s, tokens[0]).Ok? {
        ParseIsRun(lines[1..], tokens[1..], StepToken(s, tokens[0]).value);
      }
    }
  }

  lemma {:induction false} AcceptedLinesLex(lines: seq<string>, s: State) returns (tokens: seq<Token>)
    requires ParseLines(lines, s).Ok?
    ensures LexesTo(lines, tokens)
  {
    hide Lex, StepLine, LexesTo;
    if lines == [] {
      tokens := [];
      NothingLexes();
    } else {
      var rest := AcceptedLinesLex(lines[1..], StepLine(s, lines[0]).value);
      AcceptedLineLexes(lines[0], s);
      tokens := [Lex(lines[0]).value] + rest;
      LexesMore(lines, tokens);
    }
  }

  lemma AcceptedLineLexes(line: string, s: State)
    requires StepLine(s, line).Ok?
    ensures Lex(line).Ok?
  {
    hide Lex;
  }

  lemma NothingLexes()
    ensures LexesTo([], [])
  {
  }

  lemma LexesMore(lines: seq<string>, tokens: seq<Token>)
    requires lines != [] && tokens != [] && Lex(lines[0]) == Ok(tokens[0]) && LexesTo(lines[1..], tokens[1..])
    ensures LexesTo(lines, tokens)
  {
    hide Lex;
    forall i | 0 <= i < |lines| ensures Lex(lines[i]) == Ok(tokens[i]) {
      if i > 0 {
        assert lines[i] == lines[1..][i - 1] && tokens[i] == tokens[1..][i - 1];
      }
    }
  }

  /** Parsing the written text gives the tree back exactly when each of its lines, unfolded by
      itself, says again what it was written for. */
  predicate LineReturns(token: Token) {
    StartsLine(LineText(token)) && |UnfoldOne(LineText(token))| == 1 && Lex(UnfoldOne(LineText(token))[0]) == Ok(token)
  }

  lemma {:induction false} LinesReturnTogether(c: Component)
    requires c.name == "VCALENDAR" && forall t :: t in Flatten(c) ==> LineReturns(t)
    ensures Parse(Serialize(c)) == Ok(c)
  {
    var tokens := Flatten(c);
    var lines := LineTexts(tokens);
    ComponentWire(c);
    forall l | l in lines ensures StartsLine(l) {
      var i :| 0 <= i < |lines| && lines[i] == l;
      LineTextsAt(tokens, i);
      assert LineReturns(tokens[i]);
    }
    UnfoldWire(lines);
    LinesReturn(tokens);
    ParseIsRun(UnfoldEach(lines), tokens, Start);
    RunFlattened(c);
  }

  lemma {:induction false} LinesReturn(tokens: seq<Token>)
    requires forall t :: t in tokens ==> LineReturns(t)
    ensures LexesTo(UnfoldEach(LineTexts(tokens)), tokens)
  {
    if tokens != [] {
      hide Lex, UnfoldOne, LineText, StartsLine, LexesTo;
      assert LineReturns(tokens[0]) && forall t :: t in tokens[1..] ==> t in tokens;
      LinesReturn(tokens[1..]);
      var first, rest := UnfoldOne(LineText(tokens[0])), UnfoldEach(LineTexts(tokens[1..]));
      assert UnfoldEach(LineTexts(tokens)) == first + rest;
      assert (first + rest)[1..] == rest;
      LexesMore(first + rest, tokens);
    } else {
      NothingLexes();
    }
  }

  /** The other direction, once every written line is known to start a content line. */
  lemma {:induction false} LinesReturnSingly(c: Component, t: Token)
    requires Parse(Serialize(c)) == Ok(c)
    requires forall l :: l in LineTexts(Flatten(c)) ==> StartsLine(l)
    requires t in Flatten(c)
    ensures LineReturns(t)
  {
    var lines := LineTexts(Flatten(c));
    ComponentWire(c);
    UnfoldWire(lines);
    var tokens := AcceptedLinesLex(UnfoldEach(lines), Start);
    ParseIsRun(UnfoldEach(lines), tokens, Start);
    RunAccepts(tokens, c);
    UnfoldEachCount(lines);
    var i :| 0 <= i < |tokens| && tokens[i] == t;
    LineTextsAt(tokens, i);
    assert lines[i] in lines;
  }
}
