/** The round trip of a calendar is exact: it is the identity on the trees of the domain and on no others. */
module ICalendarExact {
  import opened Wrappers
  import opened Text
  import opened PropertyText
  import opened ContentLines
  import opened ICalendar
  import opened ICalendarRoundTrip
  import opened ICalendarLines
  import opened ICalendarRange
  import opened ICalendarFolding
  import opened ICalendarHeads
  import opened ICalendarReturned

  // ----- the domain is enough ---------------------------------------------

  predicate InDomain(c: Component) {
    c.name == "VCALENDAR" && forall t :: t in Flatten(c) ==> TokenOk(t)
  }

  /** `Calendar::parse(serialize(c)) = c` on the domain, for trees of any depth. */
  lemma RoundTrip(c: Component)
    requires InDomain(c)
    ensures Parse(Serialize(c)) == Ok(c)
  {
    hide Parse, Serialize, TokenOk, LineReturns, Flatten;
    forall t | t in Flatten(c) ensures LineReturns(t) {
      GoodTokenReturns(t);
    }
    LinesReturnTogether(c);
  }

  // ----- the domain is needed ---------------------------------------------

  lemma UnescapeIsMeek()
    ensures Meek(Unescape)
  {
    forall s ensures Count(Unescape(s)) == Count(s) {
      CountUnescape(s);
    }
  }

  lemma LexedProperty(p: Property, line: string)
    requires Lex(line) == Ok(PropertyToken(p))
    ensures !Opens(line) && !Closes(line) && LexProperty(line) == Ok(p)
  {
  }

  lemma UnescapedGiveBack(p: Property, read: Params)
    requires UnescapeParams(read) == p.params
    ensures GivesBack(read, p.params, SortedKeys(p.params.Keys), Unescape)
  {
    hide Unescape;
    forall k | k in SortedKeys(p.params.Keys) ensures k in p.params && k in read && Rereads(read[k], p.params[k], Unescape) {
      assert k in UnescapeParams(read);
      forall i | 0 <= i < |read[k]| ensures Unescape(read[k][i]) == p.params[k][i] {
        UnescapeEachAt(read[k], i);
      }
    }
  }

  /** What a line says is what it gives back. */
  lemma LexedGives(p: Property, line: string)
    requires Lex(line) == Ok(PropertyToken(p))
    ensures GivesProperty(p, line, Unescape) && !Opens(line) && !Closes(line)
  {
    hide Lex, ParseHead, Unescape, SortedKeys, GivesBack, UnescapeParams, Opens, Closes;
    LexedProperty(p, line);
    var (left, value) := SplitOnce(line, ':').value;
    UnescapedGiveBack(p, ParseHead(left).value.1);
  }

  lemma BareHead(name: string, params: Params)
    requires params == map[]
    ensures HeadText(name, SortedKeys(params.Keys), params) == name
  {
    assert SortedKeys(params.Keys) == [] && [name] + [] == [name];
  }

  lemma NoBoundary(p: Property, line: string)
    requires SplitOnce(line, ':').Some? && !Opens(line) && !Closes(line)
    requires SplitOnce(line, ':').value.0 == HeadText(p.name, SortedKeys(p.params.Keys), FoldedParams(p.params))
    ensures p.params == map[] ==> p.name != "BEGIN" && p.name != "END"
  {
    if p.params == map[] {
      assert FoldedParams(p.params) == map[];
      BareHead(p.name, map[]);
      SplitOnceParts(line, ':');
      assert p.name + ":" <= line;
      assert "BEGIN" + ":" == "BEGIN:" && "END" + ":" == "END:";
    }
  }

  lemma EscapeFreeValues(params: Params)
    requires ParamsOk(params) && forall k, v :: k in params && v in params[k] ==> Unescape(v) == v
    ensures forall k :: k in params ==> ParamOk(k, params[k])
  {
    hide Unescape, ParamTextsOk, EscapeFree;
    forall k | k in params ensures ParamOk(k, params[k]) {
      forall v | v in params[k] ensures EscapeFree(v) {
        UnescapeFixes(v);
      }
    }
  }

  /** A property that its own line says again belongs to the domain. */
  lemma PropertyReturned(p: Property)
    requires ReadProperty(p) && LineReturns(PropertyToken(p))
    ensures PropertyOk(p)
  {
    hide ReadProperty, PropertyLine, Lex, Fold, HeadText, SortedKeys, Unescape, ParamOk, ValueOk, NameOk, ParamsOk,
         ParseHead, GivesBack, Meek, Opens, Closes;
    FirstIsFold(PropertyLine(p));
    var line := Fold(PropertyLine(p), false);
    LexedGives(p, line);
    UnescapeIsMeek();
    LineReturned(p, line, Unescape);
    NoBoundary(p, line);
    EscapeFreeValues(p.params);
  }

  // ----- the whole calendar -----------------------------------------------

  lemma {:induction false} EveryTokenRead(lines: seq<string>, tokens: seq<Token>)
    requires LexesTo(lines, tokens) && AreLines(lines)
    requires tokens != [] && !tokens[0].PropertyToken?
    ensures forall t :: t in tokens ==> ReadToken(t)
  {
    hide Lex, ReadToken;
    forall t | t in tokens ensures ReadToken(t) {
      var i :| 0 <= i < |tokens| && tokens[i] == t;
      assert lines[i] in lines;
      LexFacts(lines[i], t);
    }
  }

  /** A calendar that is read from any text at all consists of readable tokens. */
  lemma AcceptedTokens(input: string, c: Component)
    requires Parse(input) == Ok(c)
    ensures c.name == "VCALENDAR" && forall t :: t in Flatten(c) ==> ReadToken(t)
  {
    hide Unfold, ReadToken, AreLines;
    var lines := Unfold(input);
    UnfoldedAreLines(input);
    var tokens := AcceptedLinesLex(lines, Start);
    ParseIsRun(lines, tokens, Start);
    RunAccepts(tokens, c);
    assert tokens[0] == BeginToken(c.name);
    EveryTokenRead(lines, tokens);
  }

  /** A readable token is written on a line that starts a content line. */
  lemma ReadStarts(token: Token)
    requires ReadToken(token)
    ensures StartsLine(LineText(token))
  {
    hide PropertyLine, ReadProperty;
    if token.PropertyToken? {
      ReadPropertyStarts(token.property);
    }
  }

  lemma TokenReturned(token: Token)
    requires ReadToken(token) && LineReturns(token)
    ensures TokenOk(token)
  {
    hide PropertyOk, ReadProperty, LineReturns;
    if token.PropertyToken? {
      PropertyReturned(token.property);
    }
  }

  lemma ReturnedTree(c: Component)
    requires Parse(Serialize(c)) == Ok(c)
    ensures forall t :: t in Flatten(c) ==> ReadToken(t) && LineReturns(t)
    ensures c.name == "VCALENDAR"
  {
    hide Parse, Serialize, Flatten, ReadToken, LineReturns, StartsLine;
    AcceptedTokens(Serialize(c), c);
    var tokens := Flatten(c);
    var lines := LineTexts(tokens);
    forall l | l in lines ensures StartsLine(l) {
      var i :| 0 <= i < |lines| && lines[i] == l;
      LineTextsAt(tokens, i);
      ReadStarts(tokens[i]);
    }
    forall t | t in tokens ensures LineReturns(t) {
      LinesReturnSingly(c, t);
    }
  }

  /** The round trip holds exactly on the domain. */
  lemma RoundTripExactly(c: Component)
    ensures Parse(Serialize(c)) == Ok(c) <==> InDomain(c)
  {
    hide Parse, Serialize, Flatten, ReadToken, LineReturns, TokenOk;
    if InDomain(c) {
      RoundTrip(c);
    }
    if Parse(Serialize(c)) == Ok(c) {
      ReturnedTree(c);
      forall t | t in Flatten(c) ensures TokenOk(t) {
        TokenReturned(t);
      }
    }
  }
}
