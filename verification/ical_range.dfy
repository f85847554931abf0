/** What the parser can produce: the facts that hold of every token read from a content line. */
module ICalendarRange {
  import opened Wrappers
  import opened Text
  import opened PropertyText
  import opened ContentLines
  import opened ICalendar
  import opened ICalendarLines

  // ----- characters only come from the input ------------------------------

  predicate From(s: string, source: string) {
    forall c :: c in s ==> c in source
  }

  lemma {:induction false} DecodeFrom(s: string)
    ensures From(DecodeQuoted(s), s)
    decreases |s|
  {
    if s == [] {
    } else if s[0] == '\\' && |s| > 1 {
      DecodeFrom(s[2..]);
      assert s[1] in s && forall c :: c in s[2..] ==> c in s;
    } else if s[0] != '\\' {
      DecodeFrom(s[1..]);
      assert s[0] in s && forall c :: c in s[1..] ==> c in s;
    } else {
      assert s[0] in s;
    }
  }

  lemma UnquoteFrom(s: string)
    ensures From(Unquote(s), s)
  {
    var value := Trim(s);
    TrimIsSlice(s);
    if |value| >= 2 && value[0] == '"' && value[|value| - 1] == '"' {
      var inner := value[1..|value| - 1];
      DecodeFrom(inner);
      assert From(inner, value);
    }
  }

  lemma {:induction false} UnescapeFrom(s: string)
    ensures forall c :: c in Unescape(s) ==> c in s || c == '\n'
    ensures s != "" ==> Unescape(s) != ""
    decreases |s|
  {
    if s == [] {
    } else if s[0] == '\\' && |s| > 1 {
      UnescapeFrom(s[2..]);
      assert s[1] in s && forall c :: c in s[2..] ==> c in s;
    } else if s[0] != '\\' {
      UnescapeFrom(s[1..]);
      assert s[0] in s && forall c :: c in s[1..] ==> c in s;
    } else {
      assert s[0] in s;
    }
  }

  predicate IsLetter(c: char) {
    'a' <= c <= 'z' || 'A' <= c <= 'Z'
  }

  lemma UpperFrom(s: string)
    ensures forall c :: c in Upper(s) && !IsLetter(c) ==> c in s
    ensures IsUpper(Upper(s))
  {
    UpperOfUpper(s);
    forall c | c in Upper(s) && !IsLetter(c) ensures c in s {
      var i :| 0 <= i < |s| && Upper(s)[i] == c;
      assert UpperChar(s[i]) == c && s[i] in s;
    }
  }

  lemma UpperLacks(s: string, chars: set<char>)
    requires Lacks(s, chars) && forall c :: c in chars ==> !IsLetter(c)
    ensures Lacks(Upper(s), chars)
  {
    UpperFrom(s);
  }

  lemma {:induction false} PiecesFrom(s: string, delimiter: char, st: Scan, current: string)
    requires SplitFrom(s, delimiter, st, current).Some?
    ensures forall p :: p in SplitFrom(s, delimiter, st, current).value ==> From(p, current + s)
  {
    if s != [] {
      assert s == [s[0]] + s[1..];
      if Cuts(st, s[0], delimiter) {
        PiecesFrom(s[1..], delimiter, st, "");
        assert From("" + s[1..], current + s);
      } else {
        PiecesFrom(s[1..], delimiter, Step(st, s[0]), current + [s[0]]);
        assert current + [s[0]] + s[1..] == current + s;
      }
    }
  }

  lemma SplitFacts(s: string, delimiter: char)
    requires SplitUnquoted(s, delimiter).Some? && delimiter != '"'
    ensures forall p :: p in SplitUnquoted(s, delimiter).value ==> From(p, s)
    ensures SplitUnquoted(s, delimiter).value[0] <= s
  {
    PiecesFrom(s, delimiter, Outside, "");
    assert "" + s == s;
    FirstPiece(s, delimiter);
  }

  // ----- parameters -------------------------------------------------------

  predicate ReadValues(values: seq<string>) {
    values != [] && forall v :: v in values ==> v != "" && '\r' !in v
  }

  predicate ReadParamsOk(params: Params) {
    forall k :: k in params ==> KeyOk(k) && ReadValues(params[k])
  }

  lemma ParamFacts(piece: string)
    requires ParseParam(piece).Ok? && Lacks(piece, LineBreakers)
    ensures KeyOk(ParseParam(piece).value.0) && ReadValues(ParseParam(piece).value.1)
  {
    SplitOnceParts(piece, '=');
    var (key, raw) := SplitOnce(piece, '=').value;
    var texts := SplitUnquoted(raw, ',').value;
    KeyFacts(piece, key, raw);
    SplitFacts(raw, ',');
    assert From(raw, piece) by { assert forall c :: c in raw ==> c in piece; }
    ValuesFacts(texts, piece);
  }

  lemma KeyFacts(piece: string, key: string, raw: string)
    requires piece == key + ['='] + raw && '=' !in key && key != "" && Lacks(piece, LineBreakers)
    ensures KeyOk(Upper(key))
  {
    assert forall c :: c in key ==> c in piece;
    UpperLacks(key, {':', '=', '\r', '\n'});
    UpperFrom(key);
  }

  lemma ValuesFacts(texts: seq<string>, piece: string)
    requires texts != [] && "" !in UnquoteAll(texts) && '\r' !in piece
    requires forall t :: t in texts ==> From(t, piece)
    ensures ReadValues(UnquoteAll(texts))
  {
    var values := UnquoteAll(texts);
    forall v | v in values ensures '\r' !in v {
      var i :| 0 <= i < |values| && values[i] == v;
      UnquoteAllAt(texts, i);
      UnquoteFrom(texts[i]);
      assert texts[i] in texts;
    }
  }

  lemma ExtendFacts(params: Params, key: string, values: seq<string>)
    requires ReadParamsOk(params) && KeyOk(key) && ReadValues(values)
    ensures ReadParamsOk(Extend(params, key, values))
  {
    var before := if key in params then params[key] else [];
    assert ReadValues(before + values) by {
      assert forall v :: v in before ==> v != "" && '\r' !in v;
    }
  }

  lemma {:induction false} ParamsFacts(pieces: seq<string>, params: Params)
    requires ParseParams(pieces, params).Ok? && ReadParamsOk(params)
    requires forall p :: p in pieces ==> Lacks(p, LineBreakers)
    ensures ReadParamsOk(ParseParams(pieces, params).value)
  {
    if pieces != [] {
      assert pieces[0] in pieces && forall p :: p in pieces[1..] ==> p in pieces;
      ParamFacts(pieces[0]);
      var (key, values) := ParseParam(pieces[0]).value;
      ExtendFacts(params, key, values);
      ParamsFacts(pieces[1..], Extend(params, key, values));
    }
  }

  lemma HeadFacts(left: string)
    requires ParseHead(left).Ok? && Lacks(left, LineBreakers)
    ensures var (name, params) := ParseHead(left).value;
            name != "" && IsUpper(name) && Lacks(name, LineBreakers) &&
            left != "" && name[0] == UpperChar(left[0]) && ReadParamsOk(params)
  {
    var pieces := SplitUnquoted(left, ';').value;
    SplitFacts(left, ';');
    assert pieces[0] in pieces && forall p :: p in pieces[1..] ==> p in pieces;
    UpperLacks(pieces[0], LineBreakers);
    UpperFrom(pieces[0]);
    ParamsFacts(pieces[1..], map[]);
  }

  // ----- tokens -----------------------------------------------------------

  predicate ReadProperty(p: Property) {
    p.name != "" && IsUpper(p.name) && Lacks(p.name, LineBreakers) &&
    !IsBlank(p.name[0]) && ReadParamsOk(p.params) && '\r' !in p.value
  }

  predicate ReadToken(token: Token) {
    match token
    case BeginToken(name) => ComponentNameOk(name)
    case EndToken(name) => ComponentNameOk(name)
    case PropertyToken(property) => ReadProperty(property)
  }

  lemma UnescapedValues(values: seq<string>)
    requires ReadValues(values)
    ensures ReadValues(UnescapeEach(values))
  {
    forall v | v in UnescapeEach(values) ensures v != "" && '\r' !in v {
      var i :| 0 <= i < |values| && UnescapeEach(values)[i] == v;
      UnescapeEachAt(values, i);
      UnescapeFrom(values[i]);
      assert values[i] in values;
    }
  }

  lemma PropertyFacts(line: string)
    requires LexProperty(line).Ok? && Lacks(line, {'\r', '\n'}) && line != "" && !IsBlank(line[0])
    ensures ReadProperty(LexProperty(line).value)
  {
    SplitOnceParts(line, ':');
    var (left, value) := SplitOnce(line, ':').value;
    assert forall c :: c in left ==> c in line;
    assert forall c :: c in value ==> c in line;
    HeadFacts(left);
    assert line[0] == left[0];
    UnescapeFrom(value);
    var (name, params) := ParseHead(left).value;
    forall k | k in params ensures ReadValues(UnescapeEach(params[k])) {
      UnescapedValues(params[k]);
    }
  }

  lemma ComponentNameFacts(value: string)
    requires ComponentName(value).Ok? && Lacks(value, {'\r', '\n'})
    ensures ComponentNameOk(ComponentName(value).value)
  {
    UpperLacks(value, {':', ';', '\r', '\n'});
    UpperFrom(value);
  }

  /** Whatever a content line says, its token has these facts. */
  lemma LexFacts(line: string, token: Token)
    requires Lex(line) == Ok(token) && Lacks(line, {'\r', '\n'}) && line != ""
    requires IsBlank(line[0]) ==> !token.PropertyToken?
    ensures ReadToken(token)
  {
    assert forall n :: 0 <= n <= |line| ==> forall c :: c in line[n..] ==> c in line;
    if Opens(line) {
      ComponentNameFacts(line[6..]);
    } else if Closes(line) {
      ComponentNameFacts(line[4..]);
    } else {
      PropertyFacts(line);
    }
  }
}
