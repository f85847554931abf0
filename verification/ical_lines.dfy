/** One written line at a time: exactly which properties a content line can carry. */
module ICalendarLines {
  import opened Wrappers
  import opened Text
  import opened PropertyText
  import opened ContentLines
  import opened ICalendar
  import opened ICalendarRoundTrip

  // ----- the domain -------------------------------------------------------

  const LineBreakers: set<char> := {':', '\r', '\n'}

  predicate Lacks(s: string, chars: set<char>) {
    forall c :: c in s ==> c !in chars
  }

  predicate ComponentNameOk(name: string) {
    name != "" && IsUpper(name) && Lacks(name, {':', ';', '\r', '\n'})
  }

  /** Quotes in a name must be closed in it, and hide every semicolon of it. */
  predicate NameOk(name: string) {
    name != "" && IsUpper(name) && Lacks(name, LineBreakers) && Balanced(name, ';') && !IsBlank(name[0])
  }

  predicate KeyOk(key: string) {
    key != "" && IsUpper(key) && Lacks(key, {':', '=', '\r', '\n'})
  }

  /** A parameter value is read back when the line cannot be cut in it, and trimming leaves it alone
      or quotes keep trimming away from it. */
  predicate ParamTextOk(v: string) {
    v != "" && Lacks(v, {':', '\r', '\n'}) && (NeedsQuotes(v) || Trim(v) == v)
  }

  /** Quotes in a key must not open or close those of the values. */
  predicate ParamTextsOk(key: string, values: seq<string>) {
    KeyOk(key) && values != [] && (forall v :: v in values ==> ParamTextOk(v)) &&
    Balanced(ParamText(key, SerializeEach(values)), ';')
  }

  /** Keys without quotes need only lack semicolons. */
  lemma PlainKeyOk(key: string, values: seq<string>)
    requires KeyOk(key) && Lacks(key, {'"', ';'}) && values != [] && forall v :: v in values ==> ParamTextOk(v)
    ensures ParamTextsOk(key, values)
  {
    ParamTextsReadable(values);
    ParamBalanced(key, SerializeEach(values), ';');
  }

  /** A calendar's parameter values are unescaped a second time, which has to leave them alone. */
  predicate ParamOk(key: string, values: seq<string>) {
    ParamTextsOk(key, values) && forall v :: v in values ==> EscapeFree(v)
  }

  predicate ValueOk(name: string, value: string) {
    '\r' !in value && (name in RawNames ==> '\n' !in value && EscapeFree(value))
  }

  predicate PropertyOk(p: Property) {
    NameOk(p.name) && (p.params == map[] ==> p.name != "BEGIN" && p.name != "END") &&
    (forall k :: k in p.params ==> ParamOk(k, p.params[k])) && ValueOk(p.name, p.value)
  }

  predicate TokenOk(token: Token) {
    match token
    case BeginToken(name) => ComponentNameOk(name)
    case EndToken(name) => ComponentNameOk(name)
    case PropertyToken(property) => PropertyOk(property)
  }

  // ----- written values ---------------------------------------------------

  lemma {:induction false} JoinLacks(parts: seq<string>, separator: string, chars: set<char>)
    requires Lacks(separator, chars) && forall p :: p in parts ==> Lacks(p, chars)
    ensures Lacks(Join(parts, separator), chars)
  {
    if |parts| > 1 {
      assert parts[0] in parts && forall p :: p in parts[1..] ==> p in parts;
      JoinLacks(parts[1..], separator, chars);
    } else if |parts| == 1 {
      assert parts[0] in parts;
    }
  }

  lemma {:induction false} EncodeLacks(s: string, code: map<char, string>, chars: set<char>)
    requires forall c :: c in s && c !in code ==> c !in chars
    requires forall c :: c in code && c in s ==> Lacks(code[c], chars)
    ensures Lacks(Encode(s, code), chars)
  {
    if s != [] {
      assert s[0] in s && forall c :: c in s[1..] ==> c in s;
      EncodeLacks(s[1..], code, chars);
    }
  }

  lemma SerializedLacks(v: string, chars: set<char>)
    requires Lacks(v, chars) && '"' !in chars && '\\' !in chars
    ensures Lacks(SerializeParameterValue(v), chars)
  {
    if NeedsQuotes(v) {
      QuotedForm(v);
      EncodeLacks(v, QuoteCode, chars);
    }
  }

  /** A written value is balanced at commas and semicolons. */
  lemma SerializedBalanced(v: string, delimiter: char)
    requires delimiter == ',' || delimiter == ';'
    ensures Balanced(SerializeParameterValue(v), delimiter)
  {
    if NeedsQuotes(v) {
      QuotedForm(v);
      QuoteBalanced(v, delimiter);
    } else {
      PlainScan(v, delimiter);
    }
  }

  lemma TrimIsSlice(s: string)
    ensures forall c :: c in Trim(s) ==> c in s
  {
  }

  /** Without quotes, unquoting only trims. */
  lemma UnquotePlain(v: string)
    requires '"' !in v
    ensures Unquote(v) == Trim(v)
  {
    TrimIsSlice(v);
    assert Trim(v) != "" ==> Trim(v)[0] in Trim(v);
  }

  lemma UnquoteSerialized(v: string)
    requires NeedsQuotes(v) || Trim(v) == v
    ensures Unquote(SerializeParameterValue(v)) == v
  {
    if NeedsQuotes(v) {
      QuotedForm(v);
      UnquoteQuoted(v);
    } else {
      UnquotePlain(v);
    }
  }

  lemma {:induction false} SerializeEachAt(values: seq<string>, i: nat)
    requires i < |values|
    ensures SerializeEach(values)[i] == SerializeParameterValue(values[i])
  {
    if i > 0 {
      SerializeEachAt(values[1..], i - 1);
    }
  }

  /** A parameter whose name has no quote is balanced when its value texts are. */
  lemma ParamBalanced(key: string, texts: seq<string>, delimiter: char)
    requires Lacks(key, {'"', delimiter}) && texts != [] && delimiter != '=' && delimiter != ','
    requires forall t :: t in texts ==> Balanced(t, delimiter)
    ensures Balanced(ParamText(key, texts), delimiter)
  {
    var front := key + "=";
    assert '"' !in front && delimiter !in front;
    PlainScan(front, delimiter);
    JoinBalanced(texts, ',', delimiter);
    ScanConcat(front, Join(texts, ","), Outside);
    UncutConcat(front, Join(texts, ","), Outside, delimiter);
  }

  lemma {:induction false} JoinBalanced(parts: seq<string>, separator: char, delimiter: char)
    requires parts != [] && separator != '"' && separator != delimiter
    requires forall p :: p in parts ==> Balanced(p, delimiter)
    ensures Balanced(Join(parts, [separator]), delimiter)
  {
    assert parts[0] in parts && forall p :: p in parts[1..] ==> p in parts;
    if |parts| > 1 {
      var tail := Join(parts[1..], [separator]);
      JoinBalanced(parts[1..], separator, delimiter);
      PlainScan([separator], delimiter);
      ScanConcat(parts[0] + [separator], tail, Outside);
      UncutConcat(parts[0] + [separator], tail, Outside, delimiter);
      ScanConcat(parts[0], [separator], Outside);
      UncutConcat(parts[0], [separator], Outside, delimiter);
    }
  }

  lemma SortedDistinct(s: set<string>)
    ensures Distinct(SortedKeys(s))
  {
    var keys := SortedKeys(s);
    SortedKeysAscend(s);
    forall i, j | 0 <= i < j < |keys| ensures keys[i] != keys[j] {
      LessTrichotomy(keys[i], keys[j]);
    }
  }

  // ----- a good property's line returns it --------------------------------

  lemma ParamTextsReadable(values: seq<string>)
    requires values != [] && forall v :: v in values ==> ParamTextOk(v)
    ensures Readable(SerializeEach(values))
    ensures UnquoteAll(SerializeEach(values)) == values
    ensures forall t :: t in SerializeEach(values) ==> Balanced(t, ';') && Lacks(t, {':', '\r', '\n'})
  {
    hide SerializeEach, UnquoteAll, Unquote, Balanced;
    var texts := SerializeEach(values);
    forall i | 0 <= i < |values|
      ensures Balanced(texts[i], ',') && Unquote(texts[i]) == values[i] != ""
      ensures UnquoteAll(texts)[i] == values[i]
      ensures Balanced(texts[i], ';') && Lacks(texts[i], {':', '\r', '\n'})
    {
      assert ParamTextOk(values[i]);
      SerializeEachAt(values, i);
      SerializedBalanced(values[i], ',');
      SerializedBalanced(values[i], ';');
      SerializedLacks(values[i], {':', '\r', '\n'});
      UnquoteSerialized(values[i]);
      UnquoteAllAt(texts, i);
    }
  }

  lemma EscapeFreeReturns(values: seq<string>)
    requires forall v :: v in values ==> EscapeFree(v)
    ensures UnescapeEach(values) == values
  {
    forall i | 0 <= i < |values| ensures UnescapeEach(values)[i] == values[i] {
      UnescapeEachAt(values, i);
      UnescapeFixes(values[i]);
    }
  }

  lemma ParamReturns(key: string, values: seq<string>)
    requires ParamTextsOk(key, values)
    ensures Readable(SerializeEach(values)) && UnquoteAll(SerializeEach(values)) == values
    ensures Balanced(ParamText(key, SerializeEach(values)), ';')
    ensures Lacks(ParamText(key, SerializeEach(values)), LineBreakers)
  {
    var texts := SerializeEach(values);
    ParamTextsReadable(values);
    JoinLacks(texts, ",", LineBreakers);
  }

  predicate ParamsOk(params: Params) {
    forall k :: k in params ==> ParamTextsOk(k, params[k])
  }

  /** What the head of a line needs of the written form of its parameters. */
  predicate WrittenParam(key: string, values: seq<string>) {
    Readable(SerializeEach(values)) && Balanced(ParamText(key, SerializeEach(values)), ';') &&
    Lacks(ParamText(key, SerializeEach(values)), LineBreakers)
  }

  lemma WrittenParams(params: Params)
    requires ParamsOk(params)
    ensures forall k :: k in params ==> WrittenParam(k, params[k])
    ensures forall k :: k in params ==> UnquoteAll(SerializeEach(params[k])) == params[k]
    ensures forall k :: k in params ==> k != "" && '=' !in k && IsUpper(k)
  {
    forall k | k in params
      ensures WrittenParam(k, params[k]) && UnquoteAll(SerializeEach(params[k])) == params[k]
      ensures k != "" && '=' !in k && IsUpper(k)
    {
      assert ParamTextsOk(k, params[k]);
      ParamReturns(k, params[k]);
    }
  }

  lemma HeadWritable(params: Params)
    requires forall k :: k in params ==> WrittenParam(k, params[k])
    requires forall k :: k in params ==> k != "" && '=' !in k && IsUpper(k)
    ensures WritableKeys(SortedKeys(params.Keys), SerializeParams(params))
  {
    var keys, texts := SortedKeys(params.Keys), SerializeParams(params);
    SortedDistinct(params.Keys);
    forall k | k in keys ensures WritableKey(k, texts) {
      assert WrittenParam(k, params[k]);
    }
  }

  lemma ParamsReadBack(params: Params)
    requires forall k :: k in params ==> UnquoteAll(SerializeEach(params[k])) == params[k]
    ensures ReadParams(SortedKeys(params.Keys), SerializeParams(params)) == params
  {
  }

  lemma HeadLacks(name: string, keys: seq<string>, texts: Params, chars: set<char>)
    requires Lacks(name, chars) && ';' !in chars && forall k :: k in keys ==> k in texts
    requires forall i :: 0 <= i < |keys| ==> Lacks(ParamText(keys[i], texts[keys[i]]), chars)
    ensures Lacks(HeadText(name, keys, texts), chars)
  {
    var params := ParamTexts(keys, texts);
    forall piece | piece in [name] + params ensures Lacks(piece, chars) {
      if piece in params {
        var i :| 0 <= i < |params| && params[i] == piece;
      }
    }
    JoinLacks([name] + params, ";", chars);
  }

  lemma HeadWrites(name: string, params: Params)
    requires Lacks(name, LineBreakers) && ParamsOk(params)
    ensures WritableKeys(SortedKeys(params.Keys), SerializeParams(params))
    ensures ReadParams(SortedKeys(params.Keys), SerializeParams(params)) == params
    ensures Lacks(HeadText(name, SortedKeys(params.Keys), SerializeParams(params)), LineBreakers)
  {
    WrittenParams(params);
    HeadWritable(params);
    ParamsReadBack(params);
    WrittenHeadLacks(name, params);
  }

  lemma WrittenHeadLacks(name: string, params: Params)
    requires Lacks(name, LineBreakers) && forall k :: k in params ==> WrittenParam(k, params[k])
    ensures Lacks(HeadText(name, SortedKeys(params.Keys), SerializeParams(params)), LineBreakers)
  {
    var keys, texts := SortedKeys(params.Keys), SerializeParams(params);
    forall i | 0 <= i < |keys| ensures Lacks(ParamText(keys[i], texts[keys[i]]), LineBreakers) {
      assert keys[i] in keys && WrittenParam(keys[i], params[keys[i]]);
    }
    HeadLacks(name, keys, texts, LineBreakers);
  }

  /** A written head is read back: the name, and every parameter with its values. */
  lemma HeadReturns(name: string, params: Params)
    requires NameOk(name) && ParamsOk(params)
    ensures Lacks(HeadText(name, SortedKeys(params.Keys), SerializeParams(params)), LineBreakers)
    ensures ParseHead(HeadText(name, SortedKeys(params.Keys), SerializeParams(params))) == Ok((name, params))
  {
    var keys, texts := SortedKeys(params.Keys), SerializeParams(params);
    HeadWrites(name, params);
    ParseWrittenHead(name, keys, texts);
  }

  lemma ValueReturns(name: string, value: string)
    requires ValueOk(name, value)
    ensures Lacks(SerializePropertyValue(name, value), {'\r', '\n'})
    ensures Unescape(SerializePropertyValue(name, value)) == value
  {
    hide Unescape, Encode;
    if name in RawNames {
      UnescapeFixes(value);
    } else {
      EscapedForm(name, value);
      EncodeLacks(value, ValueCode, {'\r', '\n'});
      UnescapeEncoded(value);
    }
  }

  lemma HeadStarts(name: string, keys: seq<string>, texts: Params)
    requires name != "" && forall k :: k in keys ==> k in texts
    ensures HeadText(name, keys, texts) != "" && HeadText(name, keys, texts)[0] == name[0]
    ensures if keys == [] then HeadText(name, keys, texts) == name else ';' in HeadText(name, keys, texts)
  {
    var pieces := [name] + ParamTexts(keys, texts);
    if keys != [] {
      assert pieces[1..] == ParamTexts(keys, texts);
      assert HeadText(name, keys, texts) == name + ";" + Join(pieces[1..], ";");
    }
  }

  lemma NotABoundary(head: string, rest: string)
    requires ':' !in head && head != "BEGIN" && head != "END"
    ensures !Opens(head + ":" + rest) && !Closes(head + ":" + rest)
  {
    if Opens(head + ":" + rest) {
      PrefixBeforeColon(head, rest, "BEGIN");
    }
    if Closes(head + ":" + rest) {
      PrefixBeforeColon(head, rest, "END");
    }
  }

  lemma HeadIsNoBoundary(name: string, keys: seq<string>, texts: Params)
    requires name != "" && forall k :: k in keys ==> k in texts
    requires keys == [] ==> name != "BEGIN" && name != "END"
    ensures HeadText(name, keys, texts) != "BEGIN" && HeadText(name, keys, texts) != "END"
  {
    HeadStarts(name, keys, texts);
    assert ';' !in "BEGIN" && ';' !in "END";
  }

  lemma PrefixBeforeColon(head: string, rest: string, word: string)
    requires ':' !in head && ':' !in word && word + ":" <= head + ":" + rest
    ensures head == word
  {
    var line := head + ":" + rest;
    assert line[|word|] == (word + ":")[|word|] == ':';
    assert forall i :: 0 <= i < |head| ==> line[i] == head[i] && line[i] != ':';
    assert forall i :: 0 <= i < |word| ==> line[i] == (word + ":")[i] == word[i] && line[i] != ':';
    assert line[|head|] == ':';
    assert |word| == |head|;
  }

  /** A property of the domain is said by its own line. */
  lemma GoodPropertyReturns(p: Property)
    requires PropertyOk(p)
    ensures LineReturns(PropertyToken(p))
  {
    hide LineReturns, HeadText, SerializeParams, SerializePropertyValue, ParseHead, Unescape, ParamOk, ValueOk;
    var keys, texts := SortedKeys(p.params.Keys), SerializeParams(p.params);
    var head, text := HeadText(p.name, keys, texts), SerializePropertyValue(p.name, p.value);
    GoodHead(p);
    ValueReturns(p.name, p.value);
    assert p.name[0] in p.name;
    assert keys == [] ==> p.params == map[];
    HeadStarts(p.name, keys, texts);
    HeadIsNoBoundary(p.name, keys, texts);
    LexPlainLine(p, head, text);
    PlainLineReturns(head + ":" + text, PropertyToken(p));
  }

  lemma GoodHead(p: Property)
    requires PropertyOk(p)
    ensures UnescapeParams(p.params) == p.params
    ensures Lacks(HeadText(p.name, SortedKeys(p.params.Keys), SerializeParams(p.params)), LineBreakers)
    ensures ParseHead(HeadText(p.name, SortedKeys(p.params.Keys), SerializeParams(p.params))) == Ok((p.name, p.params))
  {
    hide ParseHead, HeadText;
    EscapeFreeParams(p.params);
    HeadReturns(p.name, p.params);
  }

  lemma EscapeFreeParams(params: Params)
    requires forall k :: k in params ==> ParamOk(k, params[k])
    ensures UnescapeParams(params) == params && ParamsOk(params)
  {
    forall k | k in params ensures ParamTextsOk(k, params[k]) && UnescapeEach(params[k]) == params[k] {
      assert ParamOk(k, params[k]);
      EscapeFreeReturns(params[k]);
    }
  }

  lemma LexPlainLine(p: Property, head: string, text: string)
    requires ':' !in head && head != "BEGIN" && head != "END"
    requires ParseHead(head) == Ok((p.name, p.params)) && UnescapeParams(p.params) == p.params && Unescape(text) == p.value
    ensures Lex(head + ":" + text) == Ok(PropertyToken(p))
  {
    NotABoundary(head, text);
    SplitOnceConcat(head, ':', text);
    assert LexProperty(head + ":" + text) == Ok(p);
  }

  lemma PlainLineReturns(line: string, token: Token)
    requires line == LineText(token) && line != "" && !IsBlank(line[0]) && Lacks(line, {'\r', '\n'})
    requires Lex(line) == Ok(token)
    ensures LineReturns(token)
  {
    assert line[0] in line;
    UnfoldOneAfter(line, []);
  }

  lemma GoodTokenReturns(token: Token)
    requires TokenOk(token)
    ensures LineReturns(token)
  {
    match token
    case PropertyToken(property) => GoodPropertyReturns(property);
    case BeginToken(name) => BoundaryReturns("BEGIN:", name);
    case EndToken(name) => BoundaryReturns("END:", name);
  }

  lemma BoundaryReturns(word: string, name: string)
    requires word == "BEGIN:" || word == "END:"
    requires ComponentNameOk(name)
    ensures LineReturns(if word == "BEGIN:" then BeginToken(name) else EndToken(name))
  {
    var line := word + name;
    UpperOfUpper(name);
    assert line[|word|..] == name && line[0] == word[0];
    PlainLineReturns(line, if word == "BEGIN:" then BeginToken(name) else EndToken(name));
  }
}
