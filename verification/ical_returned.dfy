/** A written line that gives back its property: what that says of its name, its parameters and its value. */
module ICalendarReturned {
  import opened Wrappers
  import opened Text
  import opened PropertyText
  import opened ContentLines
  import opened ICalendar
  import opened ICalendarLines
  import opened ICalendarRange
  import opened ICalendarFolding
  import opened ICalendarHeads

  // ----- what folding leaves of a line ------------------------------------

  lemma FoldValues(values: seq<string>)
    ensures FoldEach(SerializeEach(values)) == FoldedEach(values)
  {
    forall i | 0 <= i < |values| ensures FoldEach(SerializeEach(values))[i] == FoldedEach(values)[i] {
      SerializeEachAt(values, i);
      FoldText(values[i]);
    }
  }

  lemma FoldParam(key: string, values: seq<string>)
    requires '\n' !in key && values != []
    ensures Fold(ParamText(key, SerializeEach(values)), false) == ParamText(key, FoldedEach(values))
  {
    FoldSeparated(key, '=', Join(SerializeEach(values), ","));
    FoldKeeps(key, false);
    FoldJoin(SerializeEach(values), ',');
    FoldValues(values);
  }

  lemma FoldParams(params: Params, keys: seq<string>)
    requires ReadParamsOk(params) && forall k :: k in keys ==> k in params
    ensures FoldEach(ParamTexts(keys, SerializeParams(params))) == ParamTexts(keys, FoldedParams(params))
  {
    hide ParamText, Fold, FoldedEach;
    var pieces := ParamTexts(keys, SerializeParams(params));
    forall i | 0 <= i < |keys| ensures FoldEach(pieces)[i] == ParamTexts(keys, FoldedParams(params))[i] {
      assert keys[i] in keys && KeyOk(keys[i]) && ReadValues(params[keys[i]]);
      FoldParam(keys[i], params[keys[i]]);
    }
  }

  /** Folding touches a written head only inside its parameter values. */
  lemma FoldHead(name: string, params: Params)
    requires '\n' !in name && ReadParamsOk(params)
    ensures Fold(HeadText(name, SortedKeys(params.Keys), SerializeParams(params)), false)
         == HeadText(name, SortedKeys(params.Keys), FoldedParams(params))
  {
    hide SortedKeys, ParamTexts, SerializeParams, FoldedParams, ReadParamsOk, Join;
    var keys := SortedKeys(params.Keys);
    var pieces := ParamTexts(keys, SerializeParams(params));
    FoldJoin([name] + pieces, ';');
    FoldParams(params, keys);
    FoldKeeps(name, false);
    assert FoldEach([name] + pieces) == [name] + FoldEach(pieces);
  }

  lemma FoldLine(p: Property)
    requires ReadProperty(p)
    ensures Fold(PropertyLine(p), false) == HeadText(p.name, SortedKeys(p.params.Keys), FoldedParams(p.params)) + ":"
                                            + Fold(SerializePropertyValue(p.name, p.value), false)
  {
    hide HeadText, SortedKeys, SerializePropertyValue, FoldedParams, SerializeParams, ReadParamsOk;
    var head := HeadText(p.name, SortedKeys(p.params.Keys), SerializeParams(p.params));
    FoldHead(p.name, p.params);
    FoldSeparated(head, ':', SerializePropertyValue(p.name, p.value));
  }

  /** Folding, reading and unescaping never lengthen a value that is written as it is. */
  lemma RawValueSurvives(name: string, value: string, text: string)
    requires text <= Fold(SerializePropertyValue(name, value), false) && '\r' !in value && Unescape(text) == value
    ensures ValueOk(name, value)
  {
    hide Unescape, EscapeFree;
    if name in RawNames {
      FoldKeeps(value, false);
      assert |text| == |value| && text == value;
      UnescapeFixes(value);
    }
  }

  // ----- which values survive ---------------------------------------------

  /** A way to reread a value that keeps its semicolons and never lengthens it. */
  ghost predicate Meek(f: string -> string) {
    Tame(f) && forall s :: |f(s)| <= |s|
  }

  predicate Survives(v: string, f: string -> string) {
    f(v) == v && '\n' !in v && (NeedsQuotes(v) || Trim(v) == v)
  }

  lemma NoQuoteInside(v: string)
    ensures '"' in v ==> NeedsQuotes(v)
  {
  }

  /** Folding, reading and rereading never lengthen, so a value that comes back was left alone throughout. */
  lemma ValueSurvives(v: string, f: string -> string)
    requires Meek(f) && f(Unquote(Folded(v))) == v
    ensures Survives(v, f) && Folded(v) == SerializeParameterValue(v)
  {
    hide NeedsQuotes, Quote, Unquote, Tame, SerializeParameterValue;
    FoldKeeps(v, false);
    if NeedsQuotes(v) {
      UnquoteQuoted(Fold(v, false));
      QuotesAsWritten(v);
    } else {
      NoQuoteInside(v);
      UnquotePlain(Fold(v, false));
      PlainAsWritten(v);
    }
  }

  lemma QuotesAsWritten(v: string)
    requires NeedsQuotes(v)
    ensures SerializeParameterValue(v) == Quote(v)
  {
    QuotedForm(v);
  }

  lemma PlainAsWritten(v: string)
    requires !NeedsQuotes(v)
    ensures SerializeParameterValue(v) == v
  {
  }

  lemma ValuesSurvive(values: seq<string>, f: string -> string)
    requires Meek(f) && Rereads(UnquoteAll(FoldedEach(values)), values, f)
    ensures forall v :: v in values ==> Survives(v, f)
    ensures FoldedEach(values) == SerializeEach(values)
  {
    hide Survives, Unquote, NeedsQuotes, Folded, Meek, SerializeParameterValue;
    var texts := FoldedEach(values);
    forall i | 0 <= i < |values| ensures Survives(values[i], f) && texts[i] == SerializeEach(values)[i] {
      UnquoteAllAt(texts, i);
      SerializeEachAt(values, i);
      ValueSurvives(values[i], f);
    }
  }

  lemma {:induction false} JoinHas(parts: seq<string>, separator: string, i: nat, c: char)
    requires i < |parts|
    ensures c in parts[i] ==> c in Join(parts, separator)
  {
    if |parts| > 1 && i > 0 {
      JoinHas(parts[1..], separator, i - 1, c);
    }
  }

  lemma {:induction false} EncodeHas(v: string, c: char)
    requires c !in QuoteCode
    ensures c in v ==> c in Encode(v, QuoteCode)
  {
    if v != "" && v[0] != c {
      assert v == [v[0]] + v[1..];
      EncodeHas(v[1..], c);
    }
  }

  lemma ParamLacksColon(key: string, values: seq<string>)
    requires ':' !in ParamText(key, SerializeEach(values))
    ensures forall v :: v in values ==> ':' !in v
  {
    hide NeedsQuotes, Join;
    var texts := SerializeEach(values);
    forall v | v in values ensures ':' !in v {
      var i :| 0 <= i < |values| && values[i] == v;
      SerializeEachAt(values, i);
      ColonShows(v);
      JoinHas(texts, ",", i, ':');
    }
  }

  lemma ColonShows(v: string)
    ensures ':' in v ==> ':' in SerializeParameterValue(v)
  {
    QuotedForm(v);
    EncodeHas(v, ':');
  }

  /** A parameter list that comes back through its own text belongs to the domain. */
  lemma ParamReturned(key: string, values: seq<string>, f: string -> string)
    requires KeyOk(key) && ReadValues(values) && Meek(f)
    requires Rereads(UnquoteAll(FoldedEach(values)), values, f)
    requires Balanced(ParamText(key, FoldedEach(values)), ';') && ':' !in ParamText(key, FoldedEach(values))
    ensures ParamTextsOk(key, values) && forall v :: v in values ==> f(v) == v
  {
    hide ParamText, NeedsQuotes, Unquote, Balanced, Trim, IsUpper, FoldedEach, SerializeEach, UnquoteAll, Meek, Rereads;
    ValuesSurvive(values, f);
    ParamLacksColon(key, values);
    forall v | v in values ensures ParamTextOk(v) && f(v) == v {
      assert Survives(v, f);
    }
  }

  // ----- the whole line ---------------------------------------------------

  lemma {:induction false} PiecesBalanced(s: string, delimiter: char)
    requires SplitUnquoted(s, delimiter).Some? && delimiter != '"'
    ensures forall p :: p in SplitUnquoted(s, delimiter).value ==> Balanced(p, delimiter)
    decreases |s|
  {
    hide Balanced, SplitUnquoted;
    FirstPiece(s, delimiter);
    var pieces := SplitUnquoted(s, delimiter).value;
    assert pieces == [pieces[0]] + pieces[1..];
    if |pieces[0]| < |s| {
      PiecesBalanced(s[|pieces[0]| + 1..], delimiter);
    }
  }

  /** A beginning of a line, cut at its first colon: it is cut in the head or right behind it. */
  lemma SplitAtColon(line: string, head: string, value: string)
    requires line <= head + ":" + value && SplitOnce(line, ':').Some?
    ensures var (left, text) := SplitOnce(line, ':').value;
            CutAtColon(left, head) && ':' !in left && (left == head ==> text <= value)
  {
    SplitOnceParts(line, ':');
    var whole := head + ":" + value;
    var i := IndexOf(line, ':');
    assert forall j :: 0 <= j < i ==> line[j] == line[..i][j] && line[j] in line[..i];
    assert forall j :: 0 <= j < |line| ==> line[j] == whole[j];
    assert whole[|head|] == ':';
    assert i <= |head|;
    assert line[..i] == head[..i];
    if i == |head| {
      assert whole[i + 1..] == value && line[i + 1..] == whole[i + 1..][..|line| - i - 1];
    }
  }

  lemma {:induction false} EveryPieceReads(pieces: seq<string>, params: Params, i: nat)
    requires i < |pieces| && ParseParams(pieces, params).Ok?
    ensures ParseParam(pieces[i]).Ok?
  {
    if i > 0 {
      var (key, values) := ParseParam(pieces[0]).value;
      EveryPieceReads(pieces[1..], Extend(params, key, values), i - 1);
    }
  }

  lemma ReadTexts(key: string, texts: seq<string>)
    requires key != "" && '=' !in key && texts != [] && forall t :: t in texts ==> Balanced(t, ',')
    requires ParseParam(ParamText(key, texts)).Ok?
    ensures Readable(texts)
  {
    hide Balanced, Unquote, SplitUnquoted;
    SplitOnceConcat(key, '=', Join(texts, ","));
    SplitJoined(texts, ',');
    forall t | t in texts ensures Unquote(t) != "" {
      var i :| 0 <= i < |texts| && texts[i] == t;
      UnquoteAllAt(texts, i);
    }
  }

  /** What a head gives back: the read parameters, reread, are the written ones. */
  ghost predicate HeadGivesBack(p: Property, left: string, f: string -> string) {
    ':' !in left &&
    CutAtColon(left, HeadText(p.name, SortedKeys(p.params.Keys), FoldedParams(p.params))) &&
    ParseHead(left).Ok? && ParseHead(left).value.0 == p.name &&
    GivesBack(ParseHead(left).value.1, p.params, SortedKeys(p.params.Keys), f)
  }

  lemma PieceAt(p: Property, left: string, i: nat)
    requires i < |SortedKeys(p.params.Keys)| && ParseHead(left).Ok? && ':' !in left
    requires left == HeadText(p.name, SortedKeys(p.params.Keys), FoldedParams(p.params))
    requires SplitUnquoted(left, ';') == Some([p.name] + ParamTexts(SortedKeys(p.params.Keys), FoldedParams(p.params)))
    ensures var key := SortedKeys(p.params.Keys)[i];
            key in p.params && Balanced(ParamText(key, FoldedEach(p.params[key])), ';') &&
            ':' !in ParamText(key, FoldedEach(p.params[key])) && ParseParam(ParamText(key, FoldedEach(p.params[key]))).Ok?
  {
    hide SplitUnquoted, Balanced, ParamText, ParseParam, FoldedEach, SortedKeys, Join;
    var keys, texts := SortedKeys(p.params.Keys), FoldedParams(p.params);
    var pieces := ParamTexts(keys, texts);
    assert keys[i] in keys && ([p.name] + pieces)[i + 1] == pieces[i] && ([p.name] + pieces)[1..] == pieces;
    PiecesBalanced(left, ';');
    JoinHas([p.name] + pieces, ";", i + 1, ':');
    EveryPieceReads(pieces, map[], i);
  }

  lemma HeadReads(p: Property, left: string, f: string -> string)
    requires ReadProperty(p) && Meek(f) && HeadGivesBack(p, left, f)
    ensures left == HeadText(p.name, SortedKeys(p.params.Keys), FoldedParams(p.params)) && Balanced(p.name, ';')
    ensures SplitUnquoted(left, ';') == Some([p.name] + ParamTexts(SortedKeys(p.params.Keys), FoldedParams(p.params)))
    ensures ParseHead(left) == Ok((p.name, ReadParams(SortedKeys(p.params.Keys), FoldedParams(p.params))))
  {
    hide SplitUnquoted, Balanced, SortedKeys, ParseHead, HeadText, FoldedEach, GivesBack, Readable, Tame, ParamText,
         ParseParam, IsUpper, CutAtColon;
    var keys, texts := SortedKeys(p.params.Keys), FoldedParams(p.params);
    HeadAligned(p.name, p.params, left, f);
    SortedDistinct(p.params.Keys);
    forall k | k in keys ensures WritableKey(k, texts) {
      var i :| 0 <= i < |keys| && keys[i] == k;
      PieceAt(p, left, i);
      TextsWritable(k, p.params[k]);
    }
    ParseWrittenHead(p.name, keys, texts);
  }

  lemma TextsWritable(key: string, values: seq<string>)
    requires KeyOk(key) && ReadValues(values) && ParseParam(ParamText(key, FoldedEach(values))).Ok?
    ensures key != "" && '=' !in key && IsUpper(key) && Readable(FoldedEach(values))
  {
    hide Balanced, ParseParam, Readable;
    FoldedEachBalanced(values, ',');
    ReadTexts(key, FoldedEach(values));
  }

  /** A head that gives back its property names it and carries parameters of the domain. */
  lemma HeadReturned(p: Property, left: string, f: string -> string)
    requires ReadProperty(p) && Meek(f) && HeadGivesBack(p, left, f)
    ensures left == HeadText(p.name, SortedKeys(p.params.Keys), FoldedParams(p.params)) && NameOk(p.name)
    ensures ParamsOk(p.params) && forall k, v :: k in p.params && v in p.params[k] ==> f(v) == v
  {
    hide SplitUnquoted, Balanced, SortedKeys, ParseHead, HeadText, FoldedEach, Rereads, ParamText, ParseParam, IsUpper,
         CutAtColon, ParamTextsOk, Meek, KeyOk, ReadValues, UnquoteAll;
    var keys, texts := SortedKeys(p.params.Keys), FoldedParams(p.params);
    HeadReads(p, left, f);
    forall k | k in p.params ensures ParamTextsOk(k, p.params[k]) && forall v :: v in p.params[k] ==> f(v) == v {
      var i :| 0 <= i < |keys| && keys[i] == k;
      PieceAt(p, left, i);
      assert ReadParams(keys, texts)[k] == UnquoteAll(FoldedEach(p.params[k]));
      ParamReturned(k, p.params[k], f);
    }
  }

  /** What a written and folded line gives back, read at its first colon. */
  ghost predicate GivesProperty(p: Property, line: string, f: string -> string) {
    SplitOnce(line, ':').Some? &&
    var (left, value) := SplitOnce(line, ':').value;
    ParseHead(left).Ok? && ParseHead(left).value.0 == p.name && Unescape(value) == p.value &&
    GivesBack(ParseHead(left).value.1, p.params, SortedKeys(p.params.Keys), f)
  }

  /** A property that the beginning of its own folded line gives back has a name, parameters and a
      value of the domain. */
  lemma LineReturned(p: Property, line: string, f: string -> string)
    requires ReadProperty(p) && Meek(f) && line <= Fold(PropertyLine(p), false) && GivesProperty(p, line, f)
    ensures NameOk(p.name) && ParamsOk(p.params) && ValueOk(p.name, p.value)
    ensures forall k, v :: k in p.params && v in p.params[k] ==> f(v) == v
    ensures SplitOnce(line, ':').value.0 == HeadText(p.name, SortedKeys(p.params.Keys), FoldedParams(p.params))
  {
    hide PropertyLine, HeadText, SortedKeys, ParseHead, GivesBack, Meek, SerializePropertyValue, Unescape, NameOk, ValueOk,
         ParamTextsOk, Fold, CutAtColon;
    FoldLine(p);
    var head := HeadText(p.name, SortedKeys(p.params.Keys), FoldedParams(p.params));
    SplitAtColon(line, head, Fold(SerializePropertyValue(p.name, p.value), false));
    HeadReturned(p, SplitOnce(line, ':').value.0, f);
    RawValueSurvives(p.name, p.value, SplitOnce(line, ':').value.1);
  }

  // ----- where readable lines start ---------------------------------------

  lemma ReadParamLacks(key: string, values: seq<string>)
    requires KeyOk(key) && ReadValues(values)
    ensures Lacks(ParamText(key, SerializeEach(values)), {'\r'})
  {
    var texts := SerializeEach(values);
    forall t | t in texts ensures Lacks(t, {'\r'}) {
      var i :| 0 <= i < |texts| && texts[i] == t;
      SerializeEachAt(values, i);
      SerializedLacks(values[i], {'\r'});
    }
    JoinLacks(texts, ",", {'\r'});
  }

  lemma ReadHeadLacks(p: Property)
    requires ReadProperty(p)
    ensures Lacks(HeadText(p.name, SortedKeys(p.params.Keys), SerializeParams(p.params)), {'\r'})
  {
    hide HeadText, SortedKeys, ParamText;
    var keys, texts := SortedKeys(p.params.Keys), SerializeParams(p.params);
    forall i | 0 <= i < |keys| ensures Lacks(ParamText(keys[i], texts[keys[i]]), {'\r'}) {
      assert keys[i] in keys;
      ReadParamLacks(keys[i], p.params[keys[i]]);
    }
    HeadLacks(p.name, keys, texts, {'\r'});
  }

  lemma ReadValueLacks(name: string, value: string)
    requires '\r' !in value
    ensures '\r' !in SerializePropertyValue(name, value)
  {
    if name !in RawNames {
      EscapedForm(name, value);
      EncodeLacks(value, ValueCode, {'\r'});
    }
  }

  lemma LineLacks(head: string, value: string)
    requires Lacks(head, {'\r'}) && '\r' !in value
    ensures '\r' !in head + ":" + value
  {
    assert '\r' in {'\r'};
  }

  lemma LineStarts(head: string, value: string)
    requires head != ""
    ensures (head + ":" + value)[0] == head[0]
  {
  }

  lemma ReadPropertyStarts(p: Property)
    requires ReadProperty(p)
    ensures StartsLine(PropertyLine(p))
  {
    hide HeadText, SortedKeys, SerializePropertyValue, ReadParamsOk, SerializeParams, IsUpper;
    var keys, texts := SortedKeys(p.params.Keys), SerializeParams(p.params);
    ReadHeadLacks(p);
    ReadValueLacks(p.name, p.value);
    HeadStarts(p.name, keys, texts);
    assert p.name[0] in p.name;
    LineLacks(HeadText(p.name, keys, texts), SerializePropertyValue(p.name, p.value));
    LineStarts(HeadText(p.name, keys, texts), SerializePropertyValue(p.name, p.value));
  }
}
