/** A written head that is read back whole was cut exactly where its parameters were joined: whatever
    quotes its names hold, nothing else can give the same parameters. */
module ICalendarHeads {
  import opened Wrappers
  import opened Text
  import opened PropertyText
  import opened ContentLines
  import opened ICalendar
  import opened ICalendarLines
  import opened ICalendarRange
  import opened ICalendarFolding

  // ----- no step loses or adds a semicolon --------------------------------

  function Count(s: string): nat {
    if s == [] then 0 else (if s[0] == ';' then 1 else 0) + Count(s[1..])
  }

  lemma {:induction false} CountConcat(a: string, b: string)
    ensures Count(a + b) == Count(a) + Count(b)
  {
    if a == [] {
      assert a + b == b;
    } else {
      assert (a + b)[1..] == a[1..] + b;
      CountConcat(a[1..], b);
    }
  }

  lemma {:induction false} CountNone(s: string)
    requires ';' !in s
    ensures Count(s) == 0
  {
    if s != [] {
      assert s[0] in s && forall c :: c in s[1..] ==> c in s;
      CountNone(s[1..]);
    }
  }

  lemma CountTrim(s: string)
    ensures Count(Trim(s)) == Count(s)
  {
    hide Count, SolidFrom, SolidTo, IsWhitespace;
    var low := SolidFrom(s, 0);
    var high := SolidTo(s, low, |s|);
    SolidFromSkips(s, 0);
    SolidToSkips(s, low, |s|);
    CountSpace(s[..low]);
    CountSpace(s[high..]);
    CountParts(s, low, high);
  }

  lemma CountSpace(s: string)
    requires forall k :: 0 <= k < |s| ==> IsWhitespace(s[k])
    ensures Count(s) == 0
  {
    CountNone(s);
  }

  lemma CountParts(s: string, low: nat, high: nat)
    requires low <= high <= |s|
    ensures Count(s) == Count(s[..low]) + Count(s[low..high]) + Count(s[high..])
  {
    hide Count;
    assert s == s[..low] + s[low..high] + s[high..];
    CountConcat(s[..low] + s[low..high], s[high..]);
    CountConcat(s[..low], s[low..high]);
  }

  lemma {:induction false} CountDecode(s: string)
    ensures Count(DecodeQuoted(s)) == Count(s)
    decreases |s|
  {
    if s == [] {
    } else if s[0] == '\\' && |s| > 1 {
      CountDecode(s[2..]);
      assert s[1..][0] == s[1] && s[1..][1..] == s[2..];
      assert ([s[1]] + DecodeQuoted(s[2..]))[1..] == DecodeQuoted(s[2..]);
    } else if s[0] == '\\' {
      assert s == "\\";
    } else {
      CountDecode(s[1..]);
      assert ([s[0]] + DecodeQuoted(s[1..]))[1..] == DecodeQuoted(s[1..]);
    }
  }

  lemma CountUnquote(s: string)
    ensures Count(Unquote(s)) == Count(s)
  {
    CountTrim(s);
    var v := Trim(s);
    if |v| >= 2 && v[0] == '"' && v[|v| - 1] == '"' {
      var inner := v[1..|v| - 1];
      CountDecode(inner);
      assert v == ['"'] + inner + ['"'];
      CountConcat(['"'] + inner, ['"']);
      CountConcat(['"'], inner);
      CountNone(['"']);
    }
  }

  lemma {:induction false} CountUnescape(s: string)
    ensures Count(Unescape(s)) == Count(s)
    decreases |s|
  {
    if s == [] {
    } else if s[0] == '\\' && |s| > 1 {
      CountUnescape(s[2..]);
      var c := if s[1] == 'n' || s[1] == 'N' then '\n' else s[1];
      assert s[1..][0] == s[1] && s[1..][1..] == s[2..];
      assert ([c] + Unescape(s[2..]))[1..] == Unescape(s[2..]);
    } else if s[0] == '\\' {
      assert s == "\\";
    } else {
      CountUnescape(s[1..]);
      assert ([s[0]] + Unescape(s[1..]))[1..] == Unescape(s[1..]);
    }
  }

  lemma {:induction false} CountEncode(s: string)
    ensures Count(Encode(s, QuoteCode)) == Count(s)
  {
    if s != [] {
      CountEncode(s[1..]);
      CountConcat(CodeOf(s[0], QuoteCode), Encode(s[1..], QuoteCode));
      CountCode(s[0]);
    }
  }

  lemma CountCode(c: char)
    ensures Count(CodeOf(c, QuoteCode)) == if c == ';' then 1 else 0
  {
    if c in QuoteCode {
      CountNone(QuoteCode[c]);
    } else {
      assert [c][1..] == [];
    }
  }

  lemma {:induction false} CountFold(s: string, lf: bool)
    ensures Count(Fold(s, lf)) == Count(s)
  {
    if s != [] {
      CountFold(s[1..], true);
      CountFold(s[1..], false);
      var rest := Fold(s[1..], false);
      assert ([s[0]] + rest)[1..] == rest;
    }
  }

  lemma CountFolded(v: string)
    ensures Count(Folded(v)) == Count(v)
  {
    CountFold(v, false);
    if NeedsQuotes(v) {
      var code := Encode(Fold(v, false), QuoteCode);
      CountEncode(Fold(v, false));
      CountConcat("\"" + code, "\"");
      CountConcat("\"", code);
      CountNone("\"");
    }
  }

  // ----- folded parameters ------------------------------------------------

  function FoldedParams(params: Params): (texts: Params)
    ensures texts.Keys == params.Keys && forall k :: k in params ==> texts[k] == FoldedEach(params[k])
  {
    map k | k in params :: FoldedEach(params[k])
  }

  lemma FoldedBalanced(v: string, delimiter: char)
    requires delimiter in {',', ';', ':'}
    ensures Balanced(Folded(v), delimiter)
  {
    if NeedsQuotes(v) {
      QuoteBalanced(Fold(v, false), delimiter);
    } else {
      FoldKeeps(v, false);
      PlainScan(Fold(v, false), delimiter);
    }
  }

  lemma FoldedEachBalanced(values: seq<string>, delimiter: char)
    requires delimiter in {',', ';', ':'}
    ensures forall t :: t in FoldedEach(values) ==> Balanced(t, delimiter)
  {
    forall t | t in FoldedEach(values) ensures Balanced(t, delimiter) {
      var i :| 0 <= i < |values| && FoldedEach(values)[i] == t;
      FoldedBalanced(values[i], delimiter);
    }
  }

  // ----- where a head can be cut ------------------------------------------

  /** All of a head, or what stands before a colon in it. */
  predicate CutAtColon(left: string, head: string) {
    left <= head && (|left| < |head| ==> head[|left|] == ':')
  }

  /** A parameter cut inside, at a delimiter that its values hide, is no parameter: its quote is open. */
  lemma OpenRaw(key: string, texts: seq<string>, k: nat, c: char)
    requires '=' !in key && c in {';', ':'} && texts != [] && forall t :: t in texts ==> Balanced(t, c)
    requires k < |ParamText(key, texts)| && ParamText(key, texts)[k] == c
    ensures ParseParam(ParamText(key, texts)[..k]).Err?
  {
    hide Balanced, Unquote;
    var joined, front := Join(texts, ","), ParamText(key, texts)[..k];
    if k <= |key| {
      assert front == key[..k] && forall x :: x in front ==> x in key;
      SplitOnceParts(front, '=');
    } else {
      var j := k - |key| - 1;
      var raw := joined[..j];
      assert front == key + ['='] + raw && joined[j] == c;
      SplitOnceConcat(key, '=', raw);
      JoinBalanced(texts, ',', c);
      OpenFront(joined, j, c);
    }
  }

  lemma OpenFront(s: string, j: nat, c: char)
    requires Balanced(s, c) && j < |s| && s[j] == c && c != '"'
    ensures SplitUnquoted(s[..j], ',').None?
  {
    assert s == s[..j] + s[j..] && s[j..][0] == c;
    UncutConcat(s[..j], s[j..], Outside, c);
    EscapedIsQuoted(s[..j], Outside);
    SplitOpenQuote(s[..j], ',', Outside, "");
  }

  /** The first parameter of a list, with its key. */
  predicate FirstOf(key: string, texts: seq<string>, rest: string, left: string) {
    '=' !in key && ':' !in key && texts != [] && (rest != "" ==> rest[0] == ';') &&
    CutAtColon(left, ParamText(key, texts) + rest) && SplitUnquoted(left, ';').Some?
  }

  lemma PieceNotShort(key: string, texts: seq<string>, rest: string, left: string)
    requires FirstOf(key, texts, rest, left) && ParseParam(SplitUnquoted(left, ';').value[0]).Ok?
    requires forall t :: t in texts ==> Balanced(t, ';') && Balanced(t, ':')
    ensures |SplitUnquoted(left, ';').value[0]| >= |ParamText(key, texts)|
  {
    hide Balanced, ParseParam;
    var piece, first := ParamText(key, texts), SplitUnquoted(left, ';').value[0];
    FirstPiece(left, ';');
    var k := |first|;
    if k < |piece| {
      assert first == piece[..k] && (piece + rest)[k] == piece[k];
      assert piece[k] == if k < |left| then ';' else ':';
      OpenRaw(key, texts, k, piece[k]);
    }
  }

  // ----- what reading gives is what was written ---------------------------

  /** A way to reread a value that keeps its semicolons. */
  ghost predicate Tame(f: string -> string) {
    forall s :: Count(f(s)) == Count(s)
  }

  predicate Rereads(read: seq<string>, values: seq<string>, f: string -> string) {
    |read| == |values| && forall i :: 0 <= i < |read| ==> f(read[i]) == values[i]
  }

  /** A value text with a semicolon behind it is not read as that value. */
  lemma LongerIsOther(v: string, text: string, f: string -> string)
    requires Folded(v) + ";" <= text && Tame(f)
    ensures f(Unquote(text)) != v
  {
    hide Unquote, Folded;
    var front := Folded(v);
    assert text == front + ";" + text[|front| + 1..];
    CountConcat(front + ";", text[|front| + 1..]);
    CountConcat(front, ";");
    assert Count(";") == 1 by { assert ";"[1..] == []; }
    CountFolded(v);
    CountUnquote(text);
    assert Count(f(Unquote(text))) == Count(Unquote(text));
  }

  /** A parameter read with the next one's text in it has other values. */
  lemma PieceNotLong(key: string, values: seq<string>, tail: string, read: seq<string>, f: string -> string)
    requires '=' !in key && values != [] && tail != "" && tail[0] == ';' && Tame(f)
    requires ParseParam(ParamText(key, FoldedEach(values)) + tail).Ok?
    requires ParseParam(ParamText(key, FoldedEach(values)) + tail).value.1 <= read
    ensures !Rereads(read, values, f)
  {
    hide Folded, Balanced, Unquote, Count, SplitUnquoted;
    var texts := FoldedEach(values);
    var joined := Join(texts, ",");
    assert ParamText(key, texts) + tail == key + ['='] + (joined + tail);
    SplitOnceConcat(key, '=', joined + tail);
    FoldedEachBalanced(values, ',');
    SplitJoinedTail(texts, ',', tail);
    var split := SplitUnquoted(joined + tail, ',').value;
    var last := |values| - 1;
    UnquoteAllAt(split, last);
    assert values[last] in values;
    LongerIsOther(values[last], split[last], f);
    assert read[last] == UnquoteAll(split)[last];
  }

  /** What was read for a key stays at the front of what is read in the end. */
  lemma {:induction false} ParseParamsKeeps(pieces: seq<string>, params: Params, key: string)
    requires ParseParams(pieces, params).Ok? && key in params
    ensures key in ParseParams(pieces, params).value && params[key] <= ParseParams(pieces, params).value[key]
  {
    if pieces != [] {
      var (found, values) := ParseParam(pieces[0]).value;
      ParseParamsKeeps(pieces[1..], Extend(params, found, values), key);
    }
  }

  // ----- aligning the parameters ------------------------------------------

  /** The read parameters, reread, are the written ones. */
  predicate GivesBack(read: Params, params: Params, keys: seq<string>, f: string -> string) {
    forall k :: k in keys ==> k in params && k in read && Rereads(read[k], params[k], f)
  }

  lemma UpperKey(key: string, texts: seq<string>, tail: string)
    requires '=' !in key && IsUpper(key) && ParseParam(ParamText(key, texts) + tail).Ok?
    ensures ParseParam(ParamText(key, texts) + tail).value.0 == key
  {
    hide Unquote, SplitUnquoted, Join, UnquoteAll;
    assert ParamText(key, texts) + tail == key + ['='] + (Join(texts, ",") + tail);
    SplitOnceConcat(key, '=', Join(texts, ",") + tail);
    UpperOfUpper(key);
  }

  /** The first parameter is read from its own text and nothing more. */
  lemma FirstAligned(key: string, values: seq<string>, rest: string, left: string, acc: Params, f: string -> string)
    requires KeyOk(key) && ReadValues(values) && key !in acc && Tame(f)
    requires FirstOf(key, FoldedEach(values), rest, left)
    requires ParseParams(SplitUnquoted(left, ';').value, acc).Ok?
    requires var read := ParseParams(SplitUnquoted(left, ';').value, acc).value; key in read && Rereads(read[key], values, f)
    ensures SplitUnquoted(left, ';').value[0] == ParamText(key, FoldedEach(values))
    ensures ParseParam(ParamText(key, FoldedEach(values))).Ok? && ParseParam(ParamText(key, FoldedEach(values))).value.0 == key
  {
    hide ParseParam, SplitUnquoted, Balanced, IsUpper, Rereads, Tame;
    var piece, pieces := ParamText(key, FoldedEach(values)), SplitUnquoted(left, ';').value;
    FoldedEachBalanced(values, ';');
    FoldedEachBalanced(values, ':');
    PieceNotShort(key, FoldedEach(values), rest, left);
    FirstPiece(left, ';');
    var tail := pieces[0][|piece|..];
    assert pieces[0] == piece + tail;
    UpperKey(key, FoldedEach(values), tail);
    var found := ParseParam(pieces[0]).value.1;
    assert [] + found == found;
    ParseParamsKeeps(pieces[1..], Extend(acc, key, found), key);
    if tail != "" {
      assert tail[0] == (piece + rest)[|piece|] == rest[0];
      PieceNotLong(key, values, tail, ParseParams(pieces, acc).value[key], f);
    }
    assert piece + "" == piece;
  }

  lemma JoinedKeys(keys: seq<string>, texts: Params)
    requires keys != [] && forall k :: k in keys ==> k in texts
    ensures forall k :: k in keys[1..] ==> k in texts
    ensures Join(ParamTexts(keys, texts), ";") == ParamText(keys[0], texts[keys[0]]) +
            (if |keys| == 1 then "" else ";" + Join(ParamTexts(keys[1..], texts), ";"))
  {
    assert forall k :: k in keys[1..] ==> k in keys;
    var pieces := ParamTexts(keys, texts);
    assert pieces[1..] == ParamTexts(keys[1..], texts);
    if |keys| == 1 {
      assert pieces[0] + "" == pieces[0];
    } else {
      ConcatAssociates(pieces[0], ";", Join(pieces[1..], ";"));
    }
  }

  lemma WrittenAt(params: Params, key: string)
    requires ReadParamsOk(params) && key in params
    ensures KeyOk(key) && ReadValues(params[key])
    ensures '=' !in key && ':' !in key && FoldedParams(params)[key] == FoldedEach(params[key])
  {
  }

  /** What has to be read from a list of parameters and nothing before it. */
  ghost predicate Reading(keys: seq<string>, params: Params, left: string, acc: Params, f: string -> string) {
    ReadParamsOk(params) && Tame(f) && keys != [] && Distinct(keys) && (forall k :: k in keys ==> k in params && k !in acc) &&
    CutAtColon(left, Join(ParamTexts(keys, FoldedParams(params)), ";")) &&
    SplitUnquoted(left, ';').Some? && ParseParams(SplitUnquoted(left, ';').value, acc).Ok? &&
    GivesBack(ParseParams(SplitUnquoted(left, ';').value, acc).value, params, keys, f)
  }

  lemma FirstOfList(keys: seq<string>, params: Params, left: string, acc: Params, f: string -> string)
    requires Reading(keys, params, left, acc, f)
    ensures var piece := ParamText(keys[0], FoldedEach(params[keys[0]]));
            SplitUnquoted(left, ';').value[0] == piece && ParseParam(piece).Ok? && ParseParam(piece).value.0 == keys[0]
  {
    hide SplitUnquoted, ParseParam, ParseParams, KeyOk, ReadValues, Rereads, Tame, FoldedParams, Join, ParamText,
         Distinct, ReadParamsOk, CutAtColon;
    var key := keys[0];
    assert key in keys;
    WrittenAt(params, key);
    JoinedKeys(keys, FoldedParams(params));
    var more := if |keys| == 1 then "" else ";" + Join(ParamTexts(keys[1..], FoldedParams(params)), ";");
    FirstAligned(key, params[key], more, left, acc, f);
  }

  lemma LaterKeys(keys: seq<string>, params: Params, acc: Params, values: seq<string>)
    requires |keys| > 1 && Distinct(keys) && forall k :: k in keys ==> k in params && k !in acc
    ensures Distinct(keys[1..]) && forall k :: k in keys[1..] ==> k in params && k !in Extend(acc, keys[0], values)
  {
    forall k | k in keys[1..] ensures k in params && k !in Extend(acc, keys[0], values) {
      var i :| 0 <= i < |keys[1..]| && keys[1..][i] == k;
      assert keys[i + 1] == k && k in keys;
    }
  }

  /** Behind the first parameter the others have to be read. */
  lemma NextReading(keys: seq<string>, params: Params, left: string, acc: Params, f: string -> string, piece: string)
    requires Reading(keys, params, left, acc, f) && |keys| > 1 && SplitUnquoted(left, ';').value[0] == piece
    requires piece == ParamText(keys[0], FoldedEach(params[keys[0]])) && ParseParam(piece).Ok? && ParseParam(piece).value.0 == keys[0]
    ensures |piece| < |left| && left == piece + ";" + left[|piece| + 1..]
    ensures Some(SplitUnquoted(left, ';').value[1..]) == SplitUnquoted(left[|piece| + 1..], ';')
    ensures Reading(keys[1..], params, left[|piece| + 1..], Extend(acc, keys[0], ParseParam(piece).value.1), f)
  {
    hide SplitUnquoted, ParseParam, KeyOk, ReadValues, Rereads, Tame, FoldedParams, Join, ParamText,
         CutAtColon, Balanced, FoldedEach, ReadParamsOk, Distinct, Extend;
    assert keys[0] in keys;
    WrittenAt(params, keys[0]);
    LaterKeys(keys, params, acc, ParseParam(piece).value.1);
    JoinedKeys(keys, FoldedParams(params));
    var tail := Join(ParamTexts(keys[1..], FoldedParams(params)), ";");
    FirstPiece(left, ';');
    CutBehind(piece, tail, left);
    assert keys == [keys[0]] + keys[1..];
  }

  /** A list of parameters that gives back the written ones was cut exactly where they were joined. */
  lemma {:induction false} ParamsAligned(keys: seq<string>, params: Params, left: string, acc: Params, f: string -> string)
    requires Reading(keys, params, left, acc, f)
    ensures left == Join(ParamTexts(keys, FoldedParams(params)), ";")
    ensures SplitUnquoted(left, ';') == Some(ParamTexts(keys, FoldedParams(params)))
    decreases |keys|
  {
    hide SplitUnquoted, ParseParam, KeyOk, ReadValues, Rereads, Tame, FoldedParams, Join, ParamText,
         CutAtColon, Balanced, FoldedEach, ReadParamsOk, GivesBack, Distinct, ParseParams;
    var pieces := SplitUnquoted(left, ';').value;
    FirstOfList(keys, params, left, acc, f);
    assert keys[0] in keys;
    WrittenAt(params, keys[0]);
    JoinedKeys(keys, FoldedParams(params));
    var piece := ParamText(keys[0], FoldedEach(params[keys[0]]));
    assert pieces == [piece] + pieces[1..];
    if |keys| == 1 {
      OnlyPiece(piece, left);
    } else {
      NextReading(keys, params, left, acc, f, piece);
      ParamsAligned(keys[1..], params, left[|piece| + 1..], Extend(acc, keys[0], ParseParam(piece).value.1), f);
      ConcatAssociates(piece, ";", left[|piece| + 1..]);
    }
  }

  lemma OnlyPiece(piece: string, left: string)
    requires SplitUnquoted(left, ';').Some? && SplitUnquoted(left, ';').value[0] == piece && CutAtColon(left, piece + "")
    ensures left == piece + "" && SplitUnquoted(left, ';') == Some([piece])
  {
    FirstPiece(left, ';');
    assert piece + "" == piece;
  }

  lemma CutBehind(front: string, tail: string, left: string)
    requires CutAtColon(left, front + (";" + tail)) && front <= left
    ensures |front| < |left| && left == front + ";" + left[|front| + 1..] && CutAtColon(left[|front| + 1..], tail)
  {
    var head := front + (";" + tail);
    assert head[|front|] == ';' && head[|front| + 1..] == tail;
    var behind := left[|front| + 1..];
    assert |behind| < |tail| ==> head[|left|] == tail[|behind|];
  }

  // ----- the whole head ---------------------------------------------------

  lemma HeadIs(name: string, keys: seq<string>, texts: Params)
    requires forall k :: k in keys ==> k in texts
    ensures HeadText(name, keys, texts) == if keys == [] then name else name + (";" + Join(ParamTexts(keys, texts), ";"))
  {
    var pieces := [name] + ParamTexts(keys, texts);
    if keys != [] {
      assert pieces[1..] == ParamTexts(keys, texts);
      ConcatAssociates(name, ";", Join(pieces[1..], ";"));
    }
  }

  /** A head that gives back its name was cut right behind it, where there are parameters. */
  lemma NameAligned(name: string, more: string, left: string)
    requires ':' !in name && CutAtColon(left, name + more) && (more != "" ==> more[0] == ';')
    requires SplitUnquoted(left, ';').Some? && |SplitUnquoted(left, ';').value[0]| == |name|
    ensures Balanced(name, ';') && SplitUnquoted(left, ';').value[0] == name && name <= left
    ensures more == "" ==> left == name && SplitUnquoted(left, ';') == Some([name])
  {
    FirstPiece(left, ';');
    var first := SplitUnquoted(left, ';').value[0];
    assert first == (name + more)[..|name|] == name;
    if more == "" {
      assert name + more == name;
    }
  }

  lemma HeadPieces(left: string, name: string)
    requires ParseHead(left).Ok? && ParseHead(left).value.0 == name
    ensures SplitUnquoted(left, ';').Some? && |SplitUnquoted(left, ';').value[0]| == |name|
    ensures ParseParams(SplitUnquoted(left, ';').value[1..], map[]) == Ok(ParseHead(left).value.1)
  {
    hide SplitUnquoted, ParseParams;
  }

  /** A head that gives back name and parameters was read whole, and cut where it was joined. */
  lemma HeadAligned(name: string, params: Params, left: string, f: string -> string)
    requires ReadParamsOk(params) && Tame(f) && ':' !in name
    requires CutAtColon(left, HeadText(name, SortedKeys(params.Keys), FoldedParams(params)))
    requires ParseHead(left).Ok? && ParseHead(left).value.0 == name
    requires GivesBack(ParseHead(left).value.1, params, SortedKeys(params.Keys), f)
    ensures left == HeadText(name, SortedKeys(params.Keys), FoldedParams(params)) && Balanced(name, ';')
    ensures SplitUnquoted(left, ';') == Some([name] + ParamTexts(SortedKeys(params.Keys), FoldedParams(params)))
  {
    hide SplitUnquoted, ParseParams, Balanced, SortedKeys, FoldedParams, HeadText, Tame, ReadParamsOk,
         GivesBack, CutAtColon, Join, Distinct, ParseHead;
    var keys, texts := SortedKeys(params.Keys), FoldedParams(params);
    HeadPieces(left, name);
    HeadIs(name, keys, texts);
    if keys == [] {
      assert name + "" == name;
      NameAligned(name, "", left);
      assert ParamTexts(keys, texts) == [] && [name] + [] == [name];
    } else {
      MoreAligned(name, keys, params, left, f);
    }
  }

  lemma MoreAligned(name: string, keys: seq<string>, params: Params, left: string, f: string -> string)
    requires ReadParamsOk(params) && Tame(f) && ':' !in name && keys == SortedKeys(params.Keys) && keys != []
    requires CutAtColon(left, name + (";" + Join(ParamTexts(keys, FoldedParams(params)), ";")))
    requires SplitUnquoted(left, ';').Some? && |SplitUnquoted(left, ';').value[0]| == |name|
    requires ParseParams(SplitUnquoted(left, ';').value[1..], map[]).Ok?
    requires GivesBack(ParseParams(SplitUnquoted(left, ';').value[1..], map[]).value, params, keys, f)
    ensures left == name + (";" + Join(ParamTexts(keys, FoldedParams(params)), ";")) && Balanced(name, ';')
    ensures SplitUnquoted(left, ';') == Some([name] + ParamTexts(keys, FoldedParams(params)))
  {
    hide SplitUnquoted, ParseParams, Balanced, SortedKeys, FoldedParams, Tame, ReadParamsOk, GivesBack, CutAtColon,
         Join, Distinct, ParamTexts, Reading;
    var pieces, tail := SplitUnquoted(left, ';').value, Join(ParamTexts(keys, FoldedParams(params)), ";");
    var behind := NameCut(name, tail, left);
    ReadingStarts(keys, params, behind, f);
    ParamsAligned(keys, params, behind, map[], f);
    assert pieces == [name] + pieces[1..];
  }

  lemma ReadingStarts(keys: seq<string>, params: Params, behind: string, f: string -> string)
    requires ReadParamsOk(params) && Tame(f) && keys == SortedKeys(params.Keys) && keys != []
    requires CutAtColon(behind, Join(ParamTexts(keys, FoldedParams(params)), ";"))
    requires SplitUnquoted(behind, ';').Some? && ParseParams(SplitUnquoted(behind, ';').value, map[]).Ok?
    requires GivesBack(ParseParams(SplitUnquoted(behind, ';').value, map[]).value, params, keys, f)
    ensures Reading(keys, params, behind, map[], f)
  {
    hide SplitUnquoted, ParseParams, SortedKeys, FoldedParams, Tame, ReadParamsOk, GivesBack, CutAtColon, Join, Distinct, ParamTexts;
    SortedDistinct(params.Keys);
  }

  /** The name is the first piece, and the rest of the pieces are those of what stands behind it. */
  lemma NameCut(name: string, tail: string, left: string) returns (behind: string)
    requires ':' !in name && CutAtColon(left, name + (";" + tail))
    requires SplitUnquoted(left, ';').Some? && |SplitUnquoted(left, ';').value[0]| == |name|
    ensures left == name + (";" + behind) && CutAtColon(behind, tail) && Balanced(name, ';')
    ensures SplitUnquoted(left, ';').value[0] == name
    ensures SplitUnquoted(behind, ';') == Some(SplitUnquoted(left, ';').value[1..])
  {
    hide SplitUnquoted, Balanced, CutAtColon;
    NameAligned(name, ";" + tail, left);
    CutBehind(name, tail, left);
    FirstPiece(left, ';');
    behind := left[|name| + 1..];
    ConcatAssociates(name, ";", behind);
  }
}
