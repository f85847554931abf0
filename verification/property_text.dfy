/** Property heads and values of iCalendar and vCard lines: quote-aware splitting, quoting and
    escaping. The loops over characters are methods, proved against recursive functions. */
module PropertyText {
  import opened Wrappers
  import opened Text

  type Params = map<string, seq<string>>

  datatype HeadError = UnterminatedQuote | EmptyName | InvalidParameter | EmptyParameter | EmptyParameterValue

  // ----- scanning quotes --------------------------------------------------

  /** The two flags of `split_unquoted`. */
  datatype Scan = Scan(quoted: bool, escaped: bool)

  const Outside: Scan := Scan(false, false)
  const Inside: Scan := Scan(true, false)

  function Step(st: Scan, c: char): Scan {
    if st.escaped then Scan(st.quoted, false)
    else if c == '\\' && st.quoted then Scan(true, true)
    else if c == '"' then Scan(!st.quoted, false)
    else st
  }

  predicate Cuts(st: Scan, c: char, delimiter: char) {
    !st.escaped && !st.quoted && c != '"' && c == delimiter
  }

  function ScanAll(s: string, st: Scan): Scan {
    if s == [] then st else ScanAll(s[1..], Step(st, s[0]))
  }

  /** Scanning `s` from `st` meets no unquoted delimiter. */
  predicate Uncut(s: string, st: Scan, delimiter: char) {
    s == [] || (!Cuts(st, s[0], delimiter) && Uncut(s[1..], Step(st, s[0]), delimiter))
  }

  function SplitFrom(s: string, delimiter: char, st: Scan, current: string): (r: Option<seq<string>>)
    ensures r.Some? ==> |r.value| > 0
  {
    if s == [] then if st.quoted then None else Some([current])
    else if Cuts(st, s[0], delimiter) then
      match SplitFrom(s[1..], delimiter, st, "")
      case None => None
      case Some(rest) => Some([current] + rest)
    else SplitFrom(s[1..], delimiter, Step(st, s[0]), current + [s[0]])
  }

  /** `split_unquoted`: `None` for an unterminated quote. */
  function SplitUnquoted(s: string, delimiter: char): (r: Option<seq<string>>)
    ensures r.Some? ==> |r.value| > 0
  {
    SplitFrom(s, delimiter, Outside, "")
  }

  function Prepend(front: seq<string>, r: Option<seq<string>>): Option<seq<string>> {
    match r
    case None => None
    case Some(parts) => Some(front + parts)
  }

  method SplitUnquotedLoop(input: string, delimiter: char) returns (r: Option<seq<string>>)
    ensures r == SplitUnquoted(input, delimiter)
  {
    var result: seq<string> := [];
    var current := "";
    var quoted, escaped := false, false;
    assert input[0..] == input;
    assert forall parts: seq<string> {:trigger [] + parts} :: [] + parts == parts;
    for k := 0 to |input|
      invariant SplitUnquoted(input, delimiter) ==
                Prepend(result, SplitFrom(input[k..], delimiter, Scan(quoted, escaped), current))
    {
      var character := input[k];
      assert input[k..][0] == character && input[k..][1..] == input[k + 1..];
      if escaped {
        current := current + [character];
        escaped := false;
        continue;
      }
      if character == '\\' && quoted {
        current := current + [character];
        escaped := true;
        continue;
      }
      if character == '"' {
        quoted := !quoted;
        current := current + [character];
      } else if character == delimiter && !quoted {
        ghost var rest := SplitFrom(input[k + 1..], delimiter, Outside, "");
        assert rest.Some? ==> result + ([current] + rest.value) == result + [current] + rest.value;
        result := result + [current];
        current := "";
      } else {
        current := current + [character];
      }
    }
    if quoted {
      return None;
    }
    return Some(result + [current]);
  }

  lemma {:induction false} ScanConcat(a: string, b: string, st: Scan)
    ensures ScanAll(a + b, st) == ScanAll(b, ScanAll(a, st))
  {
    if a == [] {
      assert a + b == b;
    } else {
      assert (a + b)[1..] == a[1..] + b;
      ScanConcat(a[1..], b, Step(st, a[0]));
    }
  }

  lemma {:induction false} UncutConcat(a: string, b: string, st: Scan, delimiter: char)
    ensures Uncut(a + b, st, delimiter) <==> Uncut(a, st, delimiter) && Uncut(b, ScanAll(a, st), delimiter)
  {
    if a == [] {
      assert a + b == b;
    } else {
      assert (a + b)[1..] == a[1..] + b;
      UncutConcat(a[1..], b, Step(st, a[0]), delimiter);
    }
  }

  lemma {:induction false} SplitFromUncut(a: string, b: string, delimiter: char, st: Scan, current: string)
    requires Uncut(a, st, delimiter)
    ensures SplitFrom(a + b, delimiter, st, current) == SplitFrom(b, delimiter, ScanAll(a, st), current + a)
  {
    if a == [] {
      assert a + b == b && current + a == current;
    } else {
      assert (a + b)[1..] == a[1..] + b;
      SplitFromUncut(a[1..], b, delimiter, Step(st, a[0]), current + [a[0]]);
      assert current + [a[0]] + a[1..] == current + a;
    }
  }

  /** A balanced piece: scanned from outside quotes it ends outside quotes and is not cut. */
  predicate Balanced(s: string, delimiter: char) {
    Uncut(s, Outside, delimiter) && ScanAll(s, Outside) == Outside
  }

  lemma SplitBalanced(a: string, b: string, delimiter: char)
    requires Balanced(a, delimiter) && delimiter != '"'
    ensures SplitUnquoted(a, delimiter) == Some([a])
    ensures SplitUnquoted(a + [delimiter] + b, delimiter) ==
            match SplitUnquoted(b, delimiter)
            case None => None
            case Some(rest) => Some([a] + rest)
  {
    SplitFromUncut(a, "", delimiter, Outside, "");
    assert a + "" == a && "" + a == a;
    SplitFromUncut(a, [delimiter] + b, delimiter, Outside, "");
    assert a + [delimiter] + b == a + ([delimiter] + b);
    assert ([delimiter] + b)[1..] == b;
  }

  /** A text that ends inside quotes is refused, wherever it is split. */
  lemma {:induction false} SplitOpenQuote(s: string, delimiter: char, st: Scan, current: string)
    requires ScanAll(s, st).quoted && delimiter != '"'
    ensures SplitFrom(s, delimiter, st, current).None?
  {
    if s != [] {
      if Cuts(st, s[0], delimiter) {
        assert Step(st, s[0]) == st;
        SplitOpenQuote(s[1..], delimiter, st, "");
      } else {
        SplitOpenQuote(s[1..], delimiter, Step(st, s[0]), current + [s[0]]);
      }
    }
  }

  /** Text without quotes: scanning it outside quotes changes nothing. */
  lemma {:induction false} PlainScan(s: string, delimiter: char)
    requires '"' !in s
    ensures ScanAll(s, Outside) == Outside
    ensures delimiter !in s ==> Balanced(s, delimiter)
  {
    if s != [] {
      assert s[0] in s;
      assert forall c :: c in s[1..] ==> c in s;
      PlainScan(s[1..], delimiter);
    }
  }

  /** Where a split cuts first: behind `k` characters, outside quotes, or nowhere. */
  lemma {:induction false} FirstCut(s: string, delimiter: char, st: Scan, current: string) returns (k: nat)
    requires SplitFrom(s, delimiter, st, current).Some? && delimiter != '"'
    ensures k <= |s| && Uncut(s[..k], st, delimiter)
    ensures SplitFrom(s, delimiter, st, current).value[0] == current + s[..k]
    ensures k == |s| ==> SplitFrom(s, delimiter, st, current) == Some([current + s]) && !ScanAll(s, st).quoted
    ensures k < |s| ==> s[k] == delimiter && ScanAll(s[..k], st) == Outside
    ensures k < |s| ==> Some(SplitFrom(s, delimiter, st, current).value[1..]) == SplitUnquoted(s[k + 1..], delimiter)
  {
    if s == [] {
      k := 0;
      assert current + [] == current;
    } else if Cuts(st, s[0], delimiter) {
      k := 0;
      assert current + [] == current;
    } else {
      var j := FirstCut(s[1..], delimiter, Step(st, s[0]), current + [s[0]]);
      k := j + 1;
      assert s[..k] == [s[0]] + s[1..][..j] && s[..k][1..] == s[1..][..j];
      assert current + [s[0]] + s[1..][..j] == current + s[..k];
      assert current + [s[0]] + s[1..] == current + s;
      if j < |s[1..]| {
        assert s[1..][j + 1..] == s[k + 1..];
      }
    }
  }

  /** Without an open quote nothing is escaped. */
  lemma {:induction false} EscapedIsQuoted(s: string, st: Scan)
    requires st.escaped ==> st.quoted
    ensures ScanAll(s, st).escaped ==> ScanAll(s, st).quoted
  {
    if s != [] {
      EscapedIsQuoted(s[1..], Step(st, s[0]));
    }
  }

  /** The first piece of a split is balanced, and a delimiter or the end follows it. */
  lemma FirstPiece(s: string, delimiter: char)
    requires SplitUnquoted(s, delimiter).Some? && delimiter != '"'
    ensures var pieces := SplitUnquoted(s, delimiter).value;
            pieces[0] <= s && Balanced(pieces[0], delimiter) &&
            (|pieces[0]| == |s| ==> pieces == [s]) &&
            (|pieces[0]| < |s| ==>
              s[|pieces[0]|] == delimiter && Some(pieces[1..]) == SplitUnquoted(s[|pieces[0]| + 1..], delimiter))
  {
    var k := FirstCut(s, delimiter, Outside, "");
    assert "" + s[..k] == s[..k] && "" + s == s;
    EscapedIsQuoted(s, Outside);
    assert k == |s| ==> s[..k] == s;
  }

  // ----- quoting parameter values -----------------------------------------

  const QuoteCode: map<char, string> := map['\\' := "\\\\", '"' := "\\\""]

  predicate NeedsQuotes(value: string) {
    exists c :: c in value && c in {',', ';', ':', '"', ' ', '\t'}
  }

  function SerializeParameterValue(value: string): string {
    if NeedsQuotes(value) then
      "\"" + Replace(Replace(value, "\\", "\\\\"), "\"", "\\\"") + "\""
    else value
  }

  function Quote(value: string): string {
    "\"" + Encode(value, QuoteCode) + "\""
  }

  lemma QuotedForm(value: string)
    ensures "\"" + Replace(Replace(value, "\\", "\\\\"), "\"", "\\\"") + "\"" == Quote(value)
    ensures forall c :: CodeOf(c, QuoteCode) == if c == '\\' then "\\\\" else if c == '"' then "\\\"" else [c]
  {
    EncodeNothing(value);
    EncodePass(value, map[], '\\', "\\\\");
    var one := map[]['\\' := "\\\\"];
    assert '"' !in one['\\'];
    EncodePass(value, one, '"', "\\\"");
    assert one['"' := "\\\""] == QuoteCode;
  }

  /** Exactly which parameter values are quoted: those with a comma, a semicolon, a colon, a quote, a
      space or a tab. The others are written as they are. */
  lemma ParameterWritten(value: string)
    ensures SerializeParameterValue(value) ==
            if ',' in value || ';' in value || ':' in value || '"' in value || ' ' in value || '\t' in value
            then Quote(value) else value
  {
    QuotedForm(value);
  }

  /** Inside quotes, coded text neither closes the quote nor is cut. */
  lemma {:induction false} CodedScan(value: string, delimiter: char)
    ensures ScanAll(Encode(value, QuoteCode), Inside) == Inside
    ensures Uncut(Encode(value, QuoteCode), Inside, delimiter)
  {
    if value != [] {
      CodedScan(value[1..], delimiter);
      var head, rest := CodeOf(value[0], QuoteCode), Encode(value[1..], QuoteCode);
      CodedCharScan(value[0], delimiter);
      ScanConcat(head, rest, Inside);
      UncutConcat(head, rest, Inside, delimiter);
    }
  }

  lemma CodedCharScan(c: char, delimiter: char)
    ensures ScanAll(CodeOf(c, QuoteCode), Inside) == Inside
    ensures Uncut(CodeOf(c, QuoteCode), Inside, delimiter)
  {
    var code := CodeOf(c, QuoteCode);
    if c in QuoteCode {
      assert code[1..][1..] == [] && code == [code[0]] + code[1..];
      assert ScanAll(code[1..], Scan(true, true)) == ScanAll(code[1..][1..], Inside);
      assert Uncut(code[1..], Scan(true, true), delimiter);
    } else {
      assert code[1..] == [];
    }
  }

  lemma QuoteBalanced(value: string, delimiter: char)
    requires delimiter != '"'
    ensures Balanced(Quote(value), delimiter)
  {
    var code := Encode(value, QuoteCode);
    CodedScan(value, delimiter);
    assert Quote(value) == "\"" + (code + "\"");
    ScanConcat("\"", code + "\"", Outside);
    UncutConcat("\"", code + "\"", Outside, delimiter);
    ScanConcat(code, "\"", Inside);
    UncutConcat(code, "\"", Inside, delimiter);
    QuoteMark(delimiter);
  }

  lemma QuoteMark(delimiter: char)
    requires delimiter != '"'
    ensures ScanAll("\"", Outside) == Inside && ScanAll("\"", Inside) == Outside
    ensures Uncut("\"", Outside, delimiter) && Uncut("\"", Inside, delimiter)
  {
    var q := "\"";
    assert q[1..] == [];
    assert ScanAll(q[1..], Inside) == Inside && ScanAll(q[1..], Outside) == Outside;
  }

  // ----- unquoting --------------------------------------------------------

  /** The inner loop of `unquote`: a backslash keeps the next character. */
  function DecodeQuoted(s: string): string
    decreases |s|
  {
    if s == [] then []
    else if s[0] == '\\' then
      if |s| > 1 then [s[1]] + DecodeQuoted(s[2..]) else "\\"
    else [s[0]] + DecodeQuoted(s[1..])
  }

  function Unquote(text: string): string {
    UnquoteTrimmed(Trim(text))
  }

  function UnquoteTrimmed(value: string): string {
    if |value| >= 2 && value[0] == '"' && value[|value| - 1] == '"' then DecodeQuoted(value[1..|value| - 1])
    else value
  }

  method UnquoteLoop(text: string) returns (r: string)
    ensures r == Unquote(text)
  {
    r := UnquoteTrimmedLoop(Trim(text));
  }

  method UnquoteTrimmedLoop(value: string) returns (r: string)
    ensures r == UnquoteTrimmed(value)
  {
    if |value| >= 2 && value[0] == '"' && value[|value| - 1] == '"' {
      r := DecodeLoop(value[1..|value| - 1]);
    } else {
      r := value;
    }
  }

  method DecodeLoop(inner: string) returns (decoded: string)
    ensures decoded == DecodeQuoted(inner)
  {
    hide DecodeQuoted;
    decoded := "";
    var k := 0;
    assert inner[0..] == inner;
    while k < |inner|
      invariant k <= |inner|
      invariant DecodeQuoted(inner) == decoded + DecodeQuoted(inner[k..])
    {
      ghost var before, from := decoded, k;
      if inner[k] == '\\' && k + 1 < |inner| {
        k := k + 2;
      } else {
        k := k + 1;
      }
      decoded := decoded + [inner[k - 1]];
      DecodeStep(inner, from, k);
      ConcatAssociates(before, [inner[k - 1]], DecodeQuoted(inner[k..]));
    }
    NothingDecodes(inner, k, decoded);
  }

  lemma NothingDecodes(inner: string, k: nat, decoded: string)
    requires k == |inner|
    ensures decoded + DecodeQuoted(inner[k..]) == decoded
  {
    assert inner[k..] == "" && decoded + "" == decoded;
  }

  lemma DecodeStep(s: string, from: nat, next: nat)
    requires from < |s| && next == if s[from] == '\\' && from + 1 < |s| then from + 2 else from + 1
    ensures DecodeQuoted(s[from..]) == [s[next - 1]] + DecodeQuoted(s[next..])
  {
    var t := s[from..];
    assert t[0] == s[from] && t[1..] == s[from + 1..];
    if next == from + 2 {
      assert t[2..] == s[next..] && t[1] == s[from + 1];
    } else if s[from] == '\\' {
      assert |t| == 1 && s[next..] == [];
    }
  }

  lemma {:induction false} DecodeEncoded(value: string)
    ensures DecodeQuoted(Encode(value, QuoteCode)) == value
  {
    if value != [] {
      DecodeEncoded(value[1..]);
      var head, rest := CodeOf(value[0], QuoteCode), Encode(value[1..], QuoteCode);
      if value[0] in QuoteCode {
        assert (head + rest)[0] == '\\' && (head + rest)[1] == value[0] && (head + rest)[2..] == rest;
      } else {
        assert (head + rest)[0] == value[0] && (head + rest)[1..] == rest;
      }
      assert value == [value[0]] + value[1..];
    }
  }

  lemma UnquoteQuoted(value: string)
    ensures Unquote(Quote(value)) == value
  {
    var q := Quote(value);
    assert q[1..|q| - 1] == Encode(value, QuoteCode);
    assert Trim(q) == q;
    DecodeEncoded(value);
  }

  // ----- escaping property values -----------------------------------------

  const ValueCode: map<char, string> := map['\\' := "\\\\", '\n' := "\\n", ',' := "\\,", ';' := "\\;"]

  /** The properties whose values are printed as they are. */
  const RawNames: set<string> := {"CATEGORIES", "EXDATE", "FREEBUSY", "RDATE", "RRULE"}

  function SerializePropertyValue(name: string, value: string): string {
    if name in RawNames then value
    else Replace(Replace(Replace(Replace(value, "\\", "\\\\"), "\n", "\\n"), ",", "\\,"), ";", "\\;")
  }

  /** Exactly five properties are printed as they are. */
  lemma PrintedRaw(name: string)
    ensures name in RawNames <==>
            name == "CATEGORIES" || name == "EXDATE" || name == "FREEBUSY" || name == "RDATE" || name == "RRULE"
  {
  }

  lemma EscapedForm(name: string, value: string)
    requires name !in RawNames
    ensures SerializePropertyValue(name, value) == Encode(value, ValueCode)
    ensures forall c :: CodeOf(c, ValueCode) ==
              if c == '\\' then "\\\\" else if c == '\n' then "\\n" else if c == ',' then "\\," else if c == ';' then "\\;" else [c]
  {
    var one := map['\\' := "\\\\"];
    var two := one['\n' := "\\n"];
    var three := two[',' := "\\,"];
    EncodeNothing(value);
    EncodePass(value, map[], '\\', "\\\\");
    assert map[]['\\' := "\\\\"] == one;
    EncodePass(value, one, '\n', "\\n");
    EncodePass(value, two, ',', "\\,");
    EncodePass(value, three, ';', "\\;");
    assert three[';' := "\\;"] == ValueCode;
  }

  /** `unescape`, the same function in the iCalendar and the vCard parser. */
  function Unescape(s: string): (r: string)
    ensures |r| <= |s|
    decreases |s|
  {
    if s == [] then []
    else if s[0] == '\\' then
      if |s| == 1 then "\\"
      else [if s[1] == 'n' || s[1] == 'N' then '\n' else s[1]] + Unescape(s[2..])
    else [s[0]] + Unescape(s[1..])
  }

  method UnescapeLoop(value: string) returns (output: string)
    ensures output == Unescape(value)
  {
    output := "";
    var k := 0;
    assert value[0..] == value;
    while k < |value|
      invariant k <= |value|
      invariant Unescape(value) == output + Unescape(value[k..])
    {
      var character := value[k];
      ghost var before, from := output, k;
      k := k + 1;
      if character == '\\' && k < |value| {
        character := if value[k] == 'n' || value[k] == 'N' then '\n' else value[k];
        k := k + 1;
      }
      output := output + [character];
      UnescapeStep(value, from, k);
      assert before + ([character] + Unescape(value[k..])) == output + Unescape(value[k..]);
    }
  }

  lemma UnescapeStep(s: string, from: nat, next: nat)
    requires from < |s| && next == if s[from] == '\\' && from + 1 < |s| then from + 2 else from + 1
    ensures Unescape(s[from..]) ==
            [if next == from + 2 && (s[from + 1] == 'n' || s[from + 1] == 'N') then '\n' else s[next - 1]]
            + Unescape(s[next..])
  {
    var t := s[from..];
    assert t[0] == s[from] && t[1..] == s[from + 1..];
    if next == from + 2 {
      assert t[2..] == s[next..] && t[1] == s[from + 1];
    } else if s[from] == '\\' {
      assert |t| == 1 && s[next..] == [];
    }
  }

  lemma {:induction false} UnescapeEncoded(value: string)
    ensures Unescape(Encode(value, ValueCode)) == value
  {
    if value != [] {
      UnescapeEncoded(value[1..]);
      var head, rest := CodeOf(value[0], ValueCode), Encode(value[1..], ValueCode);
      if value[0] in ValueCode {
        assert (head + rest)[0] == '\\' && (head + rest)[1] == head[1] && (head + rest)[2..] == rest;
      } else {
        assert (head + rest)[0] == value[0] && (head + rest)[1..] == rest;
      }
      assert value == [value[0]] + value[1..];
    }
  }

  /** No backslash before the last character. */
  predicate EscapeFree(s: string) {
    |s| > 0 ==> '\\' !in s[..|s| - 1]
  }

  /** `unescape` leaves exactly the escape-free texts alone. */
  lemma {:induction false} UnescapeFixes(s: string)
    ensures Unescape(s) == s <==> EscapeFree(s)
    ensures !EscapeFree(s) ==> |Unescape(s)| < |s|
    decreases |s|
  {
    if s != [] {
      assert s == [s[0]] + s[1..];
      if |s| > 1 {
        assert s[..|s| - 1] == [s[0]] + s[1..][..|s| - 2];
        UnescapeFixes(s[1..]);
      }
    }
  }

  // ----- what backslashes mean --------------------------------------------

  /** A character, or a backslash with the character behind it; a backslash alone only at the end. */
  predicate IsToken(t: string, last: bool) {
    (|t| == 1 && (t[0] != '\\' || last)) || (|t| == 2 && t[0] == '\\')
  }

  /** What a token stands for: the character behind the backslash, or itself; in property values `n`
      and `N` stand for a line end. */
  function Meaning(t: string, lineEnds: bool): char
    requires t != ""
  {
    if lineEnds && (t == "\\n" || t == "\\N") then '\n' else t[|t| - 1]
  }

  predicate Tokenizes(s: string, tokens: seq<string>) {
    s == Join(tokens, "") && forall k :: 0 <= k < |tokens| ==> IsToken(tokens[k], k == |tokens| - 1)
  }

  /** The text is made of tokens, and this is what they stand for, one after the other. */
  ghost predicate Means(s: string, r: string, lineEnds: bool) {
    exists tokens :: Tokenizes(s, tokens) && |r| == |tokens| &&
                     forall k :: 0 <= k < |tokens| ==> r[k] == Meaning(tokens[k], lineEnds)
  }

  lemma TokenFirst(s: string, tokens: seq<string>)
    requires Tokenizes(s, tokens) && tokens != []
    ensures s == tokens[0] + Join(tokens[1..], "") && Tokenizes(s[|tokens[0]|..], tokens[1..])
    ensures IsToken(tokens[0], |tokens| == 1) && (|tokens| > 1 ==> Join(tokens[1..], "") != "")
  {
    assert tokens == [tokens[0]] + tokens[1..];
    assert forall k :: 1 <= k < |tokens| ==> tokens[k] == tokens[1..][k - 1];
    if |tokens| == 1 {
      assert tokens[0] + "" == tokens[0];
    } else {
      assert tokens[0] + "" == tokens[0] && IsToken(tokens[1], 1 == |tokens| - 1);
      var rest := tokens[1..];
      if |rest| > 1 {
        assert Join(rest, "") == rest[0] + "" + Join(rest[1..], "");
      }
    }
  }

  /** Tokens determine what both readers make of a text. */
  lemma {:induction false} TokensAreRead(s: string, tokens: seq<string>)
    requires Tokenizes(s, tokens)
    ensures |Unescape(s)| == |DecodeQuoted(s)| == |tokens|
    ensures forall k :: 0 <= k < |tokens| ==>
              Unescape(s)[k] == Meaning(tokens[k], true) && DecodeQuoted(s)[k] == Meaning(tokens[k], false)
    decreases |tokens|
  {
    if tokens == [] {
      assert s == "";
    } else {
      var first, rest := tokens[0], tokens[1..];
      TokenFirst(s, tokens);
      var tail := s[|first|..];
      TokensAreRead(tail, rest);
      assert s[0] == first[0] && (|first| == 2 ==> s[1] == first[1]);
      assert |first| == 1 && first[0] == '\\' ==> s == first;
      assert |first| == 1 ==> s[1..] == tail;
      assert |first| == 2 ==> s[2..] == tail;
      assert Unescape(s) == [Meaning(first, true)] + Unescape(tail);
      assert DecodeQuoted(s) == [Meaning(first, false)] + DecodeQuoted(tail);
    }
  }

  lemma {:induction false} TokensOf(s: string) returns (tokens: seq<string>)
    ensures Tokenizes(s, tokens)
    decreases |s|
  {
    if s == "" {
      tokens := [];
    } else {
      var n := if s[0] == '\\' && |s| > 1 then 2 else 1;
      var rest := TokensOf(s[n..]);
      tokens := [s[..n]] + rest;
      assert tokens[1..] == rest && s == s[..n] + s[n..];
      if rest == [] {
        assert s[n..] == "" && s[..n] == s;
      } else {
        assert s[..n] + "" == s[..n];
        assert forall k :: 0 < k < |tokens| ==> tokens[k] == rest[k - 1];
      }
    }
  }

  /** `unescape` gives exactly what the tokens of a value stand for, line ends included. */
  lemma UnescapeMeans(s: string, r: string)
    ensures Unescape(s) == r <==> Means(s, r, true)
  {
    var tokens := TokensOf(s);
    TokensAreRead(s, tokens);
    if Means(s, r, true) {
      var found :| Tokenizes(s, found) && |r| == |found| &&
                   forall k :: 0 <= k < |found| ==> r[k] == Meaning(found[k], true);
      TokensAreRead(s, found);
    }
  }

  /** Between quotes a backslash makes the next character, whatever it is, part of the value. */
  lemma DecodeMeans(s: string, r: string)
    ensures DecodeQuoted(s) == r <==> Means(s, r, false)
  {
    var tokens := TokensOf(s);
    TokensAreRead(s, tokens);
    if Means(s, r, false) {
      var found :| Tokenizes(s, found) && |r| == |found| &&
                   forall k :: 0 <= k < |found| ==> r[k] == Meaning(found[k], false);
      TokensAreRead(s, found);
    }
  }

  // ----- property heads ---------------------------------------------------

  function UnquoteAll(texts: seq<string>): (values: seq<string>)
    ensures |values| == |texts|
  {
    if texts == [] then [] else [Unquote(texts[0])] + UnquoteAll(texts[1..])
  }

  lemma {:induction false} UnquoteAllAt(texts: seq<string>, i: nat)
    requires i < |texts|
    ensures UnquoteAll(texts)[i] == Unquote(texts[i])
  {
    if i > 0 {
      UnquoteAllAt(texts[1..], i - 1);
    }
  }

  function ParseParam(piece: string): Result<(string, seq<string>), HeadError> {
    match SplitOnce(piece, '=')
    case None => Err(InvalidParameter)
    case Some((key, raw)) =>
      if key == "" || raw == "" then Err(EmptyParameter)
      else
        match SplitUnquoted(raw, ',')
        case None => Err(UnterminatedQuote)
        case Some(texts) =>
          var values := UnquoteAll(texts);
          if "" in values then Err(EmptyParameterValue) else Ok((Upper(key), values))
  }

  /** `entry(key).or_insert_with(Vec::new).extend(values)`. */
  function Extend(params: Params, key: string, values: seq<string>): Params {
    params[key := (if key in params then params[key] else []) + values]
  }

  function ParseParams(pieces: seq<string>, params: Params): Result<Params, HeadError> {
    if pieces == [] then Ok(params)
    else
      match ParseParam(pieces[0])
      case Err(e) => Err(e)
      case Ok((key, values)) => ParseParams(pieces[1..], Extend(params, key, values))
  }

  /** `parse_property_head`. */
  function ParseHead(left: string): Result<(string, Params), HeadError> {
    match SplitUnquoted(left, ';')
    case None => Err(UnterminatedQuote)
    case Some(pieces) =>
      if pieces[0] == "" then Err(EmptyName)
      else
        match ParseParams(pieces[1..], map[])
        case Err(e) => Err(e)
        case Ok(params) => Ok((Upper(pieces[0]), params))
  }

  method ParseParamLoop(param: string) returns (r: Result<(string, seq<string>), HeadError>)
    ensures r == ParseParam(param)
  {
    match SplitOnce(param, '=')
    case None => r := Err(InvalidParameter);
    case Some((key, raw)) =>
      if key == "" || raw == "" { return Err(EmptyParameter); }
      var split := SplitUnquotedLoop(raw, ',');
      if split.None? { return Err(UnterminatedQuote); }
      var texts := split.value;
      var values: seq<string> := [];
      for k := 0 to |texts|
        invariant |values| == k && forall i :: 0 <= i < k ==> values[i] == Unquote(texts[i])
      {
        var value := UnquoteLoop(texts[k]);
        values := values + [value];
      }
      forall k | 0 <= k < |texts| ensures values[k] == UnquoteAll(texts)[k] {
        UnquoteAllAt(texts, k);
      }
      assert values == UnquoteAll(texts);
      if "" in values { return Err(EmptyParameterValue); }
      r := Ok((Upper(key), values));
  }

  method ParseHeadLoop(left: string) returns (r: Result<(string, Params), HeadError>)
    ensures r == ParseHead(left)
  {
    var split := SplitUnquotedLoop(left, ';');
    if split.None? { return Err(UnterminatedQuote); }
    var pieces := split.value;
    if pieces[0] == "" { return Err(EmptyName); }
    var params: Params := map[];
    for k := 1 to |pieces|
      invariant ParseParams(pieces[1..], map[]) == ParseParams(pieces[k..], params)
    {
      assert pieces[k..][0] == pieces[k] && pieces[k..][1..] == pieces[k + 1..];
      var param := ParseParamLoop(pieces[k]);
      if param.Err? { return Err(param.error); }
      params := Extend(params, param.value.0, param.value.1);
    }
    assert pieces[|pieces|..] == [];
    return Ok((Upper(pieces[0]), params));
  }

  // ----- what a head says -------------------------------------------------

  function ValuesAt(params: Params, key: string): seq<string> {
    if key in params then params[key] else []
  }

  /** A parameter gives values to a key: it is `key=`, in capitals or small letters, with the values
      behind it, separated by commas and without their quotes. */
  predicate Gives(piece: string, key: string, values: seq<string>) {
    exists at :: 0 < at < |piece| - 1 && piece[at] == '=' && '=' !in piece[..at] && Upper(piece[..at]) == key &&
                 SplitUnquoted(piece[at + 1..], ',') != None &&
                 values == UnquoteAll(SplitUnquoted(piece[at + 1..], ',').value) && "" !in values
  }

  ghost predicate GivesAny(piece: string) {
    exists key, values :: Gives(piece, key, values)
  }

  /** What the parameters give to a key, one after the other. */
  ghost function GivenTo(pieces: seq<string>, key: string): seq<string> {
    if pieces == [] then []
    else (if values :| Gives(pieces[0], key, values) then values else []) + GivenTo(pieces[1..], key)
  }

  lemma GivesOnce(piece: string, key: string, a: seq<string>, other: string, b: seq<string>)
    requires Gives(piece, key, a) && Gives(piece, other, b)
    ensures key == other && a == b
  {
  }

  lemma ParamGives(piece: string)
    ensures ParseParam(piece).Ok? ==> Gives(piece, ParseParam(piece).value.0, ParseParam(piece).value.1)
    ensures ParseParam(piece).Err? ==> !GivesAny(piece)
  {
    SplitOnceParts(piece, '=');
  }

  lemma GivenFirst(pieces: seq<string>, key: string, found: string, given: seq<string>)
    requires pieces != [] && Gives(pieces[0], found, given)
    ensures GivenTo(pieces, key) == (if key == found then given else []) + GivenTo(pieces[1..], key)
    ensures (exists values :: Gives(pieces[0], key, values)) <==> key == found
  {
    forall values | Gives(pieces[0], key, values) ensures key == found && values == given {
      GivesOnce(pieces[0], key, values, found, given);
    }
    hide Gives;
  }

  /** Over any list of parameters: what a key had, and behind it what they give to it, in order. */
  lemma {:induction false} ParamsRegroup(pieces: seq<string>, params: Params, key: string)
    requires ParseParams(pieces, params).Ok?
    ensures ValuesAt(ParseParams(pieces, params).value, key) == ValuesAt(params, key) + GivenTo(pieces, key)
    ensures key in ParseParams(pieces, params).value <==>
            key in params || exists k :: 0 <= k < |pieces| && exists values :: Gives(pieces[k], key, values)
  {
    hide Gives, ParseParam;
    if pieces == [] {
      assert ValuesAt(params, key) + [] == ValuesAt(params, key);
    } else {
      var (found, given) := ParseParam(pieces[0]).value;
      var rest, next := pieces[1..], Extend(params, found, given);
      ParamGives(pieces[0]);
      ParamsRegroup(rest, next, key);
      GivenFirst(pieces, key, found, given);
      if key == found {
        ConcatAssociates(ValuesAt(params, key), given, GivenTo(rest, key));
      } else {
        assert [] + GivenTo(rest, key) == GivenTo(rest, key);
      }
      if k :| 0 <= k < |pieces| && exists values :: Gives(pieces[k], key, values) {
        assert k > 0 ==> pieces[k] == rest[k - 1];
      }
      if k :| 0 <= k < |rest| && exists values :: Gives(rest[k], key, values) {
        assert pieces[k + 1] == rest[k];
      }
    }
  }

  lemma {:induction false} ParamsAccepted(pieces: seq<string>, params: Params)
    ensures ParseParams(pieces, params).Ok? <==> forall k :: 0 <= k < |pieces| ==> GivesAny(pieces[k])
  {
    hide Gives, ParseParam;
    if pieces != [] {
      ParamGives(pieces[0]);
      if ParseParam(pieces[0]).Ok? {
        var (found, values) := ParseParam(pieces[0]).value;
        ParamsAccepted(pieces[1..], Extend(params, found, values));
        assert forall k :: 1 <= k < |pieces| ==> pieces[k] == pieces[1..][k - 1];
      }
    }
  }

  /** Exactly which property heads are read: no quote stays open, there is a name, and everything else
      between semicolons gives values to a key. */
  lemma HeadAccepted(left: string)
    ensures ParseHead(left).Ok? <==>
            SplitUnquoted(left, ';').Some? && SplitUnquoted(left, ';').value[0] != "" &&
            forall k :: 1 <= k < |SplitUnquoted(left, ';').value| ==> GivesAny(SplitUnquoted(left, ';').value[k])
  {
    hide GivesAny;
    if SplitUnquoted(left, ';').Some? {
      var pieces := SplitUnquoted(left, ';').value;
      ParamsAccepted(pieces[1..], map[]);
      assert forall k :: 1 <= k < |pieces| ==> pieces[k] == pieces[1..][k - 1];
    }
  }

  /** Whatever head is read: a key has the values of all parameters with that key, up to case, in the
      order of the head; and there are no other keys. */
  lemma HeadRegroups(left: string, key: string)
    requires ParseHead(left).Ok?
    ensures var (name, params) := ParseHead(left).value;
            var pieces := SplitUnquoted(left, ';').value;
            name == Upper(pieces[0]) && ValuesAt(params, key) == GivenTo(pieces[1..], key) &&
            (key in params <==> exists k :: 1 <= k < |pieces| && exists values :: Gives(pieces[k], key, values))
  {
    hide Gives;
    var pieces := SplitUnquoted(left, ';').value;
    ParamsRegroup(pieces[1..], map[], key);
    assert [] + GivenTo(pieces[1..], key) == GivenTo(pieces[1..], key);
    assert forall k :: 1 <= k < |pieces| ==> pieces[k] == pieces[1..][k - 1];
    assert forall k :: 0 <= k < |pieces| - 1 ==> pieces[1..][k] == pieces[k + 1];
  }

  // ----- parsing back what was written ------------------------------------

  function ParamText(key: string, texts: seq<string>): string {
    key + "=" + Join(texts, ",")
  }

  function ParamTexts(keys: seq<string>, texts: Params): (pieces: seq<string>)
    requires forall k :: k in keys ==> k in texts
    ensures |pieces| == |keys|
    ensures forall i :: 0 <= i < |keys| ==> pieces[i] == ParamText(keys[i], texts[keys[i]])
  {
    if keys == [] then [] else [ParamText(keys[0], texts[keys[0]])] + ParamTexts(keys[1..], texts)
  }

  /** A property head as it is written, from value texts that are already quoted where needed. */
  function HeadText(name: string, keys: seq<string>, texts: Params): string
    requires forall k :: k in keys ==> k in texts
  {
    Join([name] + ParamTexts(keys, texts), ";")
  }

  lemma {:induction false} SplitJoined(parts: seq<string>, delimiter: char)
    requires |parts| > 0 && delimiter != '"' && forall p :: p in parts ==> Balanced(p, delimiter)
    ensures SplitUnquoted(Join(parts, [delimiter]), delimiter) == Some(parts)
  {
    assert parts == [parts[0]] + parts[1..] && Balanced(parts[0], delimiter);
    if |parts| == 1 {
      SplitBalanced(parts[0], "", delimiter);
      assert parts == [parts[0]];
    } else {
      assert forall p :: p in parts[1..] ==> p in parts;
      SplitJoined(parts[1..], delimiter);
      SplitBalanced(parts[0], Join(parts[1..], [delimiter]), delimiter);
    }
  }

  /** Joined pieces with something behind them: all but the last are split off as they are, and the
      last begins its own. */
  lemma {:induction false} SplitJoinedTail(parts: seq<string>, delimiter: char, tail: string)
    requires parts != [] && delimiter != '"' && forall p :: p in parts ==> Balanced(p, delimiter)
    requires tail != "" && tail[0] != delimiter && tail[0] != '"'
    requires SplitUnquoted(Join(parts, [delimiter]) + tail, delimiter).Some?
    ensures var split := SplitUnquoted(Join(parts, [delimiter]) + tail, delimiter).value;
            |split| >= |parts| && parts[|parts| - 1] + [tail[0]] <= split[|parts| - 1]
  {
    var all := Join(parts, [delimiter]) + tail;
    assert parts[0] in parts && forall p :: p in parts[1..] ==> p in parts;
    if |parts| == 1 {
      TailBegins(parts[0], delimiter, tail);
    } else {
      var rest := Join(parts[1..], [delimiter]);
      ConcatAssociates(parts[0] + [delimiter], rest, tail);
      SplitBalanced(parts[0], rest + tail, delimiter);
      SplitJoinedTail(parts[1..], delimiter, tail);
    }
  }

  lemma TailBegins(part: string, delimiter: char, tail: string)
    requires delimiter != '"' && Balanced(part, delimiter) && tail != "" && tail[0] != delimiter && tail[0] != '"'
    requires SplitUnquoted(part + tail, delimiter).Some?
    ensures part + [tail[0]] <= SplitUnquoted(part + tail, delimiter).value[0]
  {
    SplitFromUncut(part, tail, delimiter, Outside, "");
    var k := FirstCut(tail, delimiter, Outside, "" + part);
    assert "" + part == part;
    assert k > 0 && (part + tail[..k])[..|part| + 1] == part + [tail[0]];
  }

  /** Texts from which one value each can be read back. */
  predicate Readable(texts: seq<string>) {
    |texts| > 0 && forall t :: t in texts ==> Balanced(t, ',') && Unquote(t) != ""
  }

  lemma ParseWrittenParam(key: string, texts: seq<string>)
    requires key != "" && '=' !in key && IsUpper(key) && Readable(texts)
    ensures ParseParam(ParamText(key, texts)) == Ok((key, UnquoteAll(texts)))
  {
    var raw := Join(texts, ",");
    SplitOnceConcat(key, '=', raw);
    assert texts[0] in texts;
    assert Unquote("") == "";
    assert texts[0] != "" && raw != "";
    SplitJoined(texts, ',');
    UpperOfUpper(key);
    var values := UnquoteAll(texts);
    forall i | 0 <= i < |values| ensures values[i] != "" {
      assert texts[i] in texts;
      UnquoteAllAt(texts, i);
    }
  }

  function ReadParams(keys: seq<string>, texts: Params): Params
    requires forall k :: k in keys ==> k in texts
  {
    map k | k in keys :: UnquoteAll(texts[k])
  }

  predicate Distinct(keys: seq<string>) {
    forall i, j :: 0 <= i < j < |keys| ==> keys[i] != keys[j]
  }

  predicate WritableKey(k: string, texts: Params) {
    k in texts && k != "" && '=' !in k && IsUpper(k) && Readable(texts[k]) && Balanced(ParamText(k, texts[k]), ';')
  }

  predicate WritableKeys(keys: seq<string>, texts: Params) {
    Distinct(keys) && forall k :: k in keys ==> WritableKey(k, texts)
  }

  /** What reading a list of good pieces adds to the parameters read so far. */
  function ExtendAll(params: Params, found: seq<(string, seq<string>)>): Params
    decreases |found|
  {
    if found == [] then params else ExtendAll(Extend(params, found[0].0, found[0].1), found[1..])
  }

  lemma {:induction false} ParseGoodParams(pieces: seq<string>, found: seq<(string, seq<string>)>, params: Params)
    requires |pieces| == |found| && forall i :: 0 <= i < |pieces| ==> ParseParam(pieces[i]) == Ok(found[i])
    ensures ParseParams(pieces, params) == Ok(ExtendAll(params, found))
  {
    if pieces != [] {
      assert ParseParam(pieces[0]) == Ok(found[0]);
      ParseGoodParams(pieces[1..], found[1..], Extend(params, found[0].0, found[0].1));
    }
  }

  function PairsOf(keys: seq<string>, values: Params): (pairs: seq<(string, seq<string>)>)
    requires forall k :: k in keys ==> k in values
    ensures |pairs| == |keys|
    ensures forall i :: 0 <= i < |keys| ==> pairs[i] == (keys[i], values[keys[i]])
  {
    if keys == [] then [] else [(keys[0], values[keys[0]])] + PairsOf(keys[1..], values)
  }

  function Restrict(keys: seq<string>, values: Params): Params
    requires forall k :: k in keys ==> k in values
  {
    map k | k in keys :: values[k]
  }

  lemma ExtendNew(params: Params, key: string, values: seq<string>, more: Params)
    requires key !in params && key !in more
    ensures Extend(params, key, values) + more == params + more[key := values]
  {
    assert [] + values == values;
  }

  lemma RestrictStep(keys: seq<string>, values: Params)
    requires |keys| > 0 && forall k :: k in keys ==> k in values
    ensures Restrict(keys, values) == Restrict(keys[1..], values)[keys[0] := values[keys[0]]]
  {
    assert keys == [keys[0]] + keys[1..];
  }

  lemma {:induction false} ExtendDistinct(keys: seq<string>, values: Params, params: Params)
    requires Distinct(keys) && forall k :: k in keys ==> k in values && k !in params
    ensures ExtendAll(params, PairsOf(keys, values)) == params + Restrict(keys, values)
  {
    if keys == [] {
      assert params + Restrict(keys, values) == params;
    } else {
      var key, rest := keys[0], keys[1..];
      assert keys == [key] + rest && key !in rest;
      assert PairsOf(keys, values)[1..] == PairsOf(rest, values);
      ExtendDistinct(rest, values, Extend(params, key, values[key]));
      RestrictStep(keys, values);
      ExtendNew(params, key, values[key], Restrict(rest, values));
    }
  }

  /** Every piece reads as its key's values. */
  predicate PiecesRead(pieces: seq<string>, keys: seq<string>, values: Params) {
    |pieces| == |keys| && forall i :: 0 <= i < |keys| ==>
      keys[i] in values && ParseParam(pieces[i]) == Ok((keys[i], values[keys[i]]))
  }

  lemma ParseWrittenPieces(keys: seq<string>, texts: Params)
    requires WritableKeys(keys, texts)
    ensures Distinct(keys) && PiecesRead(ParamTexts(keys, texts), keys, ReadParams(keys, texts))
  {
    forall i | 0 <= i < |keys|
      ensures ParseParam(ParamTexts(keys, texts)[i]) == Ok((keys[i], ReadParams(keys, texts)[keys[i]]))
    {
      assert WritableKey(keys[i], texts);
      ParseWrittenParam(keys[i], texts[keys[i]]);
    }
  }

  lemma ReadPieces(pieces: seq<string>, keys: seq<string>, values: Params)
    requires Distinct(keys) && PiecesRead(pieces, keys, values)
    ensures ParseParams(pieces, map[]) == Ok(Restrict(keys, values))
  {
    assert forall k :: k in keys ==> k in values;
    var found := PairsOf(keys, values);
    assert ParseParams(pieces, map[]) == Ok(ExtendAll(map[], found)) by {
      forall i | 0 <= i < |pieces| ensures ParseParam(pieces[i]) == Ok(found[i]) {
        assert found[i] == (keys[i], values[keys[i]]);
      }
      ParseGoodParams(pieces, found, map[]);
    }
    assert ExtendAll(map[], found) == Restrict(keys, values) by {
      ExtendDistinct(keys, values, map[]);
      assert map[] + Restrict(keys, values) == Restrict(keys, values);
    }
  }

  lemma SplitWrittenHead(name: string, keys: seq<string>, texts: Params)
    requires Balanced(name, ';') && forall k :: k in keys ==> k in texts && Balanced(ParamText(k, texts[k]), ';')
    ensures SplitUnquoted(HeadText(name, keys, texts), ';') == Some([name] + ParamTexts(keys, texts))
  {
    var params := ParamTexts(keys, texts);
    forall p | p in [name] + params ensures Balanced(p, ';') {
      if p in params {
        var i :| 0 <= i < |params| && params[i] == p;
        assert p == ParamText(keys[i], texts[keys[i]]) && keys[i] in keys;
      }
    }
    SplitJoined([name] + params, ';');
  }

  lemma ParseHeadOf(left: string, name: string, pieces: seq<string>, params: Params)
    requires SplitUnquoted(left, ';') == Some([name] + pieces) && name != ""
    requires ParseParams(pieces, map[]) == Ok(params)
    ensures ParseHead(left) == Ok((Upper(name), params))
  {
    assert ([name] + pieces)[1..] == pieces;
  }

  lemma ReadWrittenParams(keys: seq<string>, texts: Params)
    requires WritableKeys(keys, texts)
    ensures ParseParams(ParamTexts(keys, texts), map[]) == Ok(ReadParams(keys, texts))
  {
    ParseWrittenPieces(keys, texts);
    ReadPieces(ParamTexts(keys, texts), keys, ReadParams(keys, texts));
    assert Restrict(keys, ReadParams(keys, texts)) == ReadParams(keys, texts);
  }

  /** Reading a written head returns its name and the decoded values of every parameter. */
  lemma ParseWrittenHead(name: string, keys: seq<string>, texts: Params)
    requires name != "" && IsUpper(name) && Balanced(name, ';') && WritableKeys(keys, texts)
    ensures ParseHead(HeadText(name, keys, texts)) == Ok((name, ReadParams(keys, texts)))
  {
    SplitWrittenHead(name, keys, texts);
    ReadWrittenParams(keys, texts);
    ParseHeadOf(HeadText(name, keys, texts), name, ParamTexts(keys, texts), ReadParams(keys, texts));
    assert Upper(name) == name by { UpperOfUpper(name); }
  }
}
