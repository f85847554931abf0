/** The component-aware iCalendar parser and writer: an explicit stack over content lines. */
module ICalendar {
  import opened Wrappers
  import opened Text
  import opened PropertyText
  import opened ContentLines

  datatype Property = Property(name: string, params: Params, value: string)

  datatype Component = Component(name: string, entries: seq<Entry>)

  datatype Entry = PropertyEntry(property: Property) | ComponentEntry(component: Component)

  datatype ParseError =
    | InvalidComponentName
    | EndWithoutBegin
    | MismatchedEnd
    | BadRoot
    | PropertyOutsideComponent
    | MissingColon
    | BadHead(reason: HeadError)
    | Unbalanced
    | MissingRoot

  /** What one content line says. */
  datatype Token = BeginToken(name: string) | EndToken(name: string) | PropertyToken(property: Property)

  // ----- the parser -------------------------------------------------------

  function ComponentName(value: string): Result<string, ParseError> {
    if value == "" || ':' in value || ';' in value then Err(InvalidComponentName) else Ok(Upper(value))
  }

  function UnescapeEach(values: seq<string>): (r: seq<string>)
    ensures |r| == |values|
  {
    if values == [] then [] else [Unescape(values[0])] + UnescapeEach(values[1..])
  }

  function UnescapeParams(params: Params): Params {
    map k | k in params :: UnescapeEach(params[k])
  }

  function LexProperty(line: string): Result<Property, ParseError> {
    match SplitOnce(line, ':')
    case None => Err(MissingColon)
    case Some((left, value)) =>
      match ParseHead(left)
      case Err(e) => Err(BadHead(e))
      case Ok((name, params)) => Ok(Property(name, UnescapeParams(params), Unescape(value)))
  }

  /** The head of a line ends at its first colon. */
  predicate CutAt(line: string, at: nat) {
    at < |line| && line[at] == ':' && ':' !in line[..at]
  }

  lemma CutIs(line: string, at: nat)
    requires CutAt(line, at)
    ensures SplitOnce(line, ':') == Some((line[..at], line[at + 1..]))
  {
    assert line == line[..at] + [':'] + line[at + 1..];
    SplitOnceConcat(line[..at], ':', line[at + 1..]);
  }

  /** A property line says what its head says, with the values of its parameters and what stands behind
      the first colon unescaped; without a colon or a head that is read it is refused. */
  lemma PropertySays(line: string, at: nat)
    ensures ':' !in line ==> LexProperty(line) == Err(MissingColon)
    ensures CutAt(line, at) ==> (LexProperty(line).Ok? <==> ParseHead(line[..at]).Ok?)
    ensures CutAt(line, at) && LexProperty(line).Ok? ==>
              var p, (name, params) := LexProperty(line).value, ParseHead(line[..at]).value;
              p.name == name && p.value == Unescape(line[at + 1..]) && p.params.Keys == params.Keys &&
              forall key, k :: key in params && 0 <= k < |params[key]| ==>
                |p.params[key]| == |params[key]| && p.params[key][k] == Unescape(params[key][k])
  {
    SplitOnceParts(line, ':');
    if CutAt(line, at) {
      CutIs(line, at);
      if ParseHead(line[..at]).Ok? {
        var params := ParseHead(line[..at]).value.1;
        forall key, k | key in params && 0 <= k < |params[key]|
          ensures UnescapeEach(params[key])[k] == Unescape(params[key][k])
        {
          UnescapeEachAt(params[key], k);
        }
      }
    }
  }

  lemma {:induction false} UnescapeEachAt(values: seq<string>, k: nat)
    requires k < |values|
    ensures UnescapeEach(values)[k] == Unescape(values[k])
  {
    if k > 0 {
      UnescapeEachAt(values[1..], k - 1);
    }
  }

  predicate Opens(line: string) { "BEGIN:" <= line }

  predicate Closes(line: string) { "END:" <= line }

  function Lex(line: string): Result<Token, ParseError> {
    if Opens(line) then
      match ComponentName(line[6..])
      case Err(e) => Err(e)
      case Ok(name) => Ok(BeginToken(name))
    else if Closes(line) then
      match ComponentName(line[4..])
      case Err(e) => Err(e)
      case Ok(name) => Ok(EndToken(name))
    else
      match LexProperty(line)
      case Err(e) => Err(e)
      case Ok(property) => Ok(PropertyToken(property))
  }

  datatype State = State(stack: seq<Component>, root: Option<Component>)

  function AddEntry(stack: seq<Component>, entry: Entry): seq<Component>
    requires stack != []
  {
    var top := stack[|stack| - 1];
    stack[..|stack| - 1] + [Component(top.name, top.entries + [entry])]
  }

  function StepToken(s: State, token: Token): Result<State, ParseError> {
    match token
    case BeginToken(name) => Ok(s.(stack := s.stack + [Component(name, [])]))
    case EndToken(name) =>
      if s.stack == [] then Err(EndWithoutBegin)
      else
        var component, rest := s.stack[|s.stack| - 1], s.stack[..|s.stack| - 1];
        if component.name != name then Err(MismatchedEnd)
        else if rest != [] then Ok(s.(stack := AddEntry(rest, ComponentEntry(component))))
        else if component.name == "VCALENDAR" && s.root == None then Ok(State(rest, Some(component)))
        else Err(BadRoot)
    case PropertyToken(property) =>
      if s.stack == [] then Err(PropertyOutsideComponent)
      else Ok(s.(stack := AddEntry(s.stack, PropertyEntry(property))))
  }

  function StepLine(s: State, line: string): Result<State, ParseError> {
    if !Opens(line) && !Closes(line) && s.stack == [] then Err(PropertyOutsideComponent)
    else
      match Lex(line)
      case Err(e) => Err(e)
      case Ok(token) => StepToken(s, token)
  }

  function Finish(s: State): Result<Component, ParseError> {
    if s.stack != [] then Err(Unbalanced)
    else match s.root
         case None => Err(MissingRoot)
         case Some(component) => Ok(component)
  }

  function ParseLines(lines: seq<string>, s: State): Result<Component, ParseError> {
    if lines == [] then Finish(s)
    else
      match StepLine(s, lines[0])
      case Err(e) => Err(e)
      case Ok(next) => ParseLines(lines[1..], next)
  }

  const Start: State := State([], None)

  /** `Calendar::parse`; the calendar is its one component. */
  function Parse(input: string): Result<Component, ParseError> {
    ParseLines(Unfold(input), Start)
  }

  method LexPropertyLoop(line: string) returns (r: Result<Property, ParseError>)
    ensures r == LexProperty(line)
  {
    match SplitOnce(line, ':')
    case None => r := Err(MissingColon);
    case Some((left, value)) =>
      var head := ParseHeadLoop(left);
      match head {
        case Err(e) => r := Err(BadHead(e));
        case Ok((name, params)) =>
          var text := UnescapeLoop(value);
          r := Ok(Property(name, UnescapeParams(params), text));
      }
  }

  method ParseLoop(input: string) returns (r: Result<Component, ParseError>)
    ensures r == Parse(input)
  {
    var stack: seq<Component> := [];
    var root: Option<Component> := None;
    var lines := UnfoldLoop(input);
    for k := 0 to |lines|
      invariant ParseLines(lines[k..], State(stack, root)) == Parse(input)
    {
      var line := lines[k];
      assert lines[k..][0] == line && lines[k..][1..] == lines[k + 1..];
      if Opens(line) {
        var name := ComponentName(line[6..]);
        if name.Err? { return Err(name.error); }
        stack := stack + [Component(name.value, [])];
        continue;
      }
      if Closes(line) {
        var name := ComponentName(line[4..]);
        if name.Err? { return Err(name.error); }
        if stack == [] { return Err(EndWithoutBegin); }
        var component := stack[|stack| - 1];
        stack := stack[..|stack| - 1];
        if component.name != name.value { return Err(MismatchedEnd); }
        if stack != [] {
          var parent := stack[|stack| - 1];
          stack := stack[..|stack| - 1] + [Component(parent.name, parent.entries + [ComponentEntry(component)])];
        } else if component.name == "VCALENDAR" && root == None {
          root := Some(component);
        } else {
          return Err(BadRoot);
        }
        continue;
      }
      if stack == [] { return Err(PropertyOutsideComponent); }
      var property := LexPropertyLoop(line);
      if property.Err? { return Err(property.error); }
      var current := stack[|stack| - 1];
      stack := stack[..|stack| - 1] + [Component(current.name, current.entries + [PropertyEntry(property.value)])];
    }
    assert lines[|lines|..] == [];
    if stack != [] { return Err(Unbalanced); }
    if root.None? { return Err(MissingRoot); }
    return Ok(root.value);
  }

  // ----- the writer -------------------------------------------------------

  function SerializeEach(values: seq<string>): (r: seq<string>)
    ensures |r| == |values|
  {
    if values == [] then [] else [SerializeParameterValue(values[0])] + SerializeEach(values[1..])
  }

  function SerializeParams(params: Params): (r: Params)
    ensures r.Keys == params.Keys
  {
    map k | k in params :: SerializeEach(params[k])
  }

  function PropertyLine(p: Property): string {
    HeadText(p.name, SortedKeys(p.params.Keys), SerializeParams(p.params)) + ":" + SerializePropertyValue(p.name, p.value)
  }

  /** `write_component`, as the text it appends. */
  function ComponentText(c: Component): string
    decreases c, 1
  {
    "BEGIN:" + c.name + "\r\n" + EntriesText(c.entries) + "END:" + c.name + "\r\n"
  }

  function EntriesText(entries: seq<Entry>): string
    decreases entries, 0
  {
    if entries == [] then "" else EntryText(entries[0]) + EntriesText(entries[1..])
  }

  function EntryText(entry: Entry): string
    decreases entry, 0
  {
    match entry
    case PropertyEntry(property) => PropertyLine(property) + "\r\n"
    case ComponentEntry(component) => ComponentText(component)
  }

  /** `Calendar::serialize`. */
  function Serialize(c: Component): string {
    ComponentText(c)
  }

  // ----- trees and their token lists --------------------------------------

  /** The lines of a component tree, in writing order. */
  function Flatten(c: Component): seq<Token>
    decreases c, 1
  {
    [BeginToken(c.name)] + FlattenEntries(c.entries) + [EndToken(c.name)]
  }

  function FlattenEntries(entries: seq<Entry>): seq<Token>
    decreases entries, 0
  {
    if entries == [] then [] else FlattenEntry(entries[0]) + FlattenEntries(entries[1..])
  }

  function FlattenEntry(entry: Entry): seq<Token>
    decreases entry, 0
  {
    match entry
    case PropertyEntry(property) => [PropertyToken(property)]
    case ComponentEntry(component) => Flatten(component)
  }

  function Run(tokens: seq<Token>, s: State): Result<Component, ParseError> {
    if tokens == [] then Finish(s)
    else
      match StepToken(s, tokens[0])
      case Err(e) => Err(e)
      case Ok(next) => Run(tokens[1..], next)
  }

  lemma {:induction false} RunStep(token: Token, rest: seq<Token>, s: State)
    ensures StepToken(s, token).Ok? ==> Run([token] + rest, s) == Run(rest, StepToken(s, token).value)
  {
    assert ([token] + rest)[1..] == rest;
  }

  /** Reading a component's lines up to its END leaves it complete on top of the stack. */
  lemma {:induction false} RunBody(c: Component, rest: seq<Token>, s: State)
    ensures Run(Flatten(c) + rest, s) == Run([EndToken(c.name)] + rest, s.(stack := s.stack + [c]))
    decreases c, 1
  {
    var inner := FlattenEntries(c.entries);
    var close := [EndToken(c.name)] + rest;
    ConcatAssociates([BeginToken(c.name)] + inner, [EndToken(c.name)], rest);
    ConcatAssociates([BeginToken(c.name)], inner, close);
    RunStep(BeginToken(c.name), inner + close, s);
    RunEntries(c.entries, close, s.stack, Component(c.name, []), s.root);
    assert [] + c.entries == c.entries;
  }

  /** Reading a subtree's lines appends that subtree to the open component, whatever follows. */
  lemma {:induction false} RunComponent(c: Component, rest: seq<Token>, s: State)
    requires s.stack != []
    ensures Run(Flatten(c) + rest, s) == Run(rest, s.(stack := AddEntry(s.stack, ComponentEntry(c))))
    decreases c, 2
  {
    RunBody(c, rest, s);
    RunStep(EndToken(c.name), rest, State(s.stack + [c], s.root));
    assert (s.stack + [c])[..|s.stack|] == s.stack;
  }

  lemma {:induction false} RunEntries(entries: seq<Entry>, rest: seq<Token>, below: seq<Component>, open: Component, root: Option<Component>)
    ensures Run(FlattenEntries(entries) + rest, State(below + [open], root))
              == Run(rest, State(below + [Component(open.name, open.entries + entries)], root))
    decreases entries, 0
  {
    if entries == [] {
      assert open.entries + [] == open.entries && [] + rest == rest;
    } else {
      var s := State(below + [open], root);
      var more := FlattenEntries(entries[1..]) + rest;
      ConcatAssociates(FlattenEntry(entries[0]), FlattenEntries(entries[1..]), rest);
      var next := Component(open.name, open.entries + [entries[0]]);
      assert (below + [open])[..|below|] == below;
      RunEntry(entries[0], more, s);
      RunEntries(entries[1..], rest, below, next, root);
      ConcatAssociates(open.entries, [entries[0]], entries[1..]);
      assert [entries[0]] + entries[1..] == entries;
    }
  }

  lemma {:induction false} RunEntry(entry: Entry, rest: seq<Token>, s: State)
    requires s.stack != []
    ensures Run(FlattenEntry(entry) + rest, s) == Run(rest, s.(stack := AddEntry(s.stack, entry)))
    decreases entry, 0
  {
    match entry
    case PropertyEntry(property) => RunStep(PropertyToken(property), rest, s);
    case ComponentEntry(component) => RunComponent(component, rest, s);
  }

  /** The lines of a VCALENDAR tree parse to exactly that tree. */
  lemma {:induction false} RunFlattened(c: Component)
    requires c.name == "VCALENDAR"
    ensures Run(Flatten(c), Start) == Ok(c)
  {
    hide Flatten;
    RunBody(c, [], Start);
    RunStep(EndToken(c.name), [], State([c], None));
    assert Flatten(c) + [] == Flatten(c) && [] + [c] == [c];
    assert StepToken(State([c], None), EndToken(c.name)) == Ok(State([], Some(c)));
  }

  // ----- every accepted token list is a flattened tree ---------------------

  function OpenTokens(stack: seq<Component>): seq<Token> {
    if stack == [] then []
    else OpenTokens(stack[..|stack| - 1]) + [BeginToken(stack[|stack| - 1].name)]
         + FlattenEntries(stack[|stack| - 1].entries)
  }

  /** The tokens that a parser state has read. */
  function ReadTokens(s: State): seq<Token> {
    RootTokens(s) + OpenTokens(s.stack)
  }

  function RootTokens(s: State): seq<Token> {
    match s.root
    case None => []
    case Some(c) => Flatten(c)
  }

  lemma {:induction false} FlattenAppend(entries: seq<Entry>, entry: Entry)
    ensures FlattenEntries(entries + [entry]) == FlattenEntries(entries) + FlattenEntry(entry)
  {
    if entries == [] {
      assert [] + [entry] == [entry];
      assert FlattenEntries([entry][1..]) == [];
    } else {
      assert (entries + [entry])[1..] == entries[1..] + [entry];
      FlattenAppend(entries[1..], entry);
      ConcatAssociates(FlattenEntry(entries[0]), FlattenEntries(entries[1..]), FlattenEntry(entry));
    }
  }

  lemma {:induction false} OpenTokensAdd(stack: seq<Component>, entry: Entry)
    requires stack != []
    ensures OpenTokens(AddEntry(stack, entry)) == OpenTokens(stack) + FlattenEntry(entry)
  {
    var top, below := stack[|stack| - 1], stack[..|stack| - 1];
    var added := AddEntry(stack, entry);
    assert added[..|added| - 1] == below;
    FlattenAppend(top.entries, entry);
    ConcatAssociates(OpenTokens(below) + [BeginToken(top.name)], FlattenEntries(top.entries), FlattenEntry(entry));
  }

  predicate RootIsCalendar(s: State) {
    s.root.Some? ==> s.root.value.name == "VCALENDAR"
  }

  lemma {:induction false} StepReads(s: State, token: Token)
    requires StepToken(s, token).Ok? && RootIsCalendar(s)
    ensures ReadTokens(StepToken(s, token).value) == ReadTokens(s) + [token]
    ensures RootIsCalendar(StepToken(s, token).value)
  {
    var next := StepToken(s, token).value;
    if token.EndToken? {
      StepReadsEnd(s, token.name);
    } else {
      assert OpenTokens(next.stack) == OpenTokens(s.stack) + [token] by {
        if token.BeginToken? {
          var added := Component(token.name, []);
          assert (s.stack + [added])[..|s.stack|] == s.stack;
          assert OpenTokens(s.stack) + [token] + [] == OpenTokens(s.stack) + [token];
        } else {
          OpenTokensAdd(s.stack, PropertyEntry(token.property));
        }
      }
      ConcatAssociates(RootTokens(s), OpenTokens(s.stack), [token]);
    }
  }

  lemma {:induction false} StepReadsEnd(s: State, name: string)
    requires StepToken(s, EndToken(name)).Ok?
    ensures ReadTokens(StepToken(s, EndToken(name)).value) == ReadTokens(s) + [EndToken(name)]
  {
    var c, below := s.stack[|s.stack| - 1], s.stack[..|s.stack| - 1];
    assert s.stack == below + [c];
    if below != [] {
      CloseInside(below, c, s.root);
    } else {
      CloseRoot(c);
    }
  }

  lemma {:induction false} CloseInside(below: seq<Component>, c: Component, root: Option<Component>)
    requires below != []
    ensures ReadTokens(State(AddEntry(below, ComponentEntry(c)), root))
              == ReadTokens(State(below + [c], root)) + [EndToken(c.name)]
  {
    ClosedTokens(below, c);
    OpenTokensAdd(below, ComponentEntry(c));
    ConcatAssociates(RootTokens(State(below + [c], root)), OpenTokens(below + [c]), [EndToken(c.name)]);
  }

  lemma {:induction false} CloseRoot(c: Component)
    ensures ReadTokens(State([], Some(c))) == ReadTokens(State([] + [c], None)) + [EndToken(c.name)]
  {
    ClosedTokens([], c);
    assert [] + OpenTokens([] + [c]) == OpenTokens([] + [c]);
    assert [] + Flatten(c) == Flatten(c) + [];
  }

  lemma {:induction false} ClosedTokens(below: seq<Component>, c: Component)
    ensures OpenTokens(below + [c]) + [EndToken(c.name)] == OpenTokens(below) + Flatten(c)
  {
    assert (below + [c])[..|below|] == below;
    var open, inner, close := OpenTokens(below), FlattenEntries(c.entries), [EndToken(c.name)];
    ConcatAssociates(open, [BeginToken(c.name)], inner);
    ConcatAssociates(open, [BeginToken(c.name)] + inner, close);
  }

  /** Parsing is the inverse of flattening: an accepted token list is the flattening of the result. */
  lemma {:induction false} RunInverts(tokens: seq<Token>, s: State, c: Component)
    requires Run(tokens, s) == Ok(c) && RootIsCalendar(s)
    ensures ReadTokens(s) + tokens == Flatten(c) && c.name == "VCALENDAR"
  {
    if tokens == [] {
      assert OpenTokens(s.stack) == [];
      assert Flatten(c) + [] == Flatten(c);
    } else {
      var next := StepToken(s, tokens[0]).value;
      StepReads(s, tokens[0]);
      RunInverts(tokens[1..], next, c);
      ConcatAssociates(ReadTokens(s), [tokens[0]], tokens[1..]);
      assert [tokens[0]] + tokens[1..] == tokens;
    }
  }

  /** The stack parser accepts exactly the flattened VCALENDAR trees, each as itself. */
  lemma {:induction false} RunAccepts(tokens: seq<Token>, c: Component)
    ensures Run(tokens, Start) == Ok(c) <==> c.name == "VCALENDAR" && tokens == Flatten(c)
  {
    if Run(tokens, Start) == Ok(c) {
      RunInverts(tokens, Start, c);
      assert [] + tokens == tokens && ReadTokens(Start) == [];
    }
    if c.name == "VCALENDAR" && tokens == Flatten(c) {
      RunFlattened(c);
    }
  }
}
