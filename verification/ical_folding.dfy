/** What unfolding leaves of one written line whose values hold line feeds and blanks. */
module ICalendarFolding {
  import opened Wrappers
  import opened Text
  import opened PropertyText
  import opened ContentLines
  import opened ICalendar

  // ----- folding one written line -----------------------------------------

  /** A text without its line feeds and without the one blank behind each run of them. `lf` says that
      the text follows a line feed. */
  function Fold(s: string, lf: bool): string {
    if s == [] then ""
    else if s[0] == '\n' then Fold(s[1..], true)
    else if lf && IsBlank(s[0]) then Fold(s[1..], false)
    else [s[0]] + Fold(s[1..], false)
  }

  predicate EndsInLf(s: string, lf: bool) {
    if s == [] then lf else s[|s| - 1] == '\n'
  }

  lemma {:induction false} FoldBoth(a: string, b: string, lf: bool)
    ensures Fold(a + b, lf) == Fold(a, lf) + Fold(b, EndsInLf(a, lf))
  {
    if a == [] {
      assert a + b == b && "" + Fold(b, lf) == Fold(b, lf);
    } else {
      assert (a + b)[1..] == a[1..] + b && (a + b)[0] == a[0];
      if a[0] == '\n' {
        FoldBoth(a[1..], b, true);
        assert EndsInLf(a, lf) == EndsInLf(a[1..], true);
      } else {
        FoldBoth(a[1..], b, false);
        assert EndsInLf(a, lf) == EndsInLf(a[1..], false);
        ConcatAssociates([a[0]], Fold(a[1..], false), Fold(b, EndsInLf(a, lf)));
      }
    }
  }

  predicate Solid(s: string) {
    s != "" && s[0] != '\n' && !IsBlank(s[0])
  }

  /** Before a solid text it does not matter whether a line feed came last. */
  lemma FoldSolid(a: string, b: string, lf: bool)
    requires Solid(b)
    ensures Fold(a + b, lf) == Fold(a, lf) + Fold(b, false)
  {
    FoldBoth(a, b, lf);
  }

  lemma {:induction false} FoldKeeps(s: string, lf: bool)
    ensures '\n' !in s && !lf ==> Fold(s, lf) == s
    ensures |Fold(s, lf)| <= |s|
    ensures |Fold(s, lf)| == |s| ==> '\n' !in s && Fold(s, lf) == s
    ensures forall c :: c in Fold(s, lf) ==> c in s
  {
    if s != [] {
      assert s == [s[0]] + s[1..];
      FoldKeeps(s[1..], true);
      FoldKeeps(s[1..], false);
    }
  }

  /** The first content line of raw lines that follow a line. */
  lemma {:induction false} FoldsOnto(s: string, line: string)
    ensures FoldRaws(Split(s, '\n'), [line]) != []
    ensures FoldRaws(Split(s, '\n'), [line])[0] <= line + Fold(s, true)
    ensures |FoldRaws(Split(s, '\n'), [line])| == 1 ==> FoldRaws(Split(s, '\n'), [line])[0] == line + Fold(s, true)
    decreases |s|
  {
    hide FoldRaws, Split;
    if s == "" {
      FoldFromEnd([line]);
      assert line + "" == line;
    } else if s[0] == '\n' {
      FoldFromFeed(s, [line]);
      FoldsOnto(s[1..], line);
    } else if IsBlank(s[0]) {
      FoldContinued(s, IndexOf(s, '\n'), line);
    } else {
      FoldStartsLine(s, line);
    }
  }

  lemma FoldFromFeed(s: string, lines: seq<string>)
    requires s != "" && s[0] == '\n'
    ensures FoldRaws(Split(s, '\n'), lines) == FoldRaws(Split(s[1..], '\n'), lines)
  {
    assert [""] + Split(s[1..], '\n') == Split(s, '\n');
    assert Split(s, '\n')[1..] == Split(s[1..], '\n');
  }

  lemma FoldFromEnd(lines: seq<string>)
    ensures FoldRaws(Split("", '\n'), lines) == lines
  {
    assert Split("", '\n') == [""] && [""][1..] == [];
  }

  lemma FoldStartsLine(s: string, line: string)
    requires s != "" && s[0] != '\n' && !IsBlank(s[0])
    ensures |FoldRaws(Split(s, '\n'), [line])| > 1
    ensures FoldRaws(Split(s, '\n'), [line])[0] == line
  {
    var raws := Split(s, '\n');
    assert raws[0] != "" && raws[0][0] == s[0];
    FoldKeepsFront(raws[1..], [line], [raws[0]]);
    assert [line] + [raws[0]] == [line, raws[0]];
  }

  lemma RawContinues(s: string, i: nat, line: string)
    requires i == IndexOf(s, '\n') > 0 && IsBlank(s[0])
    ensures FoldRaws(Split(s, '\n'), [line]) ==
            if i == |s| then [line + s[1..]] else FoldRaws(Split(s[i + 1..], '\n'), [line + s[1..i]])
  {
    var front := s[..i];
    var joined := line + front[1..];
    assert [line][..0] + [joined] == [joined] && front[1..] == s[1..i];
    if i == |s| {
      assert front == s && Split(s, '\n') == [s] && [s][1..] == [];
    } else {
      assert Split(s, '\n')[1..] == Split(s[i + 1..], '\n');
    }
  }

  lemma {:induction false} FoldContinued(s: string, i: nat, line: string)
    requires i == IndexOf(s, '\n') > 0 && IsBlank(s[0])
    ensures FoldRaws(Split(s, '\n'), [line]) != []
    ensures FoldRaws(Split(s, '\n'), [line])[0] <= line + Fold(s, true)
    ensures |FoldRaws(Split(s, '\n'), [line])| == 1 ==> FoldRaws(Split(s, '\n'), [line])[0] == line + Fold(s, true)
    decreases |s|, 0
  {
    hide FoldRaws, Split;
    var front := s[1..i];
    RawContinues(s, i, line);
    assert forall c :: c in front ==> c in s[..i];
    if i == |s| {
      assert front == s[1..];
      FoldKeeps(front, false);
    } else {
      var rest := s[i + 1..];
      FoldsOnto(rest, line + front);
      assert s == [s[0]] + (front + ("\n" + rest));
      FoldPast(s[0], front, rest);
      hide Fold;
      ConcatAssociates(line, front, Fold(rest, true));
    }
  }

  lemma FoldPast(blank: char, front: string, rest: string)
    requires IsBlank(blank) && '\n' !in front
    ensures Fold([blank] + (front + ("\n" + rest)), true) == front + Fold(rest, true)
  {
    var tail := "\n" + rest;
    assert ([blank] + (front + tail))[1..] == front + tail;
    assert tail[1..] == rest;
    FoldBoth(front, tail, false);
    FoldKeeps(front, false);
    assert front != "" ==> front[|front| - 1] in front;
  }

  /** The first content line of a written line is the beginning of what folding leaves of it, and all
      of that when it is the only one. */
  lemma FirstIsFold(line: string)
    requires StartsLine(line)
    ensures |UnfoldOne(line)| >= 1 && UnfoldOne(line)[0] <= Fold(line, false)
    ensures |UnfoldOne(line)| == 1 ==> UnfoldOne(line) == [Fold(line, false)]
  {
    var i := IndexOf(line, '\n');
    var front := line[..i];
    UnfoldOneAfter(line, []);
    if i == |line| {
      FoldKeeps(line, false);
    } else {
      var rest := line[i + 1..];
      assert front != "" && front[0] == line[0];
      assert Split(line, '\n')[1..] == Split(rest, '\n') && [] + [front] == [front];
      FoldsOnto(rest, front);
      FoldKeeps(front, false);
      assert line == front + ("\n" + rest);
      FoldBoth(front, "\n" + rest, false);
      assert ("\n" + rest)[1..] == rest;
      assert front[|front| - 1] in front;
    }
  }

  // ----- folding inside written values ------------------------------------

  lemma FoldCode(c: char, lf: bool)
    ensures Fold(CodeOf(c, QuoteCode), lf) == Encode(Fold([c], lf), QuoteCode)
    ensures EndsInLf(CodeOf(c, QuoteCode), lf) == (c == '\n')
  {
    var code := CodeOf(c, QuoteCode);
    assert [c][1..] == [] && Encode([c], QuoteCode) == code + Encode([], QuoteCode) && code + [] == code;
    assert [c] + "" == [c];
    if c in QuoteCode {
      assert code[1..] == [c] && code == [code[0]] + [c];
    }
  }

  lemma EndsInLfConcat(a: string, b: string, lf: bool)
    ensures EndsInLf(a + b, lf) == EndsInLf(b, EndsInLf(a, lf))
  {
    if b == [] {
      assert a + b == a;
    }
  }

  /** Folding removes line feeds and blanks, which quoting leaves alone. */
  lemma {:induction false} FoldEncode(s: string, lf: bool)
    ensures EndsInLf(Encode(s, QuoteCode), lf) == EndsInLf(s, lf)
    ensures Fold(Encode(s, QuoteCode), lf) == Encode(Fold(s, lf), QuoteCode)
  {
    if s != [] {
      var head, rest := CodeOf(s[0], QuoteCode), Encode(s[1..], QuoteCode);
      var next := s[0] == '\n';
      FoldCode(s[0], lf);
      FoldEncode(s[1..], next);
      EndsInLfConcat(head, rest, lf);
      EndsInLfConcat([s[0]], s[1..], lf);
      assert s == [s[0]] + s[1..] && Encode(s, QuoteCode) == head + rest;
      assert EndsInLf([s[0]], lf) == next;
      hide Fold, CodeOf, Encode, EndsInLf;
      FoldBoth(head, rest, lf);
      FoldBoth([s[0]], s[1..], lf);
      EncodeConcat(Fold([s[0]], lf), Fold(s[1..], next), QuoteCode);
    }
  }

  // ----- folding inside a written head ------------------------------------

  lemma FoldSeparated(a: string, separator: char, b: string)
    requires Solid([separator])
    ensures Fold(a + [separator] + b, false) == Fold(a, false) + [separator] + Fold(b, false)
  {
    ConcatAssociates(a, [separator], b);
    assert ([separator] + b)[1..] == b && ([separator] + b)[0] == separator;
    FoldSolid(a, [separator] + b, false);
    ConcatAssociates(Fold(a, false), [separator], Fold(b, false));
  }

  function FoldEach(parts: seq<string>): (folded: seq<string>)
    ensures |folded| == |parts| && forall i :: 0 <= i < |parts| ==> folded[i] == Fold(parts[i], false)
  {
    if parts == [] then [] else [Fold(parts[0], false)] + FoldEach(parts[1..])
  }

  lemma {:induction false} FoldJoin(parts: seq<string>, separator: char)
    requires parts != [] && Solid([separator])
    ensures Fold(Join(parts, [separator]), false) == Join(FoldEach(parts), [separator])
  {
    if |parts| == 1 {
      assert FoldEach(parts) == [Fold(parts[0], false)];
    } else {
      FoldSeparated(parts[0], separator, Join(parts[1..], [separator]));
      FoldJoin(parts[1..], separator);
      assert FoldEach(parts)[1..] == FoldEach(parts[1..]);
    }
  }

  /** What folding leaves of the written form of a parameter value. */
  function Folded(v: string): string {
    if NeedsQuotes(v) then Quote(Fold(v, false)) else Fold(v, false)
  }

  lemma FoldText(v: string)
    ensures Fold(SerializeParameterValue(v), false) == Folded(v)
  {
    if NeedsQuotes(v) {
      QuotedForm(v);
      var code := Encode(v, QuoteCode);
      assert Quote(v) == "\"" + (code + "\"");
      ConcatAssociates("\"", code, "\"");
      FoldSolid("\"" + code, "\"", false);
      FoldBoth("\"", code, false);
      FoldEncode(v, false);
      FoldKeeps("\"", false);
    }
  }

  function FoldedEach(values: seq<string>): (texts: seq<string>)
    ensures |texts| == |values| && forall i :: 0 <= i < |values| ==> texts[i] == Folded(values[i])
  {
    if values == [] then [] else [Folded(values[0])] + FoldedEach(values[1..])
  }
}
