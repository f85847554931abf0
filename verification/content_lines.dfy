/** Content lines (section 3.1 of RFC 5545, section 3.2 of RFC 6350): line ends, folding, and the
    lines that writers put on the wire. The iCalendar and the vCard parser unfold alike. */
module ContentLines {
  import opened Text

  predicate IsBlank(c: char) {
    c == ' ' || c == '\t'
  }

  function NormalizeLineEnds(input: string): string {
    Replace(Replace(input, "\r\n", "\n"), "\r", "\n")
  }

  /** One pass over the raw lines: empty ones vanish, a leading blank continues the previous line. */
  function FoldRaws(raws: seq<string>, lines: seq<string>): seq<string> {
    if raws == [] then lines
    else if raws[0] == "" then FoldRaws(raws[1..], lines)
    else if IsBlank(raws[0][0]) && lines != [] then
      FoldRaws(raws[1..], lines[..|lines| - 1] + [lines[|lines| - 1] + raws[0][1..]])
    else FoldRaws(raws[1..], lines + [raws[0]])
  }

  function Unfold(input: string): seq<string> {
    FoldRaws(Split(NormalizeLineEnds(input), '\n'), [])
  }

  method UnfoldLoop(input: string) returns (result: seq<string>)
    ensures result == Unfold(input)
  {
    var raws := Split(NormalizeLineEnds(input), '\n');
    result := [];
    for k := 0 to |raws|
      invariant FoldRaws(raws[k..], result) == Unfold(input)
    {
      var raw := raws[k];
      assert raws[k..][0] == raw && raws[k..][1..] == raws[k + 1..];
      if raw == "" {
        continue;
      }
      if IsBlank(raw[0]) && result != [] {
        result := result[..|result| - 1] + [result[|result| - 1] + raw[1..]];
      } else {
        result := result + [raw];
      }
    }
  }

  // ----- what unfolding yields --------------------------------------------

  /** Non-empty lines without line ends, and none but the first led by a blank. */
  predicate AreLines(lines: seq<string>) {
    (forall l :: l in lines ==> l != "" && '\r' !in l && '\n' !in l) &&
    forall i :: 0 < i < |lines| ==> lines[i] != "" && !IsBlank(lines[i][0])
  }

  lemma {:induction false} FoldedAreLines(raws: seq<string>, lines: seq<string>)
    requires AreLines(lines) && forall r :: r in raws ==> '\r' !in r && '\n' !in r
    ensures AreLines(FoldRaws(raws, lines))
  {
    if raws != [] {
      hide AreLines;
      var raw := raws[0];
      assert raw in raws && forall r :: r in raws[1..] ==> r in raws;
      var next := if raw == "" then lines
                  else if IsBlank(raw[0]) && lines != [] then lines[..|lines| - 1] + [lines[|lines| - 1] + raw[1..]]
                  else lines + [raw];
      if raw != "" {
        if IsBlank(raw[0]) && lines != [] {
          LongerLine(lines, raw[1..]);
        } else {
          AnotherLine(lines, raw);
        }
      }
      FoldedAreLines(raws[1..], next);
    }
  }

  lemma LongerLine(lines: seq<string>, more: string)
    requires AreLines(lines) && lines != [] && '\r' !in more && '\n' !in more
    ensures AreLines(lines[..|lines| - 1] + [lines[|lines| - 1] + more])
  {
    var n := |lines| - 1;
    var last, next := lines[n], lines[..n] + [lines[n] + more];
    assert last in lines && forall l :: l in lines[..n] ==> l in lines;
    assert (last + more)[0] == last[0];
    forall i | 0 < i < |next| ensures next[i] != "" && !IsBlank(next[i][0]) {
      if i < n {
        assert next[i] == lines[i];
      }
    }
  }

  lemma AnotherLine(lines: seq<string>, line: string)
    requires AreLines(lines) && line != "" && '\r' !in line && '\n' !in line && (IsBlank(line[0]) ==> lines == [])
    ensures AreLines(lines + [line])
  {
    var next := lines + [line];
    forall i | 0 < i < |next| ensures next[i] != "" && !IsBlank(next[i][0]) {
      if i < |lines| {
        assert next[i] == lines[i];
      }
    }
  }

  lemma UnfoldedAreLines(input: string)
    ensures AreLines(Unfold(input))
  {
    var text := NormalizeLineEnds(input);
    ReplaceRemoves(Replace(input, "\r\n", "\n"), '\r', "\n");
    SplitChars(text, '\n');
    FoldedAreLines(Split(text, '\n'), []);
  }

  // ----- lines on the wire ------------------------------------------------

  function Wire(lines: seq<string>): string {
    if lines == [] then "" else lines[0] + "\r\n" + Wire(lines[1..])
  }

  lemma {:induction false} WireConcat(a: seq<string>, b: seq<string>)
    ensures Wire(a + b) == Wire(a) + Wire(b)
  {
    if a == [] {
      assert a + b == b;
    } else {
      assert (a + b)[1..] == a[1..] + b;
      WireConcat(a[1..], b);
      ConcatAssociates(a[0] + "\r\n", Wire(a[1..]), Wire(b));
    }
  }

  /** A written line that starts a content line of its own. */
  predicate StartsLine(line: string) {
    line != "" && '\r' !in line && line[0] != '\n' && !IsBlank(line[0])
  }

  lemma NormalizeWire(line: string, rest: string)
    requires '\r' !in line
    ensures NormalizeLineEnds(line + "\r\n" + rest) == line + "\n" + NormalizeLineEnds(rest)
  {
    var once := Replace(rest, "\r\n", "\n");
    assert line + "\r\n" + rest == line + ("\r\n" + rest);
    ReplaceSkips(line, "\r\n" + rest, "\r\n", "\n");
    ReplaceAtHit("\r\n", "\n", rest);
    assert line + ("\n" + once) == (line + "\n") + once;
    ReplaceSkips(line + "\n", once, "\r", "\n");
  }

  lemma {:induction false} FoldConcat(a: seq<string>, b: seq<string>, lines: seq<string>)
    ensures FoldRaws(a + b, lines) == FoldRaws(b, FoldRaws(a, lines))
  {
    if a == [] {
      assert a + b == b;
    } else {
      assert (a + b)[1..] == a[1..] + b;
      var next := if a[0] == "" then lines
                  else if IsBlank(a[0][0]) && lines != [] then lines[..|lines| - 1] + [lines[|lines| - 1] + a[0][1..]]
                  else lines + [a[0]];
      FoldConcat(a[1..], b, next);
    }
  }

  /** Lines before the last one are never touched again. */
  lemma {:induction false} FoldKeepsFront(raws: seq<string>, front: seq<string>, lines: seq<string>)
    requires lines != []
    ensures FoldRaws(raws, front + lines) == front + FoldRaws(raws, lines)
    ensures |FoldRaws(raws, lines)| >= |lines|
  {
    if raws != [] {
      var raw := raws[0];
      if raw == "" {
        FoldKeepsFront(raws[1..], front, lines);
      } else if IsBlank(raw[0]) {
        var both := front + lines;
        var joined := lines[..|lines| - 1] + [lines[|lines| - 1] + raw[1..]];
        assert both[..|both| - 1] + [both[|both| - 1] + raw[1..]] == front + joined;
        FoldKeepsFront(raws[1..], front, joined);
      } else {
        assert front + lines + [raw] == front + (lines + [raw]);
        FoldKeepsFront(raws[1..], front, lines + [raw]);
      }
    }
  }

  /** The content lines that one written line becomes. */
  function UnfoldOne(line: string): seq<string> {
    FoldRaws(Split(line, '\n'), [])
  }

  lemma UnfoldOneAfter(line: string, lines: seq<string>)
    requires StartsLine(line)
    ensures FoldRaws(Split(line, '\n'), lines) == lines + UnfoldOne(line)
    ensures |UnfoldOne(line)| >= 1
    ensures '\n' !in line ==> UnfoldOne(line) == [line]
  {
    var raws := Split(line, '\n');
    assert raws[0] != "" && raws[0][0] == line[0];
    assert lines + [raws[0]] + [] == lines + [raws[0]] && [] + [raws[0]] == [raws[0]];
    FoldKeepsFront(raws[1..], lines, [raws[0]]);
    FoldKeepsFront(raws[1..], [], [raws[0]]);
  }

  function UnfoldEach(lines: seq<string>): seq<string> {
    if lines == [] then [] else UnfoldOne(lines[0]) + UnfoldEach(lines[1..])
  }

  lemma SplitWire(line: string, rest: string)
    requires '\r' !in line
    ensures Split(NormalizeLineEnds(line + "\r\n" + rest), '\n')
              == Split(line, '\n') + Split(NormalizeLineEnds(rest), '\n')
  {
    NormalizeWire(line, rest);
    SplitAppend(line, '\n', NormalizeLineEnds(rest));
    assert line + "\n" == line + ['\n'];
  }

  lemma {:induction false} FoldWire(lines: seq<string>, before: seq<string>)
    requires forall l :: l in lines ==> StartsLine(l)
    ensures FoldRaws(Split(NormalizeLineEnds(Wire(lines)), '\n'), before) == before + UnfoldEach(lines)
  {
    if lines == [] {
      assert Split("", '\n') == [""];
      assert before + [] == before;
    } else {
      var line, rest := lines[0], Wire(lines[1..]);
      var raws := Split(NormalizeLineEnds(rest), '\n');
      assert StartsLine(line) && forall l :: l in lines[1..] ==> l in lines;
      SplitWire(line, rest);
      FoldConcat(Split(line, '\n'), raws, before);
      UnfoldOneAfter(line, before);
      FoldWire(lines[1..], before + UnfoldOne(line));
      ConcatAssociates(before, UnfoldOne(line), UnfoldEach(lines[1..]));
    }
  }

  /** Unfolding what was written unfolds each written line by itself. */
  lemma UnfoldWire(lines: seq<string>)
    requires forall l :: l in lines ==> StartsLine(l)
    ensures Unfold(Wire(lines)) == UnfoldEach(lines)
  {
    FoldWire(lines, []);
    assert [] + UnfoldEach(lines) == UnfoldEach(lines);
  }

  lemma {:induction false} UnfoldEachClean(lines: seq<string>)
    requires forall l :: l in lines ==> StartsLine(l) && '\n' !in l
    ensures UnfoldEach(lines) == lines
  {
    if lines != [] {
      assert lines[0] in lines && forall l :: l in lines[1..] ==> l in lines;
      UnfoldOneAfter(lines[0], []);
      UnfoldEachClean(lines[1..]);
      assert lines == [lines[0]] + lines[1..];
    }
  }

  /** When as many content lines come out as lines were written, each written line gave one. */
  lemma {:induction false} UnfoldEachCount(lines: seq<string>)
    requires forall l :: l in lines ==> StartsLine(l)
    ensures |UnfoldEach(lines)| >= |lines|
    ensures |UnfoldEach(lines)| == |lines| ==>
              forall i :: 0 <= i < |lines| ==> UnfoldOne(lines[i]) == [UnfoldEach(lines)[i]]
  {
    if lines != [] {
      assert lines[0] in lines && forall l :: l in lines[1..] ==> l in lines;
      UnfoldOneAfter(lines[0], []);
      hide UnfoldOne, StartsLine;
      UnfoldEachCount(lines[1..]);
      CountSplits(lines, UnfoldOne(lines[0]), UnfoldEach(lines[1..]));
    }
  }

  lemma CountSplits(lines: seq<string>, first: seq<string>, rest: seq<string>)
    requires lines != [] && |first| >= 1 && |rest| >= |lines| - 1 && UnfoldOne(lines[0]) == first
    requires |rest| == |lines| - 1 ==> forall i :: 0 <= i < |lines| - 1 ==> UnfoldOne(lines[1..][i]) == [rest[i]]
    ensures |first + rest| == |lines| ==> forall i :: 0 <= i < |lines| ==> UnfoldOne(lines[i]) == [(first + rest)[i]]
  {
    hide UnfoldOne;
    if |first + rest| == |lines| {
      forall i | 0 <= i < |lines| ensures UnfoldOne(lines[i]) == [(first + rest)[i]] {
        if i > 0 {
          assert lines[1..][i - 1] == lines[i];
        }
      }
    }
  }
}
