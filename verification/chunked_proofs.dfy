/** Chunked bodies come back whole, and the adapter reads whatever the probe accepts. */
module ChunkedProofs {
  import opened Wrappers
  import opened Text
  import opened Chunked

  // ----- ASCII ------------------------------------------------------------

  function Bytes(text: string): seq<Byte> {
    seq(|text|, i requires 0 <= i < |text| => text[i] as int)
  }

  lemma {:induction false} AsciiDecodes(text: string, utf8: Utf8)
    requires KeepsAscii(utf8) && forall i :: 0 <= i < |text| ==> text[i] as int < 128
    ensures utf8(Bytes(text)) == Some(text)
  {
    if text == "" {
      assert Bytes(text) == [];
    } else {
      var rest := text[1..];
      AsciiDecodes(rest, utf8);
      assert Bytes(text) == [] + [text[0] as int] + Bytes(rest);
      assert Joins(utf8, [], text[0] as int, Bytes(rest));
      assert text == "" + [text[0]] + rest;
    }
  }

  /** The laws asked of the decoder can be met: a decoder of ASCII alone meets them. */
  function AsciiOnly(x: seq<Byte>): Option<string> {
    if x == [] then Some("")
    else if !(0 <= x[0] < 128) || AsciiOnly(x[1..]).None? then None
    else Some([x[0] as char] + AsciiOnly(x[1..]).value)
  }

  lemma {:induction false} AsciiOnlyJoins(a: seq<Byte>, c: Byte, b: seq<Byte>)
    requires 0 <= c < 128
    ensures AsciiOnly(a + [c] + b) == AsciiJoin(AsciiOnly(a), c, AsciiOnly(b))
  {
    var s := a + [c] + b;
    if a == [] {
      assert s[0] == c && s[1..] == b;
      assert AsciiOnly(b).Some? ==> [c as char] + AsciiOnly(b).value == "" + [c as char] + AsciiOnly(b).value;
    } else {
      assert s[0] == a[0] && s[1..] == a[1..] + [c] + b;
      AsciiOnlyJoins(a[1..], c, b);
      if AsciiOnly(a).Some? && AsciiOnly(b).Some? {
        var head, front := [a[0] as char], AsciiOnly(a[1..]).value;
        assert head + (front + [c as char] + AsciiOnly(b).value) == (head + front) + [c as char] + AsciiOnly(b).value;
      }
    }
  }

  lemma {:induction false} AsciiOnlyChars(x: seq<Byte>, c: Byte)
    requires 0 <= c < 128 && c !in x && AsciiOnly(x).Some?
    ensures c as char !in AsciiOnly(x).value
  {
    if x != [] {
      AsciiOnlyChars(x[1..], c);
      assert x[0] in x;
    }
  }

  lemma SomeDecoderKeepsAscii()
    ensures KeepsAscii(x => AsciiOnly(x))
  {
    var utf8: Utf8 := x => AsciiOnly(x);
    forall a: seq<Byte>, c: Byte, b: seq<Byte> | 0 <= c < 128 ensures Joins(utf8, a, c, b) {
      AsciiOnlyJoins(a, c, b);
    }
    forall x: seq<Byte>, c: Byte | 0 <= c < 128 ensures Excludes(utf8, x, c) {
      if c !in x && AsciiOnly(x).Some? {
        AsciiOnlyChars(x, c);
      }
    }
    assert KeepsAscii(utf8);
  }

  // ----- sizes ------------------------------------------------------------

  function HexDigit(d: nat): (c: char)
    requires d < 16
    ensures IsHexDigit(c) && DigitValue(c) == d && !IsWhitespace(c) && c != '+' && c != ';' && c as int < 128
    ensures c as int != CR && c as int != LF
  {
    if d < 10 then ('0' as int + d) as char else ('a' as int + d - 10) as char
  }

  function Hex(n: nat): string {
    if n < 16 then [HexDigit(n)] else Hex(n / 16) + [HexDigit(n % 16)]
  }

  lemma {:induction false} HexReads(n: nat)
    ensures |Hex(n)| > 0 && AllHex(Hex(n)) && HexValue(Hex(n)) == n
    ensures forall i :: 0 <= i < |Hex(n)| ==> exists d: nat :: d < 16 && Hex(n)[i] == HexDigit(d)
  {
    if n < 16 {
      assert Hex(n)[..0] == "";
    } else {
      HexReads(n / 16);
      assert Hex(n)[..|Hex(n)| - 1] == Hex(n / 16);
    }
  }

  function Power16(k: nat): nat {
    if k == 0 then 1 else 16 * Power16(k - 1)
  }

  lemma {:induction false} HexIsShort(n: nat, k: nat)
    requires k > 0 && n < Power16(k)
    ensures |Hex(n)| <= k
  {
    if n >= 16 {
      assert Power16(0) == 1 && Power16(1) == 16;
      HexIsShort(n / 16, k - 1);
    }
  }

  lemma SizesAreShort(n: nat)
    requires n < USIZE_RANGE
    ensures |Hex(n)| <= 16
  {
    assert Power16(4) == 0x1_0000;
    assert Power16(8) == 0x1_0000_0000;
    assert Power16(12) == 0x1_0000_0000_0000;
    assert Power16(16) == USIZE_RANGE;
    HexIsShort(n, 16);
  }

  lemma HexIsClean(n: nat)
    ensures forall i :: 0 <= i < |Hex(n)| ==> Hex(n)[i] as int < 128 && !IsWhitespace(Hex(n)[i]) && Hex(n)[i] != ';'
    ensures |Hex(n)| > 0 && Trim(Hex(n)) == Hex(n) && ';' !in Hex(n)
    ensures n < USIZE_RANGE ==> ParseSize(Hex(n)) == Some(n)
  {
    HexReads(n);
    forall i | 0 <= i < |Hex(n)|
      ensures Hex(n)[i] as int < 128 && !IsWhitespace(Hex(n)[i]) && Hex(n)[i] != ';' && Hex(n)[i] != '+'
    {
      var d: nat :| d < 16 && Hex(n)[i] == HexDigit(d);
    }
  }

  // ----- messages ---------------------------------------------------------

  /** A chunk: the line that announces its size, and its data. */
  datatype Piece = Piece(line: seq<Byte>, data: seq<Byte>)

  predicate NoCrlf(line: seq<Byte>) {
    FindCrlf(line, 0) == |line|
  }

  lemma {:induction false} NoCrlfAt(line: seq<Byte>, i: nat, k: nat)
    requires i <= k < |line| && FindCrlf(line, i) == |line|
    ensures !CrlfAt(line, k)
    decreases k - i
  {
    if i < k {
      NoCrlfAt(line, i + 1, k);
    }
  }

  ghost predicate ExtensionOk(extension: seq<Byte>, utf8: Utf8) {
    (extension == [] || extension[0] == SEMICOLON) && NoCrlf(extension) && utf8(extension).Some? &&
    |extension| + 16 < 65_536
  }

  /** The line gives the size in hexadecimal digits, with an extension behind it or none. */
  ghost predicate Written(line: seq<Byte>, size: nat, utf8: Utf8) {
    exists extension :: ExtensionOk(extension, utf8) && line == SizeLine(size, extension)
  }

  ghost predicate PieceOk(p: Piece, utf8: Utf8) {
    p.data != [] && Written(p.line, |p.data|, utf8)
  }

  predicate TrailersOk(trailers: seq<seq<Byte>>) {
    trailers == [] ||
    (trailers[0] != [] && NoCrlf(trailers[0]) && |trailers[0]| < 65_536 && TrailersOk(trailers[1..]))
  }

  ghost predicate PiecesOk(pieces: seq<Piece>, utf8: Utf8) {
    pieces == [] || (PieceOk(pieces[0], utf8) && PiecesOk(pieces[1..], utf8))
  }

  function SizeLine(size: nat, extension: seq<Byte>): seq<Byte> {
    Bytes(Hex(size)) + extension
  }

  function Line(line: seq<Byte>): seq<Byte> {
    line + CRLF
  }

  function PieceText(p: Piece): seq<Byte> {
    Line(p.line) + Line(p.data)
  }

  function TrailerText(trailers: seq<seq<Byte>>): seq<Byte> {
    if trailers == [] then CRLF else Line(trailers[0]) + TrailerText(trailers[1..])
  }

  function PieceTexts(pieces: seq<Piece>): seq<Byte> {
    if pieces == [] then [] else PieceText(pieces[0]) + PieceTexts(pieces[1..])
  }

  /** The last-chunk line, the trailers and an empty line. */
  function EndText(last: seq<Byte>, trailers: seq<seq<Byte>>): seq<Byte> {
    Line(last) + TrailerText(trailers)
  }

  /** A whole chunked message. */
  function Message(pieces: seq<Piece>, last: seq<Byte>, trailers: seq<seq<Byte>>): seq<Byte> {
    PieceTexts(pieces) + EndText(last, trailers)
  }

  function Body(pieces: seq<Piece>): seq<Byte> {
    if pieces == [] then [] else pieces[0].data + Body(pieces[1..])
  }

  /** `t` stands in `s` at `p`. */
  predicate At(s: seq<Byte>, p: nat, t: seq<Byte>) {
    p + |t| <= |s| && Slice(s, p, p + |t|) == t
  }

  lemma SliceConcat(s: seq<Byte>, a: nat, b: nat, c: nat)
    requires a <= b <= c <= |s|
    ensures Slice(s, a, c) == Slice(s, a, b) + Slice(s, b, c)
  {
  }

  lemma EmptyConcat<T>(a: seq<T>)
    ensures [] + a == a && a + [] == a
  {
  }

  lemma SameParts<T>(a: seq<T>, b: seq<T>, c: seq<T>, d: seq<T>)
    requires a + b == c + d && |a| == |c|
    ensures a == c && b == d
  {
    assert a == (a + b)[..|a|] && b == (a + b)[|a|..];
    assert c == (c + d)[..|c|] && d == (c + d)[|c|..];
  }

  lemma AtBoth(s: seq<Byte>, p: nat, a: seq<Byte>, b: seq<Byte>)
    requires At(s, p, a + b)
    ensures At(s, p, a) && At(s, p + |a|, b)
  {
    SliceConcat(s, p, p + |a|, p + |a| + |b|);
    SameParts(Slice(s, p, p + |a|), Slice(s, p + |a|, p + |a| + |b|), a, b);
  }

  lemma CrlfStands(s: seq<Byte>, p: nat)
    requires At(s, p, CRLF)
    ensures CrlfAt(s, p)
  {
    SliceIs(s, p, p + 2);
    assert s[p..p + 2][0] == CRLF[0] && s[p..p + 2][1] == CRLF[1];
  }

  lemma NoCrlfStands(s: seq<Byte>, p: nat, line: seq<Byte>, k: nat)
    requires At(s, p, line) && NoCrlf(line) && CrlfAt(s, p + |line|) && k < |line|
    ensures !CrlfAt(s, p + k)
  {
    SliceIs(s, p, p + |line|);
    NoCrlfAt(line, 0, k);
    assert s[p..p + |line|][k] == s[p + k];
    if k + 1 < |line| {
      assert s[p..p + |line|][k + 1] == s[p + k + 1];
    }
  }

  /** A line without a line end inside is read as it stands. */
  lemma LineIsRead(s: seq<Byte>, p: nat, line: seq<Byte>)
    requires At(s, p, Line(line)) && NoCrlf(line) && |line| < MAX_HEADER_BYTES
    ensures FindCrlf(s, p) == p + |line|
    ensures ReadLine(s, p) == Some(p + |line|) && Slice(s, p, p + |line|) == line
  {
    AtBoth(s, p, line, CRLF);
    CrlfStands(s, p + |line|);
    forall k | p <= k < p + |line| ensures !CrlfAt(s, k) {
      NoCrlfStands(s, p, line, k - p);
    }
    FindCrlfIs(s, p, p + |line|);
  }

  lemma SizeLineIsClean(size: nat, extension: seq<Byte>)
    requires NoCrlf(extension) && |extension| + 16 < MAX_HEADER_BYTES && size < USIZE_RANGE
    ensures NoCrlf(SizeLine(size, extension)) && |SizeLine(size, extension)| < MAX_HEADER_BYTES
  {
    SizesAreShort(size);
    HexReads(size);
    var line, n := SizeLine(size, extension), |Hex(size)|;
    forall k | 0 <= k < |line| ensures !CrlfAt(line, k) {
      if k < n {
        var d: nat :| d < 16 && Hex(size)[k] == HexDigit(d);
        assert line[k] == Hex(size)[k] as int;
      } else {
        assert line[k] == extension[k - n];
        NoCrlfAt(extension, 0, k - n);
        if k + 1 < |line| {
          assert line[k + 1] == extension[k + 1 - n];
        }
      }
    }
    FindCrlfIs(line, 0, |line|);
  }

  lemma SizeLineIsRead(size: nat, extension: seq<Byte>, utf8: Utf8)
    requires KeepsAscii(utf8) && ExtensionOk(extension, utf8) && size < USIZE_RANGE
    ensures SizeOfLine(SizeLine(size, extension), utf8) == Some(size)
  {
    var digits := Hex(size);
    HexIsClean(size);
    AsciiDecodes(digits, utf8);
    if extension == [] {
      assert SizeLine(size, extension) == Bytes(digits);
      assert IndexOf(digits, ';') == |digits| && digits[..|digits|] == digits;
    } else {
      var rest := extension[1..];
      assert extension == [] + [SEMICOLON] + rest;
      assert SizeLine(size, extension) == Bytes(digits) + [SEMICOLON] + rest;
      assert Joins(utf8, [], SEMICOLON, rest) && Joins(utf8, Bytes(digits), SEMICOLON, rest);
      var text := digits + [';'] + utf8(rest).value;
      IndexOfConcat(digits, ';', utf8(rest).value);
      assert text[..|digits|] == digits;
    }
  }

  lemma {:induction false} TrailersAreSkipped(s: seq<Byte>, p: nat, trailers: seq<seq<Byte>>)
    requires At(s, p, TrailerText(trailers)) && TrailersOk(trailers)
    ensures p <= |s| && SkipTrailers(s, p) == Some(p + |TrailerText(trailers)|)
    decreases |trailers|
  {
    if trailers == [] {
      assert CRLF == Line([]);
      LineIsRead(s, p, []);
    } else {
      var line := trailers[0];
      AtBoth(s, p, Line(line), TrailerText(trailers[1..]));
      LineIsRead(s, p, line);
      TrailersAreSkipped(s, p + |Line(line)|, trailers[1..]);
    }
  }

  /** The reader reads this size on the line, which is short and holds no line end. */
  predicate Announces(sizeOf: SizeReader, size: nat, line: seq<Byte>) {
    NoCrlf(line) && |line| < 65_536 && sizeOf(line) == Some(size)
  }

  lemma SizeLineAnnounces(size: nat, extension: seq<Byte>, utf8: Utf8)
    requires KeepsAscii(utf8) && ExtensionOk(extension, utf8) && size < USIZE_RANGE
    ensures Announces(AdapterSizes(utf8), size, SizeLine(size, extension))
  {
    SizeLineIsClean(size, extension);
    SizeLineIsRead(size, extension, utf8);
  }

  lemma WrittenAnnounces(line: seq<Byte>, size: nat, utf8: Utf8)
    requires KeepsAscii(utf8) && Written(line, size, utf8) && size < USIZE_RANGE
    ensures Announces(AdapterSizes(utf8), size, line)
  {
    hide KeepsAscii, ExtensionOk, SizeLine, Announces;
    var extension :| ExtensionOk(extension, utf8) && line == SizeLine(size, extension);
    SizeLineAnnounces(size, extension, utf8);
  }

  /** Where the parts of a chunk stand. */
  lemma PieceStands(s: seq<Byte>, p: nat, piece: Piece, sizeOf: SizeReader)
    requires Announces(sizeOf, |piece.data|, piece.line) && At(s, p, PieceText(piece))
    ensures var end := p + |piece.line|;
            ReadLine(s, p) == Some(end) && sizeOf(Slice(s, p, end)) == Some(|piece.data|) &&
            At(s, end + 2, piece.data) && CrlfAt(s, end + 2 + |piece.data|)
  {
    var line := piece.line;
    AtBoth(s, p, Line(line), Line(piece.data));
    LineIsRead(s, p, line);
    AtBoth(s, p + |line| + 2, piece.data, CRLF);
    CrlfStands(s, p + |line| + 2 + |piece.data|);
  }

  /** The reader takes a chunk's data and goes on behind it. */
  lemma PieceIsRead(s: seq<Byte>, p: nat, piece: Piece, body: seq<Byte>, maxBody: nat, sizeOf: SizeReader)
    requires Announces(sizeOf, |piece.data|, piece.line) && At(s, p, PieceText(piece))
    requires |body| + |piece.data| <= maxBody && piece.data != []
    ensures ReadBody(s, p, body, maxBody, sizeOf)
         == ReadBody(s, p + |PieceText(piece)|, body + piece.data, maxBody, sizeOf)
  {
    PieceStands(s, p, piece, sizeOf);
    var from := p + |piece.line| + 2;
    assert ChunkAt(s, p, |body|, maxBody, sizeOf) == Data(from, from + |piece.data|);
  }

  lemma EndStands(s: seq<Byte>, p: nat, last: seq<Byte>, trailers: seq<seq<Byte>>, sizeOf: SizeReader)
    requires Announces(sizeOf, 0, last) && TrailersOk(trailers)
    requires At(s, p, EndText(last, trailers))
    ensures var end := p + |last|;
            ReadLine(s, p) == Some(end) && sizeOf(Slice(s, p, end)) == Some(0) &&
            SkipTrailers(s, end + 2) == Some(p + |EndText(last, trailers)|)
  {
    AtBoth(s, p, Line(last), TrailerText(trailers));
    LineIsRead(s, p, last);
    TrailersAreSkipped(s, p + |Line(last)|, trailers);
  }

  lemma EndIsRead(s: seq<Byte>, p: nat, last: seq<Byte>, trailers: seq<seq<Byte>>, body: seq<Byte>,
                  maxBody: nat, sizeOf: SizeReader)
    requires Announces(sizeOf, 0, last) && TrailersOk(trailers)
    requires At(s, p, EndText(last, trailers))
    ensures ReadBody(s, p, body, maxBody, sizeOf) == Some((body, p + |EndText(last, trailers)|))
  {
    EndStands(s, p, last, trailers, sizeOf);
    assert ChunkAt(s, p, |body|, maxBody, sizeOf) == Last(p + |last| + 2);
  }

  predicate AllAnnounced(pieces: seq<Piece>, sizeOf: SizeReader) {
    pieces == [] ||
    (pieces[0].data != [] && Announces(sizeOf, |pieces[0].data|, pieces[0].line) && AllAnnounced(pieces[1..], sizeOf))
  }

  lemma {:induction false} PiecesAreRead(s: seq<Byte>, p: nat, pieces: seq<Piece>, body: seq<Byte>, maxBody: nat,
                                         sizeOf: SizeReader)
    requires At(s, p, PieceTexts(pieces)) && AllAnnounced(pieces, sizeOf)
    requires |body| + |Body(pieces)| <= maxBody
    ensures ReadBody(s, p, body, maxBody, sizeOf)
         == ReadBody(s, p + |PieceTexts(pieces)|, body + Body(pieces), maxBody, sizeOf)
    decreases |pieces|
  {
    hide ReadBody;
    if pieces == [] {
      EmptyConcat(body);
    } else {
      var piece, rest := pieces[0], pieces[1..];
      AtBoth(s, p, PieceText(piece), PieceTexts(rest));
      PieceIsRead(s, p, piece, body, maxBody, sizeOf);
      PiecesAreRead(s, p + |PieceText(piece)|, rest, body + piece.data, maxBody, sizeOf);
      ConcatAssociates(body, piece.data, Body(rest));
    }
  }

  lemma {:induction false} PiecesAnnounce(pieces: seq<Piece>, utf8: Utf8)
    requires KeepsAscii(utf8) && PiecesOk(pieces, utf8) && |Body(pieces)| < USIZE_RANGE
    ensures AllAnnounced(pieces, AdapterSizes(utf8))
  {
    if pieces != [] {
      WrittenAnnounces(pieces[0].line, |pieces[0].data|, utf8);
      PiecesAnnounce(pieces[1..], utf8);
    }
  }

  lemma MessageIsRead(s: seq<Byte>, p: nat, pieces: seq<Piece>, last: seq<Byte>, trailers: seq<seq<Byte>>,
                      maxBody: nat, sizeOf: SizeReader)
    requires At(s, p, Message(pieces, last, trailers)) && AllAnnounced(pieces, sizeOf)
    requires Announces(sizeOf, 0, last) && TrailersOk(trailers) && |Body(pieces)| <= maxBody
    ensures ReadBody(s, p, [], maxBody, sizeOf)
         == Some((Body(pieces), p + |Message(pieces, last, trailers)|))
  {
    hide ReadBody, At, AllAnnounced, Announces, TrailersOk, PieceTexts, EndText, Body;
    AtBoth(s, p, PieceTexts(pieces), EndText(last, trailers));
    EndIsRead(s, p + |PieceTexts(pieces)|, last, trailers, Body(pieces), maxBody, sizeOf);
    PiecesAreRead(s, p, pieces, [], maxBody, sizeOf);
    EmptyConcat(Body(pieces));
  }

  /** For any split of a body into non-empty chunks within the limit, with any extensions and
      trailers, the reader returns the body and stops exactly behind the message. */
  lemma ChunksReadBack(s: seq<Byte>, p: nat, pieces: seq<Piece>, last: seq<Byte>, trailers: seq<seq<Byte>>,
                       maxBody: nat, utf8: Utf8)
    requires KeepsAscii(utf8) && At(s, p, Message(pieces, last, trailers))
    requires PiecesOk(pieces, utf8) && Written(last, 0, utf8) && TrailersOk(trailers)
    requires |Body(pieces)| <= maxBody < USIZE_RANGE
    ensures ReadBody(s, p, [], maxBody, AdapterSizes(utf8))
         == Some((Body(pieces), p + |Message(pieces, last, trailers)|))
  {
    PiecesAnnounce(pieces, utf8);
    WrittenAnnounces(last, 0, utf8);
    MessageIsRead(s, p, pieces, last, trailers, maxBody, AdapterSizes(utf8));
  }

  // ----- exactly what the reader accepts ----------------------------------

  lemma {:induction false} NoCrlfBefore(s: seq<Byte>, at: nat, k: nat)
    requires at <= |s| && at <= k < FindCrlf(s, at)
    ensures !CrlfAt(s, k)
    decreases k - at
  {
    if at < k {
      NoCrlfBefore(s, at + 1, k);
    }
  }

  lemma {:induction false} FoundIsCrlf(s: seq<Byte>, at: nat)
    requires at <= |s| && FindCrlf(s, at) < |s|
    ensures CrlfAt(s, FindCrlf(s, at))
    decreases |s| - at
  {
    if !CrlfAt(s, at) {
      FoundIsCrlf(s, at + 1);
    }
  }

  /** A line that is read stands there, with its line end and none before it. */
  lemma ReadLineStands(s: seq<Byte>, at: nat)
    requires at <= |s| && ReadLine(s, at).Some?
    ensures var end := ReadLine(s, at).value;
            var line := Slice(s, at, end);
            Slice(s, at, end + 2) == Line(line) && NoCrlf(line) && |line| < MAX_HEADER_BYTES
  {
    var end := ReadLine(s, at).value;
    var line := Slice(s, at, end);
    FoundIsCrlf(s, at);
    forall k | 0 <= k < |line| ensures !CrlfAt(line, k) {
      NoCrlfBefore(s, at, at + k);
    }
    FindCrlfIs(line, 0, |line|);
    SliceConcat(s, at, end, end + 2);
    assert Slice(s, end, end + 2) == CRLF;
  }

  lemma {:induction false} SkippedAreTrailers(s: seq<Byte>, at: nat) returns (trailers: seq<seq<Byte>>)
    requires at <= |s| && SkipTrailers(s, at).Some?
    ensures TrailersOk(trailers) && at <= SkipTrailers(s, at).value <= |s|
    ensures Slice(s, at, SkipTrailers(s, at).value) == TrailerText(trailers)
    decreases |s| - at
  {
    var end := ReadLine(s, at).value;
    ReadLineStands(s, at);
    if end == at {
      trailers := [];
      assert Line([]) == CRLF;
    } else {
      var rest := SkippedAreTrailers(s, end + 2);
      trailers := [Slice(s, at, end)] + rest;
      assert trailers[1..] == rest;
      SliceConcat(s, at, end + 2, SkipTrailers(s, at).value);
    }
  }

  lemma ChunkStands(s: seq<Byte>, at: nat, have: nat, maxBody: nat, sizeOf: SizeReader)
    requires at <= |s| && !ChunkAt(s, at, have, maxBody, sizeOf).Bad?
    ensures match ChunkAt(s, at, have, maxBody, sizeOf)
            case Last(trailers) =>
              var line := Slice(s, at, trailers - 2);
              Slice(s, at, trailers) == Line(line) && Announces(sizeOf, 0, line)
            case Data(from, to) =>
              var piece := Piece(Slice(s, at, from - 2), Slice(s, from, to));
              Slice(s, at, to + 2) == PieceText(piece) && Announces(sizeOf, |piece.data|, piece.line) &&
              piece.data != [] && have + |piece.data| <= maxBody
  {
    ReadLineStands(s, at);
    match ChunkAt(s, at, have, maxBody, sizeOf)
    case Last(_) =>
    case Data(from, to) =>
      SliceConcat(s, at, from, to + 2);
      SliceConcat(s, from, to, to + 2);
      assert Slice(s, to, to + 2) == CRLF;
  }

  /** What is read from a place on is a message that stands there. */
  lemma {:induction false} ReadIsMessage(s: seq<Byte>, at: nat, body: seq<Byte>, maxBody: nat, sizeOf: SizeReader)
    returns (pieces: seq<Piece>, last: seq<Byte>, trailers: seq<seq<Byte>>)
    requires at <= |s| && ReadBody(s, at, body, maxBody, sizeOf).Some?
    ensures var (read, end) := ReadBody(s, at, body, maxBody, sizeOf).value;
            at <= end <= |s| && Slice(s, at, end) == Message(pieces, last, trailers) &&
            AllAnnounced(pieces, sizeOf) && Announces(sizeOf, 0, last) && TrailersOk(trailers) &&
            read == body + Body(pieces) && (|body| <= maxBody ==> |read| <= maxBody)
    decreases |s| - at
  {
    hide ChunkAt, Announces, SkipTrailers, TrailersOk, TrailerText, Slice;
    ChunkStands(s, at, |body|, maxBody, sizeOf);
    var end := ReadBody(s, at, body, maxBody, sizeOf).value.1;
    match ChunkAt(s, at, |body|, maxBody, sizeOf)
    case Last(from) =>
      trailers := SkippedAreTrailers(s, from);
      pieces, last := [], Slice(s, at, from - 2);
      SliceConcat(s, at, from, end);
      EmptyConcat(Slice(s, at, end));
      EmptyConcat(body);
    case Data(from, to) =>
      var piece := Piece(Slice(s, at, from - 2), Slice(s, from, to));
      var rest;
      rest, last, trailers := ReadIsMessage(s, to + 2, body + piece.data, maxBody, sizeOf);
      pieces := [piece] + rest;
      SliceConcat(s, at, to + 2, end);
      PiecesBefore(piece, rest, last, trailers, sizeOf);
      ConcatAssociates(body, piece.data, Body(rest));
  }

  lemma PiecesBefore(piece: Piece, rest: seq<Piece>, last: seq<Byte>, trailers: seq<seq<Byte>>, sizeOf: SizeReader)
    ensures Message([piece] + rest, last, trailers) == PieceText(piece) + Message(rest, last, trailers)
    ensures Body([piece] + rest) == piece.data + Body(rest)
    ensures AllAnnounced([piece] + rest, sizeOf) <==>
            piece.data != [] && Announces(sizeOf, |piece.data|, piece.line) && AllAnnounced(rest, sizeOf)
  {
    hide PieceText, EndText, Announces;
    assert ([piece] + rest)[1..] == rest;
    ConcatAssociates(PieceText(piece), PieceTexts(rest), EndText(last, trailers));
  }

  /** A message that stands at `p`, ends at `end`, and has this body within the limit. */
  ghost predicate Stands(s: seq<Byte>, p: nat, end: nat, body: seq<Byte>, maxBody: nat, sizeOf: SizeReader) {
    exists pieces, last, trailers ::
      At(s, p, Message(pieces, last, trailers)) && end == p + |Message(pieces, last, trailers)| &&
      AllAnnounced(pieces, sizeOf) && Announces(sizeOf, 0, last) && TrailersOk(trailers) &&
      body == Body(pieces) && |body| <= maxBody
  }

  /** Exactly what the reader reads, and up to where: whatever reads sizes from lines, it reads the
      bodies of the messages that stand in the stream, and nothing else. */
  lemma ReadsExactly(s: seq<Byte>, p: nat, end: nat, body: seq<Byte>, maxBody: nat, sizeOf: SizeReader)
    requires p <= |s|
    ensures ReadBody(s, p, [], maxBody, sizeOf) == Some((body, end)) <==> Stands(s, p, end, body, maxBody, sizeOf)
  {
    hide ReadBody, At, Message, AllAnnounced, Announces, TrailersOk, Body;
    if ReadBody(s, p, [], maxBody, sizeOf) == Some((body, end)) {
      var pieces, last, trailers := ReadIsMessage(s, p, [], maxBody, sizeOf);
      MessageStands(s, p, end, Message(pieces, last, trailers));
      EmptyConcat(Body(pieces));
    }
    if Stands(s, p, end, body, maxBody, sizeOf) {
      var pieces, last, trailers :|
        At(s, p, Message(pieces, last, trailers)) && end == p + |Message(pieces, last, trailers)| &&
        AllAnnounced(pieces, sizeOf) && Announces(sizeOf, 0, last) && TrailersOk(trailers) &&
        body == Body(pieces) && |body| <= maxBody;
      MessageIsRead(s, p, pieces, last, trailers, maxBody, sizeOf);
    }
  }

  lemma MessageStands(s: seq<Byte>, p: nat, end: nat, text: seq<Byte>)
    requires p <= end <= |s| && Slice(s, p, end) == text
    ensures At(s, p, text) && end == p + |text|
  {
  }

  /** A chunk that goes over the limit is refused. */
  lemma OverlongIsRefused(s: seq<Byte>, p: nat, piece: Piece, body: seq<Byte>, maxBody: nat, sizeOf: SizeReader)
    requires Announces(sizeOf, |piece.data|, piece.line) && At(s, p, PieceText(piece)) && piece.data != []
    requires |body| + |piece.data| > maxBody
    ensures ReadBody(s, p, body, maxBody, sizeOf).None?
  {
    PieceStands(s, p, piece, sizeOf);
  }

  // ----- the probe and the reader -----------------------------------------

  /** Every size line that the probe reads is text as a whole. */
  predicate SizeLinesAreText(s: seq<Byte>, at: nat, have: nat, probe: SizeReader, isText: seq<Byte> -> bool)
    requires at <= |s|
    decreases |s| - at
  {
    match ProbeChunkAt(s, at, have, probe)
    case Bad => true
    case Last(_) => isText(Slice(s, at, FindCrlf(s, at)))
    case Data(from, to) =>
      isText(Slice(s, at, FindCrlf(s, at))) && SizeLinesAreText(s, to + 2, have + (to - from), probe, isText)
  }

  /** What both read of a size line: its text up to the first semicolon. */
  lemma FrontText(line: seq<Byte>, utf8: Utf8)
    requires KeepsAscii(utf8) && utf8(line).Some?
    ensures var text := utf8(line).value;
            utf8(line[..FindByte(line, SEMICOLON, 0)]) == Some(text[..IndexOf(text, ';')])
  {
    var i := FindByte(line, SEMICOLON, 0);
    var front, text := line[..i], utf8(line).value;
    assert SEMICOLON !in front;
    if i == |line| {
      assert front == line;
      assert Excludes(utf8, line, SEMICOLON);
      assert IndexOf(text, ';') == |text| && text[..|text|] == text;
    } else {
      var rest := line[i + 1..];
      assert line == front + [SEMICOLON] + rest;
      assert Joins(utf8, front, SEMICOLON, rest) && Excludes(utf8, front, SEMICOLON);
      assert text == utf8(front).value + [';'] + utf8(rest).value;
      IndexOfConcat(utf8(front).value, ';', utf8(rest).value);
      assert text[..|utf8(front).value|] == utf8(front).value;
    }
  }

  lemma SizesAgree(line: seq<Byte>, utf8: Utf8)
    requires KeepsAscii(utf8) && utf8(line).Some? && ProbeSize(line, utf8).Some?
    ensures SizeOfLine(line, utf8) == ProbeSize(line, utf8)
  {
    FrontText(line, utf8);
  }

  lemma {:induction false} TrailersAgree(s: seq<Byte>, at: nat)
    requires at <= |s| && ProbeTrailers(s, at)
    ensures SkipTrailers(s, at) == Some(|s|)
    decreases |s| - at
  {
    var end := FindCrlf(s, at);
    if end != at {
      TrailersAgree(s, end + 2);
    }
  }

  /** On lines that are text, the adapter reads every size that the probe reads. */
  ghost predicate Refines(probe: SizeReader, adapter: SizeReader, isText: seq<Byte> -> bool) {
    forall line :: isText(line) && probe(line).Some? ==> adapter(line) == probe(line)
  }

  lemma ChunksAgree(s: seq<Byte>, at: nat, have: nat, maxBody: nat, probe: SizeReader, adapter: SizeReader,
                    isText: seq<Byte> -> bool)
    requires at <= |s| && maxBody >= MAX_PROBE_BODY && Refines(probe, adapter, isText)
    requires SizeLinesAreText(s, at, have, probe, isText) && !ProbeChunkAt(s, at, have, probe).Bad?
    ensures ChunkAt(s, at, have, maxBody, adapter) == ProbeChunkAt(s, at, have, probe)
  {
    hide FindCrlf;
    var line := Slice(s, at, FindCrlf(s, at));
    assert isText(line);
  }

  lemma {:induction false} RefinedIsRead(s: seq<Byte>, at: nat, body: seq<Byte>, maxBody: nat, probe: SizeReader,
                                         adapter: SizeReader, isText: seq<Byte> -> bool)
    requires at <= |s| && maxBody >= MAX_PROBE_BODY && Refines(probe, adapter, isText)
    requires ProbeBody(s, at, body, probe).Some? && SizeLinesAreText(s, at, |body|, probe, isText)
    ensures ReadBody(s, at, body, maxBody, adapter) == Some((ProbeBody(s, at, body, probe).value, |s|))
    decreases |s| - at
  {
    hide ChunkAt, ProbeChunkAt, Refines, ProbeTrailers, SkipTrailers;
    ChunksAgree(s, at, |body|, maxBody, probe, adapter, isText);
    match ProbeChunkAt(s, at, |body|, probe)
    case Last(trailers) => TrailersAgree(s, trailers);
    case Data(from, to) => RefinedIsRead(s, to + 2, body + Slice(s, from, to), maxBody, probe, adapter, isText);
  }

  /** Whatever the probe accepts with UTF-8 size lines, the reader decodes to the same bytes, with
      nothing left over, when it allows at least the probe's mebibyte. */
  lemma ProbeIsRead(s: seq<Byte>, maxBody: nat, utf8: Utf8)
    requires KeepsAscii(utf8) && maxBody >= MAX_PROBE_BODY
    requires ProbeBody(s, 0, [], ProbeSizes(utf8)).Some?
    requires SizeLinesAreText(s, 0, 0, ProbeSizes(utf8), x => utf8(x).Some?)
    ensures ReadBody(s, 0, [], maxBody, AdapterSizes(utf8)) == Some((ProbeBody(s, 0, [], ProbeSizes(utf8)).value, |s|))
  {
    AdapterRefinesProbe(utf8);
    RefinedIsRead(s, 0, [], maxBody, ProbeSizes(utf8), AdapterSizes(utf8), x => utf8(x).Some?);
  }

  lemma AdapterRefinesProbe(utf8: Utf8)
    requires KeepsAscii(utf8)
    ensures Refines(ProbeSizes(utf8), AdapterSizes(utf8), x => utf8(x).Some?)
  {
    forall line | utf8(line).Some? && ProbeSize(line, utf8).Some?
      ensures SizeOfLine(line, utf8) == ProbeSize(line, utf8)
    {
      SizesAgree(line, utf8);
    }
  }

  // ----- exactly when the probe accepts what the reader accepts -----------

  lemma {:induction false} AllHexAt(s: string, i: nat)
    requires AllHex(s) && i < |s|
    ensures IsHexDigit(s[i])
  {
    if i < |s| - 1 {
      AllHexAt(s[..|s| - 1], i);
    }
  }

  /** The size on the line is written with a plus sign. */
  predicate Signed(line: seq<Byte>, utf8: Utf8) {
    utf8(line).Some? &&
    var size := Trim(utf8(line).value[..IndexOf(utf8(line).value, ';')]);
    size != "" && size[0] == '+'
  }

  /** Of the lines whose size the adapter reads, the probe reads exactly those without a sign. */
  lemma SignedSizeDiffers(line: seq<Byte>, utf8: Utf8)
    requires KeepsAscii(utf8) && SizeOfLine(line, utf8).Some?
    ensures ProbeSize(line, utf8) == if Signed(line, utf8) then None else SizeOfLine(line, utf8)
  {
    FrontText(line, utf8);
    var size := Trim(utf8(line).value[..IndexOf(utf8(line).value, ';')]);
    if Signed(line, utf8) && AllHex(size) {
      AllHexAt(size, 0);
    }
  }

  /** There are such lines. */
  lemma SomeLineIsSigned(utf8: Utf8)
    requires KeepsAscii(utf8)
    ensures SizeOfLine(Bytes("+5"), utf8) == Some(5) && Signed(Bytes("+5"), utf8)
  {
    AsciiDecodes("+5", utf8);
    assert Trim("+5") == "+5" && IndexOf("+5", ';') == 2 && "+5"[..2] == "+5" && "+5"[1..] == "5";
    assert "5"[..0] == "" && AllHex("5") && HexValue("5") == 16 * HexValue("") + 5;
  }

  /** The size lines that the reader reads. */
  function SizeLines(s: seq<Byte>, at: nat, have: nat, maxBody: nat, sizeOf: SizeReader): seq<seq<Byte>>
    requires at <= |s|
    decreases |s| - at
  {
    match ChunkAt(s, at, have, maxBody, sizeOf)
    case Bad => []
    case Last(_) => [Slice(s, at, FindCrlf(s, at))]
    case Data(from, to) =>
      [Slice(s, at, FindCrlf(s, at))] + SizeLines(s, to + 2, have + (to - from), maxBody, sizeOf)
  }

  /** The trailer lines from `at` up to the empty line. */
  function TrailerLines(s: seq<Byte>, at: nat): seq<seq<Byte>>
    requires at <= |s|
    decreases |s| - at
  {
    var end := FindCrlf(s, at);
    if end == |s| || end == at then [] else [Slice(s, at, end)] + TrailerLines(s, end + 2)
  }

  /** The trailer lines behind the last chunk. */
  function Trailers(s: seq<Byte>, at: nat, have: nat, maxBody: nat, sizeOf: SizeReader): seq<seq<Byte>>
    requires at <= |s|
    decreases |s| - at
  {
    match ChunkAt(s, at, have, maxBody, sizeOf)
    case Bad => []
    case Last(trailers) => TrailerLines(s, trailers)
    case Data(from, to) => Trailers(s, to + 2, have + (to - from), maxBody, sizeOf)
  }

  predicate PlainTrailer(line: seq<Byte>) {
    |line| <= 1024 && COLON in line
  }

  predicate PlainTrailers(lines: seq<seq<Byte>>) {
    forall line :: line in lines ==> PlainTrailer(line)
  }

  predicate PlainSize(line: seq<Byte>, utf8: Utf8) {
    |line| <= 1024 && !Signed(line, utf8)
  }

  predicate PlainSizes(lines: seq<seq<Byte>>, utf8: Utf8) {
    forall line :: line in lines ==> PlainSize(line, utf8)
  }

  lemma PlainTrailersStep(line: seq<Byte>, rest: seq<seq<Byte>>)
    ensures PlainTrailers([line] + rest) <==> PlainTrailer(line) && PlainTrailers(rest)
  {
    assert forall l :: l in [line] + rest <==> l == line || l in rest;
  }

  lemma PlainSizesStep(line: seq<Byte>, rest: seq<seq<Byte>>, utf8: Utf8)
    ensures PlainSizes([line] + rest, utf8) <==> PlainSize(line, utf8) && PlainSizes(rest, utf8)
  {
    assert forall l :: l in [line] + rest <==> l == line || l in rest;
  }

  lemma {:induction false} TrailersExactly(s: seq<Byte>, at: nat)
    requires at <= |s| && SkipTrailers(s, at).Some?
    ensures ProbeTrailers(s, at) <==> SkipTrailers(s, at) == Some(|s|) && PlainTrailers(TrailerLines(s, at))
    decreases |s| - at
  {
    var end := FindCrlf(s, at);
    if end != at {
      TrailersExactly(s, end + 2);
      PlainTrailersStep(Slice(s, at, end), TrailerLines(s, end + 2));
    }
  }

  /** The two agree on a chunk exactly when its size line is plain and it stays within a mebibyte. */
  lemma ChunksExactly(s: seq<Byte>, at: nat, have: nat, maxBody: nat, utf8: Utf8)
    requires KeepsAscii(utf8) && at <= |s| && maxBody >= MAX_PROBE_BODY
    requires !ChunkAt(s, at, have, maxBody, AdapterSizes(utf8)).Bad?
    ensures var chunk := ChunkAt(s, at, have, maxBody, AdapterSizes(utf8));
            ProbeChunkAt(s, at, have, ProbeSizes(utf8)) ==
            if PlainSize(Slice(s, at, FindCrlf(s, at)), utf8) &&
               (chunk.Data? ==> have + (chunk.to - chunk.from) <= MAX_PROBE_BODY)
            then chunk else Bad
  {
    hide SizeOfLine, ProbeSize, Signed, KeepsAscii, FindCrlf;
    SignedSizeDiffers(Slice(s, at, FindCrlf(s, at)), utf8);
  }

  /** The reader's body only grows. */
  lemma {:induction false} BodyGrows(s: seq<Byte>, at: nat, body: seq<Byte>, maxBody: nat, sizeOf: SizeReader)
    requires at <= |s| && ReadBody(s, at, body, maxBody, sizeOf).Some?
    ensures |ReadBody(s, at, body, maxBody, sizeOf).value.0| >= |body|
    decreases |s| - at
  {
    match ChunkAt(s, at, |body|, maxBody, sizeOf)
    case Last(_) =>
    case Data(from, to) => BodyGrows(s, to + 2, body + Slice(s, from, to), maxBody, sizeOf);
  }

  /** What a message that the reader accepts needs for the probe: size lines of at most 1024 bytes
      without a sign, trailers of at most 1024 bytes with a colon, at most a mebibyte of data, and
      nothing behind it. */
  predicate Plain(s: seq<Byte>, at: nat, body: seq<Byte>, maxBody: nat, utf8: Utf8, read: (seq<Byte>, nat))
    requires at <= |s|
  {
    read.1 == |s| && |read.0| <= 1_048_576 &&
    PlainSizes(SizeLines(s, at, |body|, maxBody, AdapterSizes(utf8)), utf8) &&
    PlainTrailers(Trailers(s, at, |body|, maxBody, AdapterSizes(utf8)))
  }

  lemma LastIsProbed(s: seq<Byte>, at: nat, body: seq<Byte>, maxBody: nat, utf8: Utf8, trailers: nat)
    requires KeepsAscii(utf8) && at <= |s| && maxBody >= MAX_PROBE_BODY && |body| <= MAX_PROBE_BODY
    requires ChunkAt(s, at, |body|, maxBody, AdapterSizes(utf8)) == Last(trailers)
    requires ReadBody(s, at, body, maxBody, AdapterSizes(utf8)).Some?
    ensures var read := ReadBody(s, at, body, maxBody, AdapterSizes(utf8)).value;
            ProbeBody(s, at, body, ProbeSizes(utf8)) ==
            if Plain(s, at, body, maxBody, utf8, read) then Some(read.0) else None
  {
    hide ProbeTrailers, SkipTrailers, TrailerLines, ChunkAt, ProbeChunkAt, KeepsAscii, PlainSize, PlainTrailers;
    var line := Slice(s, at, FindCrlf(s, at));
    ChunksExactly(s, at, |body|, maxBody, utf8);
    TrailersExactly(s, trailers);
    PlainSizesStep(line, [], utf8);
    EmptyConcat([line]);
  }

  lemma DataIsRead(s: seq<Byte>, at: nat, body: seq<Byte>, maxBody: nat, utf8: Utf8, from: nat, to: nat, read: (seq<Byte>, nat))
    requires KeepsAscii(utf8) && at <= |s| && maxBody >= MAX_PROBE_BODY
    requires ChunkAt(s, at, |body|, maxBody, AdapterSizes(utf8)) == Data(from, to)
    ensures at < from < to <= |s| - 2
    ensures var more := body + Slice(s, from, to);
            ReadBody(s, at, body, maxBody, AdapterSizes(utf8)) == ReadBody(s, to + 2, more, maxBody, AdapterSizes(utf8)) &&
            (Plain(s, at, body, maxBody, utf8, read) <==>
             PlainSize(Slice(s, at, FindCrlf(s, at)), utf8) && Plain(s, to + 2, more, maxBody, utf8, read))
  {
    hide ChunkAt, KeepsAscii, PlainSize, PlainSizes, PlainTrailers;
    var more := body + Slice(s, from, to);
    PlainSizesStep(Slice(s, at, FindCrlf(s, at)), SizeLines(s, to + 2, |more|, maxBody, AdapterSizes(utf8)), utf8);
  }

  lemma DataIsProbed(s: seq<Byte>, at: nat, body: seq<Byte>, maxBody: nat, utf8: Utf8, from: nat, to: nat)
    requires KeepsAscii(utf8) && at <= |s| && maxBody >= MAX_PROBE_BODY
    requires ChunkAt(s, at, |body|, maxBody, AdapterSizes(utf8)) == Data(from, to)
    ensures at < from < to <= |s| - 2
    ensures var more := body + Slice(s, from, to);
            ProbeBody(s, at, body, ProbeSizes(utf8)) ==
            if PlainSize(Slice(s, at, FindCrlf(s, at)), utf8) && |more| <= MAX_PROBE_BODY
            then ProbeBody(s, to + 2, more, ProbeSizes(utf8)) else None
  {
    hide ChunkAt, ProbeChunkAt, KeepsAscii, PlainSize;
    ChunksExactly(s, at, |body|, maxBody, utf8);
  }

  lemma {:induction false} PlainIsProbed(s: seq<Byte>, at: nat, body: seq<Byte>, maxBody: nat, utf8: Utf8)
    requires KeepsAscii(utf8) && at <= |s| && maxBody >= MAX_PROBE_BODY && |body| <= MAX_PROBE_BODY
    requires ReadBody(s, at, body, maxBody, AdapterSizes(utf8)).Some?
    ensures var read := ReadBody(s, at, body, maxBody, AdapterSizes(utf8)).value;
            ProbeBody(s, at, body, ProbeSizes(utf8)) ==
            if Plain(s, at, body, maxBody, utf8, read) then Some(read.0) else None
    decreases |s| - at
  {
    match ChunkAt(s, at, |body|, maxBody, AdapterSizes(utf8))
    case Last(trailers) => LastIsProbed(s, at, body, maxBody, utf8, trailers);
    case Data(from, to) => MoreIsProbed(s, at, body, maxBody, utf8, from, to);
  }

  lemma {:induction false} MoreIsProbed(s: seq<Byte>, at: nat, body: seq<Byte>, maxBody: nat, utf8: Utf8, from: nat, to: nat)
    requires KeepsAscii(utf8) && at <= |s| && maxBody >= MAX_PROBE_BODY && |body| <= MAX_PROBE_BODY
    requires ReadBody(s, at, body, maxBody, AdapterSizes(utf8)).Some?
    requires ChunkAt(s, at, |body|, maxBody, AdapterSizes(utf8)) == Data(from, to)
    ensures var read := ReadBody(s, at, body, maxBody, AdapterSizes(utf8)).value;
            ProbeBody(s, at, body, ProbeSizes(utf8)) ==
            if Plain(s, at, body, maxBody, utf8, read) then Some(read.0) else None
    decreases |s| - at, 0
  {
    hide ChunkAt, ReadBody, ProbeBody, KeepsAscii, PlainSize, PlainSizes, PlainTrailers, SizeLines, Trailers;
    var more := body + Slice(s, from, to);
    var read := ReadBody(s, at, body, maxBody, AdapterSizes(utf8)).value;
    DataIsRead(s, at, body, maxBody, utf8, from, to, read);
    DataIsProbed(s, at, body, maxBody, utf8, from, to);
    BodyGrows(s, to + 2, more, maxBody, AdapterSizes(utf8));
    if |more| <= MAX_PROBE_BODY {
      PlainIsProbed(s, to + 2, more, maxBody, utf8);
    }
  }

  /** Of the messages that the reader accepts, the probe accepts exactly the plain ones, with the same bytes. */
  lemma ProbeAcceptsExactly(s: seq<Byte>, maxBody: nat, utf8: Utf8)
    requires KeepsAscii(utf8) && maxBody >= MAX_PROBE_BODY
    requires ReadBody(s, 0, [], maxBody, AdapterSizes(utf8)).Some?
    ensures var read := ReadBody(s, 0, [], maxBody, AdapterSizes(utf8)).value;
            ProbeBody(s, 0, [], ProbeSizes(utf8)) ==
            if Plain(s, 0, [], maxBody, utf8, read) then Some(read.0) else None
  {
    PlainIsProbed(s, 0, [], maxBody, utf8);
  }
}
