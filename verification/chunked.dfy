/** Chunked bodies (section 7.1 of RFC 9112): the adapter's streaming reader and the probe's decoder. */
module Chunked {
  import opened Wrappers
  import opened Text

  /** A byte as a number; nothing below depends on its upper bound. */
  type Byte = int

  const CR: Byte := 13
  const LF: Byte := 10
  const SEMICOLON: Byte := 59
  const COLON: Byte := 58
  const CRLF: seq<Byte> := [13, 10]

  const MAX_HEADER_BYTES: nat := 64 * 1024
  const MAX_CHUNK_LINE: nat := 1024
  const MAX_TRAILER_LINE: nat := 1024
  const MAX_PROBE_BODY: nat := 64 * 1024 * 16
  const USIZE_RANGE: nat := 0x1_0000_0000_0000_0000

  // ----- text of bytes ----------------------------------------------------

  /** UTF-8 decoding is a parameter; all that is asked of it is how it treats ASCII bytes. */
  type Utf8 = seq<Byte> -> Option<string>

  function AsciiJoin(a: Option<string>, c: Byte, b: Option<string>): Option<string>
    requires 0 <= c < 128
  {
    if a.Some? && b.Some? then Some(a.value + [c as char] + b.value) else None
  }

  predicate Joins(utf8: Utf8, a: seq<Byte>, c: Byte, b: seq<Byte>)
    requires 0 <= c < 128
  {
    utf8(a + [c] + b) == AsciiJoin(utf8(a), c, utf8(b))
  }

  predicate Excludes(utf8: Utf8, x: seq<Byte>, c: Byte)
    requires 0 <= c < 128
  {
    c !in x && utf8(x).Some? ==> c as char !in utf8(x).value
  }

  /** An ASCII byte stands for itself, separates what is decoded around it, and comes from nowhere else. */
  ghost predicate KeepsAscii(utf8: Utf8) {
    utf8([]) == Some("") &&
    (forall a: seq<Byte>, c: Byte, b: seq<Byte> :: 0 <= c < 128 ==> Joins(utf8, a, c, b)) &&
    forall x: seq<Byte>, c: Byte :: 0 <= c < 128 ==> Excludes(utf8, x, c)
  }

  // ----- sizes ------------------------------------------------------------

  predicate AllHex(s: string) {
    s == "" || (IsHexDigit(s[|s| - 1]) && AllHex(s[..|s| - 1]))
  }

  function DigitValue(c: char): (v: nat)
    requires IsHexDigit(c)
    ensures v < 16
  {
    if c <= '9' then c as int - '0' as int
    else if c <= 'F' then c as int - 'A' as int + 10
    else c as int - 'a' as int + 10
  }

  /** The values of the hexadecimal digits, in small letters and in capitals, and no other characters. */
  lemma DigitValues(c: char, v: nat)
    requires v < 16
    ensures IsHexDigit(c) && DigitValue(c) == v <==> c == "0123456789abcdef"[v] || c == "0123456789ABCDEF"[v]
  {
  }

  function HexValue(s: string): nat
    requires AllHex(s)
  {
    if s == "" then 0 else 16 * HexValue(s[..|s| - 1]) + DigitValue(s[|s| - 1])
  }

  /** `usize::from_str_radix(text, 16)`: an optional plus sign, at least one digit, 64 bits. */
  function ParseSize(text: string): Option<nat> {
    var digits := if text != "" && text[0] == '+' then text[1..] else text;
    if digits == "" || !AllHex(digits) || HexValue(digits) >= USIZE_RANGE then None else Some(HexValue(digits))
  }

  /** Exactly which size texts are read: hexadecimal digits, perhaps behind one plus sign, of a number
      below 2 to the 64th. */
  lemma SizeAccepted(text: string, n: nat)
    ensures ParseSize(text) == Some(n) <==>
            n < 0x1_0000_0000_0000_0000 &&
            exists digits :: digits != "" && AllHex(digits) && HexValue(digits) == n && (text == digits || text == "+" + digits)
  {
    if text != "" && text[0] == '+' {
      assert text == "+" + text[1..];
      if AllHex(text) { HexFirst(text); }
    }
    forall digits | digits != "" && AllHex(digits) ensures digits[0] != '+' && ("+" + digits)[1..] == digits {
      HexFirst(digits);
    }
  }

  lemma {:induction false} HexFirst(s: string)
    requires s != "" && AllHex(s)
    ensures IsHexDigit(s[0])
  {
    if |s| > 1 {
      HexFirst(s[..|s| - 1]);
    }
  }

  // ----- lines ------------------------------------------------------------

  /** The bytes from `a` up to `b`. */
  function Slice(s: seq<Byte>, a: nat, b: nat): (r: seq<Byte>)
    requires a <= b <= |s|
    ensures |r| == b - a
  {
    seq(b - a, i requires 0 <= i < b - a => s[a + i])
  }

  lemma SliceIs(s: seq<Byte>, a: nat, b: nat)
    requires a <= b <= |s|
    ensures Slice(s, a, b) == s[a..b]
  {
  }

  predicate CrlfAt(s: seq<Byte>, i: nat) {
    i + 1 < |s| && s[i] == CR && s[i + 1] == LF
  }

  /** Where the first line end from `i` on begins, or the length when there is none. */
  function FindCrlf(s: seq<Byte>, i: nat): (r: nat)
    requires i <= |s|
    ensures i <= r <= |s| && (r < |s| ==> r + 2 <= |s|)
    decreases |s| - i
  {
    if i == |s| || CrlfAt(s, i) then i else FindCrlf(s, i + 1)
  }

  lemma {:induction false} FindCrlfIs(s: seq<Byte>, i: nat, r: nat)
    requires i <= r <= |s| && (r == |s| || CrlfAt(s, r)) && forall k :: i <= k < r ==> !CrlfAt(s, k)
    ensures FindCrlf(s, i) == r
    decreases r - i
  {
    if i < r {
      FindCrlfIs(s, i + 1, r);
    }
  }

  lemma {:induction false} FindCrlfSkips(s: seq<Byte>, i: nat, n: nat)
    requires i <= n <= |s| && forall k :: i <= k < n ==> !CrlfAt(s, k)
    ensures FindCrlf(s, i) >= n
    decreases n - i
  {
    if i < n {
      FindCrlfSkips(s, i + 1, n);
    }
  }

  /** The line that starts at `at`, one byte less than the header limit at most, and where the next
      one starts. A stream that ends too early is malformed too. */
  function ReadLine(s: seq<Byte>, at: nat): (r: Option<nat>)
    requires at <= |s|
    ensures r.Some? ==> at <= r.value <= |s| - 2
  {
    var i := FindCrlf(s, at);
    if i < |s| && i - at < MAX_HEADER_BYTES then Some(i) else None
  }

  function SkipTrailers(s: seq<Byte>, at: nat): (r: Option<nat>)
    requires at <= |s|
    ensures r.Some? ==> r.value <= |s|
    decreases |s| - at
  {
    var end := ReadLine(s, at);
    if end.None? then None else if end.value == at then Some(at + 2) else SkipTrailers(s, end.value + 2)
  }

  // ----- the streaming reader ---------------------------------------------

  function SizeOfLine(line: seq<Byte>, utf8: Utf8): Option<nat> {
    match utf8(line)
    case None => None
    case Some(text) => ParseSize(Trim(text[..IndexOf(text, ';')]))
  }

  /** How a size line is read; `None` when it is malformed. */
  type SizeReader = seq<Byte> -> Option<nat>

  function AdapterSizes(utf8: Utf8): SizeReader {
    line => SizeOfLine(line, utf8)
  }

  /** What starts at some place of a chunked body: nothing usable, the end, or a chunk's data. */
  datatype Chunk = Bad | Last(trailers: nat) | Data(from: nat, to: nat)

  /** The reader's next chunk when it already has `have` bytes. */
  function ChunkAt(s: seq<Byte>, at: nat, have: nat, maxBody: nat, sizeOf: SizeReader): (r: Chunk)
    requires at <= |s|
    ensures r.Last? ==> at < r.trailers <= |s|
    ensures r.Data? ==> at < r.from < r.to <= |s| - 2
  {
    match ReadLine(s, at)
    case None => Bad
    case Some(end) =>
      match sizeOf(Slice(s, at, end))
      case None => Bad
      case Some(size) =>
        if size == 0 then Last(end + 2)
        else if have + size > maxBody || !CrlfAt(s, end + 2 + size) then Bad
        else Data(end + 2, end + 2 + size)
  }

  /** What the reader makes of `s` from `at` on, having collected `body`, and where it stops. */
  function ReadBody(s: seq<Byte>, at: nat, body: seq<Byte>, maxBody: nat, sizeOf: SizeReader): Option<(seq<Byte>, nat)>
    requires at <= |s|
    decreases |s| - at
  {
    match ChunkAt(s, at, |body|, maxBody, sizeOf)
    case Bad => None
    case Last(trailers) =>
      (match SkipTrailers(s, trailers)
       case None => None
       case Some(end) => Some((body, end)))
    case Data(from, to) => ReadBody(s, to + 2, body + Slice(s, from, to), maxBody, sizeOf)
  }

  lemma SliceAppend<T>(s: seq<T>, a: nat, b: nat, c: nat)
    requires a <= b <= c <= |s|
    ensures s[a..b] + s[b..c] == s[a..c]
  {
  }

  /** No line ends between `at` and `n`. */
  predicate NoLineIn(s: seq<Byte>, at: nat, n: nat) {
    forall k :: at <= k < n - 1 ==> !CrlfAt(s, k)
  }

  lemma LineFound(s: seq<Byte>, at: nat, n: nat)
    requires at + 2 <= n <= |s| && n - 2 - at < MAX_HEADER_BYTES && CrlfAt(s, n - 2) && NoLineIn(s, at, n - 1)
    ensures ReadLine(s, at) == Some(n - 2)
  {
    FindCrlfIs(s, at, n - 2);
  }

  lemma LineUnfinished(s: seq<Byte>, at: nat, n: nat)
    requires at <= n <= |s| && NoLineIn(s, at, n) && (n == |s| || n - at > MAX_HEADER_BYTES)
    ensures ReadLine(s, at).None?
  {
    if n == |s| {
      FindCrlfIs(s, at, n);
    } else {
      FindCrlfSkips(s, at, n - 1);
    }
  }

  /** A byte stream and how far it has been read. */
  class Reader {
    const input: seq<Byte>
    var at: nat

    predicate Valid()
      reads this
    {
      at <= |input|
    }

    constructor (input: seq<Byte>)
      ensures Valid() && this.input == input && at == 0
    {
      this.input := input;
      at := 0;
    }

    /** Fills the buffer, or reports the end of the stream. */
    method ReadExact(n: nat) returns (r: Option<seq<Byte>>)
      requires Valid()
      modifies this
      ensures Valid()
      ensures r == if old(at) + n <= |input| then Some(input[old(at)..old(at) + n]) else None
      ensures at == if old(at) + n <= |input| then old(at) + n else |input|
    {
      if |input| - at < n {
        at := |input|;
        return None;
      }
      r := Some(input[at..at + n]);
      at := at + n;
    }

    /** Reads byte by byte up to a line end. */
    method NextLine() returns (r: Option<seq<Byte>>)
      requires Valid()
      modifies this
      ensures Valid()
      ensures r.Some? == ReadLine(input, old(at)).Some?
      ensures r.Some? ==> at == ReadLine(input, old(at)).value + 2 && r.value == Slice(input, old(at), at - 2)
    {
      ghost var start := at;
      var line: seq<Byte> := [];
      while true
        invariant start <= at <= |input| && line == input[start..at]
        invariant |line| <= MAX_HEADER_BYTES && NoLineIn(input, start, at)
        decreases |input| - at
      {
        var byte := ReadExact(1);
        if byte.None? {
          LineUnfinished(input, start, at);
          return None;
        }
        line := line + byte.value;
        SliceAppend(input, start, at - 1, at);
        if |line| >= 2 && line[|line| - 2] == CR && line[|line| - 1] == LF {
          LineFound(input, start, at);
          SliceIs(input, start, at - 2);
          return Some(line[..|line| - 2]);
        }
        if |line| > MAX_HEADER_BYTES {
          LineUnfinished(input, start, at);
          return None;
        }
      }
    }

    /** Reads trailer lines up to and including the empty one. */
    method FinishTrailers() returns (done: bool)
      requires Valid()
      modifies this
      ensures Valid()
      ensures done == SkipTrailers(input, old(at)).Some?
      ensures done ==> at == SkipTrailers(input, old(at)).value
    {
      while true
        invariant Valid() && SkipTrailers(input, at) == SkipTrailers(input, old(at))
        decreases |input| - at
      {
        var trailer := NextLine();
        if trailer.None? { return false; }
        if trailer.value == [] { return true; }
      }
    }

    /** Reads the data of a chunk and the line end after it. */
    method ReadData(size: nat) returns (r: Option<seq<Byte>>)
      requires Valid()
      modifies this
      ensures Valid()
      ensures r.Some? == CrlfAt(input, old(at) + size)
      ensures r.Some? ==> r.value == Slice(input, old(at), old(at) + size) && at == old(at) + size + 2
    {
      var data := ReadExact(size);
      if data.None? { return None; }
      SliceIs(input, old(at), at);
      var crlf := ReadExact(2);
      return if crlf.Some? && crlf.value[0] == CR && crlf.value[1] == LF then data else None;
    }

    /** Reads a size line and, unless it is the last one, the data it announces. */
    method NextChunk(have: nat, maxBody: nat, sizeOf: SizeReader) returns (r: Chunk, data: seq<Byte>)
      requires Valid()
      modifies this
      ensures Valid() && r == ChunkAt(input, old(at), have, maxBody, sizeOf)
      ensures r.Last? ==> at == r.trailers
      ensures r.Data? ==> data == Slice(input, r.from, r.to) && at == r.to + 2
    {
      data := [];
      var line := NextLine();
      if line.None? { return Bad, data; }
      var size := sizeOf(line.value);
      if size.None? { return Bad, data; }
      if size.value == 0 { return Last(at), data; }
      if have + size.value > maxBody { return Bad, data; }
      ghost var from := at;
      var read := ReadData(size.value);
      if read.None? { return Bad, data; }
      return Data(at - 2 - size.value, at - 2), read.value;
    }

    /** Reads a whole chunked body, its trailers and the empty line after them. */
    method ReadChunkedBody(maxBody: nat, sizeOf: SizeReader) returns (r: Option<seq<Byte>>)
      requires Valid()
      modifies this
      ensures Valid()
      ensures r.Some? == ReadBody(input, old(at), [], maxBody, sizeOf).Some?
      ensures r.Some? ==> ReadBody(input, old(at), [], maxBody, sizeOf) == Some((r.value, at))
    {
      ghost var whole := ReadBody(input, at, [], maxBody, sizeOf);
      var body: seq<Byte> := [];
      while true
        invariant Valid() && ReadBody(input, at, body, maxBody, sizeOf) == whole
        decreases |input| - at
      {
        var chunk, data := NextChunk(|body|, maxBody, sizeOf);
        if chunk.Bad? {
          return None;
        }
        if chunk.Last? {
          var done := FinishTrailers();
          return if done then Some(body) else None;
        }
        body := body + data;
      }
    }
  }

  // ----- the probe's decoder ----------------------------------------------

  function FindByte(s: seq<Byte>, b: Byte, i: nat): (r: nat)
    requires i <= |s|
    ensures i <= r <= |s|
    ensures r < |s| ==> s[r] == b
    ensures forall k :: i <= k < r ==> s[k] != b
    decreases |s| - i
  {
    if i == |s| || s[i] == b then i else FindByte(s, b, i + 1)
  }

  /** The size on a line: hexadecimal digits only, up to the first semicolon; the rest is not decoded. */
  function ProbeSize(line: seq<Byte>, utf8: Utf8): Option<nat> {
    match utf8(line[..FindByte(line, SEMICOLON, 0)])
    case None => None
    case Some(text) => if Trim(text) == "" || !AllHex(Trim(text)) then None else ParseSize(Trim(text))
  }

  function ProbeSizes(utf8: Utf8): SizeReader {
    line => ProbeSize(line, utf8)
  }

  /** Whether there are trailer lines, each with a colon, up to an empty line that ends the input. */
  predicate ProbeTrailers(s: seq<Byte>, at: nat)
    requires at <= |s|
    decreases |s| - at
  {
    var end := FindCrlf(s, at);
    end < |s| && end - at <= MAX_TRAILER_LINE &&
    if end == at then at + 2 == |s| else COLON in Slice(s, at, end) && ProbeTrailers(s, end + 2)
  }

  /** The probe's next chunk when it already has `have` bytes. */
  function ProbeChunkAt(s: seq<Byte>, at: nat, have: nat, sizeOf: SizeReader): (r: Chunk)
    requires at <= |s|
    ensures r.Last? ==> at < r.trailers <= |s|
    ensures r.Data? ==> at < r.from < r.to <= |s| - 2
  {
    var end := FindCrlf(s, at);
    if end == |s| || end - at > MAX_CHUNK_LINE then Bad
    else
      match sizeOf(Slice(s, at, end))
      case None => Bad
      case Some(size) =>
        if size == 0 then Last(end + 2)
        else if have + size > MAX_PROBE_BODY || !CrlfAt(s, end + 2 + size) then Bad
        else Data(end + 2, end + 2 + size)
  }

  function ProbeBody(s: seq<Byte>, at: nat, output: seq<Byte>, sizeOf: SizeReader): Option<seq<Byte>>
    requires at <= |s|
    decreases |s| - at
  {
    match ProbeChunkAt(s, at, |output|, sizeOf)
    case Bad => None
    case Last(trailers) => if ProbeTrailers(s, trailers) then Some(output) else None
    case Data(from, to) => ProbeBody(s, to + 2, output + Slice(s, from, to), sizeOf)
  }

  method DecodeTrailers(input: seq<Byte>, start: nat) returns (complete: bool)
    requires start <= |input|
    ensures complete == ProbeTrailers(input, start)
  {
    var cursor := start;
    while true
      invariant cursor <= |input| && ProbeTrailers(input, start) == ProbeTrailers(input, cursor)
      decreases |input| - cursor
    {
      var end := FindCrlf(input, cursor);
      if end == |input| || end - cursor > MAX_TRAILER_LINE {
        return false;
      }
      if end == cursor {
        return cursor + 2 == |input|;
      }
      SliceIs(input, cursor, end);
      if COLON !in input[cursor..end] {
        return false;
      }
      cursor := end + 2;
    }
  }

  method DecodeChunk(input: seq<Byte>, cursor: nat, have: nat, sizeOf: SizeReader) returns (r: Chunk, data: seq<Byte>)
    requires cursor <= |input|
    ensures r == ProbeChunkAt(input, cursor, have, sizeOf)
    ensures r.Data? ==> data == Slice(input, r.from, r.to)
  {
    data := [];
    var end := FindCrlf(input, cursor);
    if end == |input| || end - cursor > MAX_CHUNK_LINE {
      return Bad, data;
    }
    SliceIs(input, cursor, end);
    var size := sizeOf(input[cursor..end]);
    if size.None? {
      return Bad, data;
    }
    var from := end + 2;
    if size.value == 0 {
      return Last(from), data;
    }
    if have + size.value > MAX_PROBE_BODY {
      return Bad, data;
    }
    var to := from + size.value;
    if to + 2 > |input| || input[to] != CR || input[to + 1] != LF {
      return Bad, data;
    }
    SliceIs(input, from, to);
    return Data(from, to), input[from..to];
  }

  method DecodeChunked(input: seq<Byte>, sizeOf: SizeReader) returns (r: Option<seq<Byte>>)
    ensures r == ProbeBody(input, 0, [], sizeOf)
  {
    ghost var whole := ProbeBody(input, 0, [], sizeOf);
    var output: seq<Byte> := [];
    var cursor: nat := 0;
    while true
      invariant cursor <= |input| && ProbeBody(input, cursor, output, sizeOf) == whole
      decreases |input| - cursor
    {
      var chunk, data := DecodeChunk(input, cursor, |output|, sizeOf);
      if chunk.Bad? {
        return None;
      }
      if chunk.Last? {
        var complete := DecodeTrailers(input, chunk.trailers);
        return if complete then Some(output) else None;
      }
      output := output + data;
      cursor := chunk.to + 2;
    }
  }
}
