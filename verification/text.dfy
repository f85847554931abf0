/** The parts of Rust's `str` and `BTreeMap<String, _>` that the modelled code relies on. */
module Text {
  import opened Wrappers

  // ----- code point order -------------------------------------------------

  /** `a < b` on strings: lexicographic by code point, which is also the byte order of UTF-8. */
  predicate Less(a: string, b: string)
  {
    |b| > 0 && (|a| == 0 || a[0] < b[0] || (a[0] == b[0] && Less(a[1..], b[1..])))
  }

  predicate AtMost(a: string, b: string) {
    a == b || Less(a, b)
  }

  lemma {:induction false} LessTrichotomy(a: string, b: string)
    ensures Less(a, b) || a == b || Less(b, a)
    ensures !(Less(a, b) && Less(b, a))
    ensures !Less(a, a)
  {
    if |a| > 0 {
      LessTrichotomy(a[1..], a[1..]);
    }
    if |a| > 0 && |b| > 0 && a[0] == b[0] {
      LessTrichotomy(a[1..], b[1..]);
      assert a == [a[0]] + a[1..] && b == [b[0]] + b[1..];
    }
  }

  lemma {:induction false} LessTransitive(a: string, b: string, c: string)
    requires Less(a, b) && Less(b, c)
    ensures Less(a, c)
  {
    if |a| > 0 && a[0] == b[0] && b[0] == c[0] {
      LessTransitive(a[1..], b[1..], c[1..]);
    }
  }

  // ----- iteration order of a BTreeMap ------------------------------------

  predicate StrictlySorted(keys: seq<string>) {
    forall i, j :: 0 <= i < j < |keys| ==> Less(keys[i], keys[j])
  }

  predicate IsLeast(s: set<string>, k: string) {
    k in s && forall other :: other in s && other != k ==> Less(k, other)
  }

  lemma {:induction false} LeastExists(s: set<string>)
    requires s != {}
    ensures exists k :: IsLeast(s, k)
  {
    var x :| x in s;
    if s == {x} {
      assert IsLeast(s, x);
    } else {
      var rest := s - {x};
      LeastExists(rest);
      var k :| IsLeast(rest, k);
      LessTrichotomy(x, k);
      var least := if Less(x, k) then x else k;
      forall other | other in s && other != least
        ensures Less(least, other)
      {
        if least == x && other != k {
          LessTransitive(x, k, other);
        }
      }
      assert IsLeast(s, least);
    }
  }

  function Least(s: set<string>): (k: string)
    requires s != {}
    ensures IsLeast(s, k)
  {
    LeastExists(s);
    assert forall a, b | IsLeast(s, a) && IsLeast(s, b) :: a == b by {
      forall a, b | IsLeast(s, a) && IsLeast(s, b)
        ensures a == b
      {
        LessTrichotomy(a, b);
      }
    }
    var k :| k in s && IsLeast(s, k);
    k
  }

  /** The keys in the order in which a `BTreeMap` or `BTreeSet` yields them. */
  function SortedKeys(s: set<string>): (keys: seq<string>)
    ensures forall k :: k in keys <==> k in s
    ensures |keys| == |s|
  {
    if s == {} then [] else
    var k := Least(s);
    [k] + SortedKeys(s - {k})
  }

  lemma {:induction false} SortedKeysAscend(s: set<string>)
    ensures StrictlySorted(SortedKeys(s))
  {
    if s != {} {
      var k := Least(s);
      var rest := SortedKeys(s - {k});
      SortedKeysAscend(s - {k});
      var keys := [k] + rest;
      forall i, j | 0 <= i < j < |keys|
        ensures Less(keys[i], keys[j])
      {
        assert keys[j] == rest[j - 1] && rest[j - 1] in rest;
        if i > 0 { assert keys[i] == rest[i - 1]; }
      }
    }
  }

  // ----- searching, replacing and splitting -------------------------------

  lemma ConcatAssociates<T>(a: seq<T>, b: seq<T>, c: seq<T>)
    ensures a + b + c == a + (b + c)
  {
  }

  /** Rust's `str::replace`: leftmost, non-overlapping occurrences. */
  function Replace(s: string, from: string, to: string): string
    requires |from| > 0
  {
    if |s| < |from| then s
    else if s[..|from|] == from then to + Replace(s[|from|..], from, to)
    else [s[0]] + Replace(s[1..], from, to)
  }

  lemma ReplaceAtHit(from: string, to: string, rest: string)
    requires |from| > 0
    ensures Replace(from + rest, from, to) == to + Replace(rest, from, to)
  {
    assert (from + rest)[..|from|] == from && (from + rest)[|from|..] == rest;
  }

  lemma ReplaceShort(s: string, from: string, to: string)
    requires |s| < |from|
    ensures Replace(s, from, to) == s
  {
  }

  /** No occurrence of `from` starts inside `a` when `a` lacks the first character of `from`. */
  lemma {:induction false} ReplaceSkips(a: string, rest: string, from: string, to: string)
    requires |from| > 0 && from[0] !in a
    ensures Replace(a + rest, from, to) == a + Replace(rest, from, to)
  {
    if a == [] {
      assert a + rest == rest;
    } else {
      var s := a + rest;
      assert s[0] == a[0] && a[0] in a;
      assert s[1..] == a[1..] + rest;
      assert from[0] !in a[1..];
      ReplaceSkips(a[1..], rest, from, to);
      if |s| >= |from| {
        assert s[..|from|][0] == a[0];
        assert Replace(s, from, to) == [s[0]] + Replace(s[1..], from, to);
      } else {
        ReplaceShort(s[1..], from, to);
      }
      assert [a[0]] + (a[1..] + Replace(rest, from, to)) == a + Replace(rest, from, to);
    }
  }

  lemma {:induction false} ReplaceRemoves(s: string, c: char, to: string)
    requires c !in to
    ensures c !in Replace(s, [c], to)
  {
    if s != [] {
      assert s == [s[0]] + s[1..];
      ReplaceRemoves(s[1..], c, to);
      if s[0] == c {
        ReplaceAtHit([c], to, s[1..]);
      } else {
        ReplaceSkips([s[0]], s[1..], [c], to);
      }
    }
  }

  // ----- character codes --------------------------------------------------

  function CodeOf(c: char, code: map<char, string>): string {
    if c in code then code[c] else [c]
  }

  /** `s` with every coded character replaced by its code, all at once. */
  function Encode(s: string, code: map<char, string>): string {
    if s == [] then [] else CodeOf(s[0], code) + Encode(s[1..], code)
  }

  lemma {:induction false} EncodeNothing(s: string)
    ensures Encode(s, map[]) == s
  {
    if s != [] {
      EncodeNothing(s[1..]);
      assert s == [s[0]] + s[1..];
    }
  }

  /** Replacing one more character in a coded text codes that character, if no code contains it. */
  lemma {:induction false} EncodePass(s: string, code: map<char, string>, c: char, to: string)
    requires c !in code && forall x :: x in code ==> c !in code[x]
    ensures Replace(Encode(s, code), [c], to) == Encode(s, code[c := to])
  {
    if s != [] {
      EncodePass(s[1..], code, c, to);
      var rest := Encode(s[1..], code);
      if s[0] == c {
        ReplaceAtHit([c], to, rest);
      } else {
        ReplaceSkips(CodeOf(s[0], code), rest, [c], to);
      }
    }
  }

  lemma {:induction false} EncodeConcat(a: string, b: string, code: map<char, string>)
    ensures Encode(a + b, code) == Encode(a, code) + Encode(b, code)
  {
    if a == [] {
      assert a + b == b;
    } else {
      assert (a + b)[1..] == a[1..] + b;
      EncodeConcat(a[1..], b, code);
      assert CodeOf(a[0], code) + (Encode(a[1..], code) + Encode(b, code)) == Encode(a, code) + Encode(b, code);
    }
  }

  /** The index of the first `d`, or `|s|` when there is none. */
  function IndexOf(s: string, d: char): (i: nat)
    ensures i <= |s|
    ensures d !in s[..i]
    ensures i < |s| ==> s[i] == d
    ensures i == |s| <==> d !in s
  {
    if s == [] then 0
    else if s[0] == d then 0
    else
      assert s == [s[0]] + s[1..];
      var i := 1 + IndexOf(s[1..], d);
      assert s[..i] == [s[0]] + s[1..][..i - 1];
      i
  }

  lemma IndexOfConcat(a: string, d: char, b: string)
    requires d !in a
    ensures IndexOf(a + [d] + b, d) == |a|
  {
    var s := a + [d] + b;
    var i := IndexOf(s, d);
    assert s[|a|] == d && d in s;
    assert forall k :: 0 <= k < |a| ==> s[k] == a[k] && s[k] != d;
    assert forall k :: 0 <= k < i ==> s[k] in s[..i];
  }

  /** Rust's `str::split` on one character; the result is never empty. */
  function Split(s: string, d: char): (parts: seq<string>)
    ensures |parts| > 0
    decreases |s|
  {
    var i := IndexOf(s, d);
    if i == |s| then [s] else [s[..i]] + Split(s[i + 1..], d)
  }

  /** The parts hold the characters of `s` other than `d`. */
  lemma {:induction false} SplitChars(s: string, d: char)
    ensures forall p, c :: p in Split(s, d) && c in p ==> c in s && c != d
    decreases |s|
  {
    var i := IndexOf(s, d);
    if i < |s| {
      SplitChars(s[i + 1..], d);
      assert forall c :: c in s[i + 1..] ==> c in s;
      assert forall c :: c in s[..i] ==> c in s;
    }
  }

  lemma {:induction false} SplitAppend(a: string, d: char, b: string)
    ensures Split(a + [d] + b, d) == Split(a, d) + Split(b, d)
    decreases |a|
  {
    var i := IndexOf(a, d);
    if i == |a| {
      SplitConcat(a, d, b);
    } else {
      var front, rest := a[..i], a[i + 1..];
      assert a == front + [d] + rest;
      ConcatAssociates(front + [d], rest, [d]);
      ConcatAssociates(front + [d], rest + [d], b);
      SplitConcat(front, d, rest + [d] + b);
      SplitConcat(front, d, rest);
      SplitAppend(rest, d, b);
      ConcatAssociates([front], Split(rest, d), Split(b, d));
    }
  }

  lemma SplitConcat(a: string, d: char, b: string)
    requires d !in a
    ensures Split(a + [d] + b, d) == [a] + Split(b, d)
  {
    IndexOfConcat(a, d, b);
    var s := a + [d] + b;
    assert s[..|a|] == a && s[|a| + 1..] == b;
  }

  /** Rust's `str::split_once` on one character. */
  function SplitOnce(s: string, d: char): Option<(string, string)>
  {
    var i := IndexOf(s, d);
    if i == |s| then None else Some((s[..i], s[i + 1..]))
  }

  lemma SplitOnceConcat(a: string, d: char, b: string)
    requires d !in a
    ensures SplitOnce(a + [d] + b, d) == Some((a, b))
  {
    IndexOfConcat(a, d, b);
    var s := a + [d] + b;
    assert s[..|a|] == a && s[|a| + 1..] == b;
  }

  lemma SplitOnceParts(s: string, d: char)
    ensures SplitOnce(s, d).None? <==> d !in s
    ensures SplitOnce(s, d).Some? ==>
              d !in SplitOnce(s, d).value.0 &&
              s == SplitOnce(s, d).value.0 + [d] + SplitOnce(s, d).value.1
  {
  }

  /** `a.join(separator)`. */
  function Join(parts: seq<string>, separator: string): string {
    if |parts| == 0 then ""
    else if |parts| == 1 then parts[0]
    else parts[0] + separator + Join(parts[1..], separator)
  }

  // ----- character classes ------------------------------------------------

  predicate IsDigit(c: char) { '0' <= c <= '9' }

  predicate IsHexDigit(c: char) {
    '0' <= c <= '9' || 'a' <= c <= 'f' || 'A' <= c <= 'F'
  }

  predicate AllDigits(s: string) {
    forall c :: c in s ==> IsDigit(c)
  }

  function DecimalValue(digits: string): (v: nat)
    requires AllDigits(digits)
  {
    if digits == [] then 0
    else
      assert digits[|digits| - 1] in digits;
      assert forall c :: c in digits[..|digits| - 1] ==> c in digits;
      10 * DecimalValue(digits[..|digits| - 1]) + (digits[|digits| - 1] as int - '0' as int)
  }

  /** A number in decimal digits. */
  function Decimal(n: nat): (digits: string)
    ensures digits != "" && AllDigits(digits)
  {
    if n < 10 then [('0' as int + n) as char] else Decimal(n / 10) + [('0' as int + n % 10) as char]
  }

  lemma {:induction false} DecimalReads(n: nat)
    ensures DecimalValue(Decimal(n)) == n
  {
    if n < 10 {
      assert Decimal(n)[..0] == "";
    } else {
      DecimalReads(n / 10);
      assert Decimal(n)[..|Decimal(n)| - 1] == Decimal(n / 10);
    }
  }

  /** `char::is_whitespace`: the Unicode White_Space property. */
  predicate IsWhitespace(c: char) {
    '\t' <= c <= '\r' || c == ' ' || c == '\U{85}' || c == '\U{A0}' || c == '\U{1680}' ||
    '\U{2000}' <= c <= '\U{200A}' || c == '\U{2028}' || c == '\U{2029}' || c == '\U{202F}' ||
    c == '\U{205F}' || c == '\U{3000}'
  }

  /** `char::is_control`: Unicode general category Cc. */
  predicate IsControl(c: char) {
    c < ' ' || '\U{7F}' <= c <= '\U{9F}'
  }

  /** The first index from `i` on that holds no whitespace. */
  function SolidFrom(s: string, i: nat): (r: nat)
    requires i <= |s|
    ensures i <= r <= |s|
    ensures r < |s| ==> !IsWhitespace(s[r])
    decreases |s| - i
  {
    if i < |s| && IsWhitespace(s[i]) then SolidFrom(s, i + 1) else i
  }

  /** The last index down to `low` after which there is only whitespace before `j`. */
  function SolidTo(s: string, low: nat, j: nat): (r: nat)
    requires low <= j <= |s|
    ensures low <= r <= j
    ensures r > low ==> !IsWhitespace(s[r - 1])
  {
    if j > low && IsWhitespace(s[j - 1]) then SolidTo(s, low, j - 1) else j
  }

  /** Rust's `str::trim`. */
  function Trim(s: string): (t: string)
    ensures |t| <= |s|
    ensures |t| > 0 ==> !IsWhitespace(t[0]) && !IsWhitespace(t[|t| - 1])
    ensures |s| > 0 && !IsWhitespace(s[0]) && !IsWhitespace(s[|s| - 1]) ==> t == s
    ensures |t| == |s| ==> t == s
  {
    var low := SolidFrom(s, 0);
    s[low..SolidTo(s, low, |s|)]
  }

  lemma {:induction false} SolidFromSkips(s: string, i: nat)
    requires i <= |s|
    ensures forall k :: i <= k < SolidFrom(s, i) ==> IsWhitespace(s[k])
    decreases |s| - i
  {
    if i < |s| && IsWhitespace(s[i]) {
      SolidFromSkips(s, i + 1);
    }
  }

  lemma {:induction false} SolidToSkips(s: string, low: nat, j: nat)
    requires low <= j <= |s|
    ensures forall k :: SolidTo(s, low, j) <= k < j ==> IsWhitespace(s[k])
  {
    if j > low && IsWhitespace(s[j - 1]) {
      SolidToSkips(s, low, j - 1);
    }
  }

  lemma {:induction false} SolidToReaches(s: string, low: nat, j: nat)
    requires low <= j <= |s| && low < |s| && !IsWhitespace(s[low]) && low < j
    ensures SolidTo(s, low, j) > low
  {
    if IsWhitespace(s[j - 1]) {
      SolidToReaches(s, low, j - 1);
    }
  }

  /** Trimming cuts off whitespace and nothing else; with its postconditions, all of it. */
  lemma TrimCuts(s: string)
    ensures exists i, j :: 0 <= i <= j <= |s| && Trim(s) == s[i..j] && IsBlankText(s[..i]) && IsBlankText(s[j..])
    ensures Trim(s) == "" <==> IsBlankText(s)
  {
    var low := SolidFrom(s, 0);
    var high := SolidTo(s, low, |s|);
    SolidFromSkips(s, 0);
    SolidToSkips(s, low, |s|);
    assert Trim(s) == s[low..high] && IsBlankText(s[..low]) && IsBlankText(s[high..]);
    if low < |s| {
      assert s[low] in s;
      SolidToReaches(s, low, |s|);
    } else {
      assert s[..low] == s;
    }
  }

  predicate IsBlankText(s: string) {
    forall c :: c in s ==> IsWhitespace(c)
  }

  function UpperChar(c: char): char {
    if 'a' <= c <= 'z' then (c as int - 32) as char else c
  }

  /** Rust's `to_ascii_uppercase`. */
  function Upper(s: string): (u: string)
    ensures |u| == |s|
    ensures forall i :: 0 <= i < |s| ==> u[i] == UpperChar(s[i])
  {
    if s == [] then [] else [UpperChar(s[0])] + Upper(s[1..])
  }

  function LowerChar(c: char): char {
    if 'A' <= c <= 'Z' then (c as int + 32) as char else c
  }

  /** Rust's `to_ascii_lowercase`. */
  function Lower(s: string): (l: string)
    ensures |l| == |s|
    ensures forall i :: 0 <= i < |s| ==> l[i] == LowerChar(s[i])
  {
    if s == [] then [] else [LowerChar(s[0])] + Lower(s[1..])
  }

  predicate IsUpper(s: string) {
    forall c :: c in s ==> !('a' <= c <= 'z')
  }

  lemma UpperOfUpper(s: string)
    ensures IsUpper(Upper(s))
    ensures IsUpper(s) <==> Upper(s) == s
  {
    if !IsUpper(s) {
      var c :| c in s && 'a' <= c <= 'z';
      var i :| 0 <= i < |s| && s[i] == c;
      assert Upper(s)[i] != s[i];
    } else {
      forall i | 0 <= i < |s| ensures Upper(s)[i] == s[i] {
        assert s[i] in s;
      }
    }
  }

  /** The length of `s` in UTF-8 bytes: Rust's `str::len`. */
  function ByteLength(s: string): (n: nat)
    ensures n >= |s|
  {
    if s == [] then 0 else CharBytes(s[0]) + ByteLength(s[1..])
  }

  function CharBytes(c: char): (n: nat)
    ensures 1 <= n <= 4
  {
    if c < '\U{80}' then 1 else if c < '\U{800}' then 2 else if c < '\U{10000}' then 3 else 4
  }

  lemma {:induction false} ByteLengthAscii(s: string)
    requires forall c :: c in s ==> c < '\U{80}'
    ensures ByteLength(s) == |s|
  {
    if s != [] {
      assert forall c :: c in s[1..] ==> c in s;
      assert s[0] in s;
      ByteLengthAscii(s[1..]);
    }
  }
}
