/** `xml_escape` and `xml_unescape`: two chains of five whole-string replacements. */
module XmlText {
  import opened Text

  function Escape(value: string): string {
    var a := Replace(value, "&", "&amp;");
    var b := Replace(a, "<", "&lt;");
    var c := Replace(b, ">", "&gt;");
    var d := Replace(c, "\"", "&quot;");
    Replace(d, "'", "&apos;")
  }

  function Unescape(s: string): string {
    var a := Replace(s, "&lt;", "<");
    var b := Replace(a, "&gt;", ">");
    var c := Replace(b, "&quot;", "\"");
    var d := Replace(c, "&apos;", "'");
    Replace(d, "&amp;", "&")
  }

  // ----- the meaning of a partly escaped text -----------------------------

  const Special: set<char> := {'&', '<', '>', '"', '\''}

  function Entity(c: char): string
    requires c in Special
  {
    match c
    case '&' => "&amp;"
    case '<' => "&lt;"
    case '>' => "&gt;"
    case '"' => "&quot;"
    case _ => "&apos;"
  }

  function Entities(coded: set<char>): map<char, string>
    requires coded <= Special
  {
    map c | c in coded :: Entity(c)
  }

  /** Entities open with the one ampersand in them and differ in their second or third character. */
  lemma EntitiesDiffer(x: char, c: char)
    requires x in Special && c in Special && x != c
    ensures |Entity(x)| >= 4 && |Entity(c)| >= 4
    ensures Entity(x)[0] == '&' == Entity(c)[0]
    ensures Entity(x)[1] != Entity(c)[1] || Entity(x)[2] != Entity(c)[2]
    ensures '&' !in Entity(x)[1..]
  {
  }

  lemma EntityIsInert(x: char)
    requires x in Special
    ensures forall c :: c in Entity(x) ==> c == '&' || c !in Special
    ensures |Entity(x)| > 1
  {
  }

  /** An entity is not mistaken for another one. */
  lemma EntityMisses(e: string, from: string, to: string, rest: string)
    requires |e| >= 4 && |from| >= 4 && e[0] == '&' == from[0] && '&' !in e[1..]
    requires e[1] != from[1] || e[2] != from[2]
    ensures Replace(e + rest, from, to) == e + Replace(rest, from, to)
  {
    hide Entity, Entities, Encode;
    var s := e + rest;
    assert s[0] == '&' && s[1..] == e[1..] + rest;
    assert s[1] == e[1] && s[2] == e[2];
    assert |s| >= |from| ==> s[..|from|][1] == s[1] && s[..|from|][2] == s[2];
    ReplaceSkips(e[1..], rest, from, to);
    if |s| < |from| {
      ReplaceShort(s, from, to);
      ReplaceShort(rest, from, to);
    } else {
      assert Replace(s, from, to) == ['&'] + (e[1..] + Replace(rest, from, to));
      assert ['&'] + (e[1..] + Replace(rest, from, to)) == e + Replace(rest, from, to);
    }
  }

  /** One escaping pass codes one more character; the entities already written stay as they are. */
  lemma EscapePass(s: string, coded: set<char>, c: char)
    requires coded <= Special && c in Special && c !in coded && (c == '&' ==> coded == {})
    ensures Replace(Encode(s, Entities(coded)), [c], Entity(c)) == Encode(s, Entities(coded + {c}))
  {
    var code := Entities(coded);
    forall x | x in code ensures c !in code[x] {
      EntityIsInert(x);
    }
    EncodePass(s, code, c, Entity(c));
    assert code[c := Entity(c)] == Entities(coded + {c});
  }

  lemma EscapeIsEncode(s: string)
    ensures Escape(s) == Encode(s, Entities(Special))
  {
    var one := {'&'};
    var two, three := one + {'<'}, one + {'<'} + {'>'};
    var four := three + {'"'};
    EncodeNothing(s);
    assert Entities({}) == map[];
    hide Encode, Replace, Entities;
    EscapePass(s, {}, '&');
    assert {} + {'&'} == one;
    EscapePass(s, one, '<');
    EscapePass(s, two, '>');
    EscapePass(s, three, '"');
    EscapePass(s, four, '\'');
    assert four + {'\''} == Special;
  }

  /** One unescaping pass removes one character from the coded set: while every plain `&` is
      still coded, an ampersand in the text can only open an entity. */
  lemma {:induction false} UnescapePass(s: string, coded: set<char>, c: char)
    requires coded <= Special && '&' in coded && c in coded && c != '&'
    ensures Replace(Encode(s, Entities(coded)), Entity(c), [c]) == Encode(s, Entities(coded - {c}))
  {
    if s != [] {
      UnescapePass(s[1..], coded, c);
      var rest := Encode(s[1..], Entities(coded));
      if s[0] == c {
        ReplaceAtHit(Entity(c), [c], rest);
      } else if s[0] in coded {
        EntitiesDiffer(s[0], c);
        EntityMisses(Entity(s[0]), Entity(c), [c], rest);
      } else {
        EntitiesDiffer('&', c);
        ReplaceSkips([s[0]], rest, Entity(c), [c]);
      }
    }
  }

  lemma {:induction false} UnescapeLastPass(s: string)
    ensures Replace(Encode(s, Entities({'&'})), "&amp;", "&") == s
  {
    if s != [] {
      UnescapeLastPass(s[1..]);
      var rest := Encode(s[1..], Entities({'&'}));
      if s[0] == '&' {
        ReplaceAtHit("&amp;", "&", rest);
      } else {
        ReplaceSkips([s[0]], rest, "&amp;", "&");
      }
      assert s == [s[0]] + s[1..];
    }
  }

  /** The two chains compose to the identity on every string. */
  lemma EscapeRoundTrip(s: string)
    ensures Unescape(Escape(s)) == s
  {
    EscapeIsEncode(s);
    hide Encode, Replace, Entities;
    var one := Special - {'<'};
    var two := one - {'>'};
    var three := two - {'"'};
    UnescapePass(s, Special, '<');
    UnescapePass(s, one, '>');
    UnescapePass(s, two, '"');
    UnescapePass(s, three, '\'');
    assert three - {'\''} == {'&'};
    UnescapeLastPass(s);
  }

  /** Escaped text carries no markup character, and only text without special characters is left as it was. */
  lemma EscapedIsInert(s: string)
    ensures forall c :: c in Escape(s) ==> c == '&' || c !in Special
    ensures Escape(s) == s <==> forall c :: c in s ==> c !in Special
  {
    EscapeIsEncode(s);
    EncodedIsInert(s);
  }

  lemma {:induction false} EncodedIsInert(s: string)
    ensures forall c :: c in Encode(s, Entities(Special)) ==> c == '&' || c !in Special
    ensures |Encode(s, Entities(Special))| >= |s|
    ensures |Encode(s, Entities(Special))| == |s| <==> forall c :: c in s ==> c !in Special
    ensures (forall c :: c in s ==> c !in Special) ==> Encode(s, Entities(Special)) == s
  {
    if s != [] {
      EncodedIsInert(s[1..]);
      assert s == [s[0]] + s[1..];
      if s[0] in Special {
        EntityIsInert(s[0]);
      }
    }
  }
}
