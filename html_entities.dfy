/**
 * `htmlentities` of public/js/utils.js: four global replacements applied in
 * turn, `&` first, then `<`, `>` and `"`.
 */
module HtmlEntities {

  /** `s.replace(/c/g, by)`: every occurrence of `c` becomes `entity`. */
  function ReplaceAll(s: string, c: char, entity: string): string
    decreases |s|
  {
    if s == [] then [] else (if s[0] == c then entity else [s[0]]) + ReplaceAll(s[1..], c, entity)
  }

  /** The four replacements, chained in the source's order. */
  function HtmlEntities(s: string): (r: string)
    ensures r == EscapeEach(s)
  {
    ChainIsPerCharacter(s);
    ReplaceAll(ReplaceAll(ReplaceAll(ReplaceAll(s, '&', "&amp;"), '<', "&lt;"), '>', "&gt;"), '"', "&quot;")
  }

  /** The characters `htmlentities` escapes. */
  predicate Special(c: char)
  {
    c == '&' || c == '<' || c == '>' || c == '"'
  }

  /** The entity each character stands for in the output. */
  function EscapeChar(c: char): string
  {
    match c
    case '&' => "&amp;"
    case '<' => "&lt;"
    case '>' => "&gt;"
    case '"' => "&quot;"
    case _ => [c]
  }

  /** Reference definition: each character of the input escaped once, on its own. */
  function EscapeEach(s: string): string
    decreases |s|
  {
    if s == [] then [] else EscapeChar(s[0]) + EscapeEach(s[1..])
  }

  /** Decoding of the four entities, the inverse of `htmlentities`. */
  function Unescape(s: string): string
    decreases |s|
  {
    if s == [] then []
    else if "&amp;" <= s then "&" + Unescape(s[5..])
    else if "&lt;" <= s then "<" + Unescape(s[4..])
    else if "&gt;" <= s then ">" + Unescape(s[4..])
    else if "&quot;" <= s then "\"" + Unescape(s[6..])
    else [s[0]] + Unescape(s[1..])
  }

  /** Does one of the four entities start at position `i` of `s`? */
  predicate EntityAt(s: string, i: nat)
    requires i <= |s|
  {
    "&amp;" <= s[i..] || "&lt;" <= s[i..] || "&gt;" <= s[i..] || "&quot;" <= s[i..]
  }

  // ---------------------------------------------------------------------------
  // The chain of replacements equals the per-character escape
  // ---------------------------------------------------------------------------

  lemma {:induction false} ReplaceAllAppend(a: string, b: string, c: char, entity: string)
    ensures ReplaceAll(a + b, c, entity) == ReplaceAll(a, c, entity) + ReplaceAll(b, c, entity)
    decreases |a|
  {
    if a == [] {
      assert a + b == b;
    } else {
      assert (a + b)[0] == a[0] && (a + b)[1..] == a[1..] + b;
      ReplaceAllAppend(a[1..], b, c, entity);
    }
  }

  lemma {:induction false} ReplaceAllAbsent(s: string, c: char, entity: string)
    requires c !in s
    ensures ReplaceAll(s, c, entity) == s
    decreases |s|
  {
    if s != [] {
      ReplaceAllAbsent(s[1..], c, entity);
      assert [s[0]] + s[1..] == s;
    }
  }

  lemma ReplaceOne(x: char, c: char, entity: string)
    ensures ReplaceAll([x], c, entity) == if x == c then entity else [x]
  {
    assert [x][0] == x && [x][1..] == [];
  }

  /** The replacements after the one that produced `e` find none of their characters in it. */
  lemma LaterReplacementsKeep(e: string, from: nat)
    requires from <= 3
    requires from <= 1 ==> '<' !in e
    requires from <= 2 ==> '>' !in e
    requires '"' !in e
    ensures from <= 1 ==> ReplaceAll(ReplaceAll(ReplaceAll(e, '<', "&lt;"), '>', "&gt;"), '"', "&quot;") == e
    ensures from == 2 ==> ReplaceAll(ReplaceAll(e, '>', "&gt;"), '"', "&quot;") == e
    ensures from == 3 ==> ReplaceAll(e, '"', "&quot;") == e
  {
    if from <= 1 { ReplaceAllAbsent(e, '<', "&lt;"); }
    if from <= 2 { ReplaceAllAbsent(e, '>', "&gt;"); }
    ReplaceAllAbsent(e, '"', "&quot;");
  }

  /** The chain applied to one character gives its entity: no entity text is replaced again. */
  lemma ChainOnOneCharacter(x: char)
    ensures ReplaceAll(ReplaceAll(ReplaceAll(ReplaceAll([x], '&', "&amp;"), '<', "&lt;"), '>', "&gt;"), '"', "&quot;")
      == EscapeChar(x)
  {
    ReplaceOne(x, '&', "&amp;");
    if x == '&' {
      LaterReplacementsKeep("&amp;", 1);
    } else {
      ReplaceOne(x, '<', "&lt;");
      if x == '<' {
        LaterReplacementsKeep("&lt;", 2);
      } else {
        ReplaceOne(x, '>', "&gt;");
        if x == '>' {
          LaterReplacementsKeep("&gt;", 3);
        } else {
          ReplaceOne(x, '"', "&quot;");
        }
      }
    }
  }

  /** Because `&` is replaced first, the chain escapes every input character exactly once. */
  lemma {:induction false} ChainIsPerCharacter(s: string)
    ensures ReplaceAll(ReplaceAll(ReplaceAll(ReplaceAll(s, '&', "&amp;"), '<', "&lt;"), '>', "&gt;"), '"', "&quot;")
      == EscapeEach(s)
    decreases |s|
  {
    if s != [] {
      var x, t := [s[0]], s[1..];
      assert s == x + t;
      ChainIsPerCharacter(t);
      ChainOnOneCharacter(s[0]);
      ReplaceAllAppend(x, t, '&', "&amp;");
      var a1, b1 := ReplaceAll(x, '&', "&amp;"), ReplaceAll(t, '&', "&amp;");
      ReplaceAllAppend(a1, b1, '<', "&lt;");
      var a2, b2 := ReplaceAll(a1, '<', "&lt;"), ReplaceAll(b1, '<', "&lt;");
      ReplaceAllAppend(a2, b2, '>', "&gt;");
      var a3, b3 := ReplaceAll(a2, '>', "&gt;"), ReplaceAll(b2, '>', "&gt;");
      ReplaceAllAppend(a3, b3, '"', "&quot;");
    }
  }

  // ---------------------------------------------------------------------------
  // Properties of the output
  // ---------------------------------------------------------------------------

  lemma {:induction false} EscapeEachAppend(a: string, b: string)
    ensures EscapeEach(a + b) == EscapeEach(a) + EscapeEach(b)
    decreases |a|
  {
    if a == [] {
      assert a + b == b;
    } else {
      assert (a + b)[0] == a[0] && (a + b)[1..] == a[1..] + b;
      EscapeEachAppend(a[1..], b);
    }
  }

  lemma EscapeCharNoRaw(c: char)
    ensures '<' !in EscapeChar(c) && '>' !in EscapeChar(c) && '"' !in EscapeChar(c)
  {
  }

  /** The output holds no raw `<`, `>` or `"`. */
  lemma {:induction false} NoRawSpecials(s: string)
    ensures '<' !in HtmlEntities(s) && '>' !in HtmlEntities(s) && '"' !in HtmlEntities(s)
    decreases |s|
  {
    if s != [] {
      NoRawSpecials(s[1..]);
      EscapeCharNoRaw(s[0]);
      assert HtmlEntities(s) == EscapeChar(s[0]) + HtmlEntities(s[1..]);
    }
  }

  /** The only `&` an escaped character holds is its first, and it starts an entity. */
  lemma EscapeCharAmpersand(c: char, rest: string)
    ensures forall i :: 0 <= i < |EscapeChar(c)| && EscapeChar(c)[i] == '&' ==> i == 0
    ensures EscapeChar(c)[0] == '&' ==> EntityAt(EscapeChar(c) + rest, 0)
  {
    var r := EscapeChar(c) + rest;
    assert r[0..] == r;
  }

  /** Every `&` in the output starts one of `&amp;`, `&lt;`, `&gt;`, `&quot;`. */
  lemma {:induction false} AmpersandsStartEntities(s: string)
    ensures forall i :: 0 <= i < |HtmlEntities(s)| && HtmlEntities(s)[i] == '&' ==> EntityAt(HtmlEntities(s), i)
    decreases |s|
  {
    if s != [] {
      AmpersandsStartEntities(s[1..]);
      var e, rest := EscapeChar(s[0]), HtmlEntities(s[1..]);
      var r := HtmlEntities(s);
      assert r == e + rest;
      EscapeCharAmpersand(s[0], rest);
      forall i | 0 <= i < |r| && r[i] == '&' ensures EntityAt(r, i) {
        if i >= |e| {
          assert r[i] == rest[i - |e|];
          assert r[i..] == rest[i - |e|..];
        }
      }
    }
  }

  /** Decoding the four entities gives back the original string. */
  lemma {:induction false} UnescapeInverts(s: string)
    ensures Unescape(HtmlEntities(s)) == s
    decreases |s|
  {
    if s != [] {
      UnescapeInverts(s[1..]);
      var rest := HtmlEntities(s[1..]);
      var r := EscapeChar(s[0]) + rest;
      assert HtmlEntities(s) == r;
      if s[0] == '&' {
        assert "&amp;" <= r && r[5..] == rest;
      } else if s[0] == '<' {
        assert r[1] == 'l';
        assert "&lt;" <= r && r[4..] == rest;
      } else if s[0] == '>' {
        assert r[1] == 'g';
        assert "&gt;" <= r && r[4..] == rest;
      } else if s[0] == '"' {
        assert r[1] == 'q';
        assert "&quot;" <= r && r[6..] == rest;
      } else {
        assert r[0] == s[0] != '&';
        assert r[1..] == rest;
      }
      assert [s[0]] + s[1..] == s;
    }
  }

  /** A string with none of the four specials is left as it is. */
  lemma {:induction false} IdentityOnSafe(s: string)
    requires forall i :: 0 <= i < |s| ==> !Special(s[i])
    ensures HtmlEntities(s) == s
    decreases |s|
  {
    if s != [] {
      IdentityOnSafe(s[1..]);
      assert HtmlEntities(s) == [s[0]] + HtmlEntities(s[1..]);
      assert [s[0]] + s[1..] == s;
    }
  }

  /** Escaping a string that is already escaped escapes its `&` again: the encoder is not idempotent. */
  lemma EscapingTwiceDiffers()
    ensures HtmlEntities("<") == "&lt;"
    ensures HtmlEntities(HtmlEntities("<")) == "&amp;lt;"
  {
    assert EscapeEach("<") == "&lt;" by {
      assert EscapeEach("<") == EscapeChar('<') + EscapeEach([]);
    }
    assert EscapeEach("&lt;") == "&amp;lt;" by {
      assert "&lt;" == "&" + "lt;";
      EscapeEachAppend("&", "lt;");
      assert EscapeEach("&") == EscapeChar('&') + EscapeEach([]);
      IdentityOnSafe("lt;");
    }
  }
}
