/** `escapeHtml` of PortableOutput.tsx: five successive global replacements. */
module HtmlEscape {
  import opened Text

  /** `value.replace(/c/g, into)` for a single character. */
  function Replace(s: string, c: char, into: string): string {
    if s == "" then ""
    else (if s[0] == c then into else [s[0]]) + Replace(s[1..], c, into)
  }

  function EscapeHtml(s: string): string {
    Replace(Replace(Replace(Replace(Replace(s,
      '&', "&amp;"), '<', "&lt;"), '>', "&gt;"), '\"', "&quot;"), '\'', "&#39;")
  }

  /** What a single character becomes. */
  function Entity(c: char): string {
    match c
    case '&' => "&amp;"
    case '<' => "&lt;"
    case '>' => "&gt;"
    case '\"' => "&quot;"
    case '\'' => "&#39;"
    case _ => [c]
  }

  /** Undo the escape: read one entity, or one ordinary character, at a time. */
  function Unescape(s: string): string {
    if s == "" then ""
    else if "&amp;" <= s then "&" + Unescape(s[5..])
    else if "&lt;" <= s then "<" + Unescape(s[4..])
    else if "&gt;" <= s then ">" + Unescape(s[4..])
    else if "&quot;" <= s then "\"" + Unescape(s[6..])
    else if "&#39;" <= s then "'" + Unescape(s[5..])
    else [s[0]] + Unescape(s[1..])
  }

  lemma {:induction false} ReplaceConcat(s: string, t: string, c: char, into: string)
    ensures Replace(s + t, c, into) == Replace(s, c, into) + Replace(t, c, into)
    decreases |s|
  {
    if s == "" {
      assert s + t == t;
    } else {
      assert Replace(s, c, into) == (if s[0] == c then into else [s[0]]) + Replace(s[1..], c, into);
      assert Replace(s + t, c, into)
             == (if (s + t)[0] == c then into else [(s + t)[0]]) + Replace((s + t)[1..], c, into);
      hide Replace;
      assert (s + t)[1..] == s[1..] + t;
      ReplaceConcat(s[1..], t, c, into);
      Assoc(if s[0] == c then into else [s[0]], Replace(s[1..], c, into), Replace(t, c, into));
    }
  }

  lemma {:induction false} ReplaceAbsent(s: string, c: char, into: string)
    requires c !in s
    ensures Replace(s, c, into) == s
    decreases |s|
  {
    if s != "" {
      ReplaceAbsent(s[1..], c, into);
    }
  }

  lemma {:induction false} ReplaceOne(d: char, c: char, into: string)
    ensures Replace([d], c, into) == if d == c then into else [d]
  {
    assert [d][1..] == "";
  }

  /** The order of the replacements matters only for the ampersand, which comes first. */
  lemma {:induction false} EscapeOne(c: char)
    ensures EscapeHtml([c]) == Entity(c)
  {
    hide Replace;
    ReplaceOne(c, '&', "&amp;");
    ReplaceOne(c, '<', "&lt;");
    ReplaceOne(c, '>', "&gt;");
    ReplaceOne(c, '\"', "&quot;");
    ReplaceOne(c, '\'', "&#39;");
    if c in "&<>\"" {
      var e := Entity(c);
      ReplaceAbsent(e, '<', "&lt;");
      ReplaceAbsent(e, '>', "&gt;");
      ReplaceAbsent(e, '\"', "&quot;");
      ReplaceAbsent(e, '\'', "&#39;");
    }
  }

  lemma {:induction false} EscapeConcat(s: string, t: string)
    ensures EscapeHtml(s + t) == EscapeHtml(s) + EscapeHtml(t)
  {
    hide Replace;
    var s1, t1 := Replace(s, '&', "&amp;"), Replace(t, '&', "&amp;");
    var s2, t2 := Replace(s1, '<', "&lt;"), Replace(t1, '<', "&lt;");
    var s3, t3 := Replace(s2, '>', "&gt;"), Replace(t2, '>', "&gt;");
    var s4, t4 := Replace(s3, '\"', "&quot;"), Replace(t3, '\"', "&quot;");
    ReplaceConcat(s, t, '&', "&amp;");
    ReplaceConcat(s1, t1, '<', "&lt;");
    ReplaceConcat(s2, t2, '>', "&gt;");
    ReplaceConcat(s3, t3, '\"', "&quot;");
    ReplaceConcat(s4, t4, '\'', "&#39;");
  }

  /** The five passes are one character-wise map. */
  lemma {:induction false} EscapeCons(s: string)
    requires s != ""
    ensures EscapeHtml(s) == Entity(s[0]) + EscapeHtml(s[1..])
  {
    hide EscapeHtml;
    EscapeConcat([s[0]], s[1..]);
    EscapeOne(s[0]);
    assert [s[0]] + s[1..] == s;
  }

  lemma {:induction false} UnescapeOrdinary(c: char, rest: string)
    requires c != '&'
    ensures Unescape([c] + rest) == [c] + Unescape(rest)
  {
    var s := [c] + rest;
    assert s[0] == c && s[1..] == rest;
  }

  lemma {:induction false} UnescapeSpecial(c: char, rest: string)
    requires c in "&<>\"'"
    ensures Unescape(Entity(c) + rest) == [c] + Unescape(rest)
  {
    var e := Entity(c);
    var s := e + rest;
    assert s[|e|..] == rest && e <= s;
    assert s[1] == e[1] && s[2] == e[2];
  }

  lemma {:induction false} UnescapeEntity(c: char, rest: string)
    ensures Unescape(Entity(c) + rest) == [c] + Unescape(rest)
  {
    hide Unescape;
    if c in "&<>\"'" {
      UnescapeSpecial(c, rest);
    } else {
      UnescapeOrdinary(c, rest);
    }
  }

  /** Escaping loses nothing. */
  lemma {:induction false} UnescapeEscape(s: string)
    ensures Unescape(EscapeHtml(s)) == s
    decreases |s|
  {
    if s != "" {
      hide EscapeHtml, Unescape;
      EscapeCons(s);
      UnescapeEntity(s[0], EscapeHtml(s[1..]));
      UnescapeEscape(s[1..]);
      assert [s[0]] + s[1..] == s;
    }
  }

  predicate Inert(s: string) {
    forall c :: c in s ==> c != '<' && c != '>' && c != '\"' && c != '\''
  }

  /** Escaped text holds no markup character. */
  lemma {:induction false} EscapeIsInert(s: string)
    ensures Inert(EscapeHtml(s))
    decreases |s|
  {
    if s != "" {
      assert Inert(Entity(s[0]));
      hide EscapeHtml, Entity, Inert;
      EscapeCons(s);
      EscapeIsInert(s[1..]);
      assert Inert(Entity(s[0]) + EscapeHtml(s[1..]));
    }
  }

  /** Text without a special character is not touched. */
  lemma {:induction false} EscapeOrdinary(s: string)
    requires forall c :: c in s ==> c !in "&<>\"'"
    ensures EscapeHtml(s) == s
    decreases |s|
  {
    if s != "" {
      hide EscapeHtml;
      EscapeCons(s);
      EscapeOrdinary(s[1..]);
      assert s[0] in s && [s[0]] + s[1..] == s;
    }
  }
}
