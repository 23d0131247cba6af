/** HTML escaping of the server-rendered rows (src/hero/controllers/heroes_web.rs:96-102). */
module HtmlEscape {

  /** `str::replace` of one character by a string. */
  function Replace(s: string, c: char, to: string): string {
    if s == [] then [] else (if s[0] == c then to else [s[0]]) + Replace(s[1..], c, to)
  }

  /** The five replacements, one whole-string pass after the other. */
  function EscapeHtml(raw: string): string {
    Replace(Replace(Replace(Replace(Replace(raw, '&', "&amp;"), '<', "&lt;"), '>', "&gt;"),
                    '"', "&quot;"), '\'', "&#39;")
  }

  /** What one character becomes. */
  function EscapeChar(c: char): string {
    match c
    case '&' => "&amp;"
    case '<' => "&lt;"
    case '>' => "&gt;"
    case '"' => "&quot;"
    case '\'' => "&#39;"
    case _ => [c]
  }

  function EscapeEach(raw: string): string {
    if raw == [] then [] else EscapeChar(raw[0]) + EscapeEach(raw[1..])
  }

  lemma {:induction false} ReplaceConcat(a: string, b: string, c: char, to: string)
    ensures Replace(a + b, c, to) == Replace(a, c, to) + Replace(b, c, to)
  {
    if a == [] {
      assert a + b == b;
    } else {
      assert (a + b)[1..] == a[1..] + b;
      ReplaceConcat(a[1..], b, c, to);
    }
  }

  predicate Without(s: string, c: char) { forall i :: 0 <= i < |s| ==> s[i] != c }

  lemma {:induction false} ReplaceNothing(s: string, c: char, to: string)
    requires Without(s, c)
    ensures Replace(s, c, to) == s
  {
    if s != [] { ReplaceNothing(s[1..], c, to); }
  }

  lemma ReplaceOne(c: char, d: char, to: string)
    ensures Replace([c], d, to) == if c == d then to else [c]
  {}

  lemma EscapeConcat(a: string, b: string)
    ensures EscapeHtml(a + b) == EscapeHtml(a) + EscapeHtml(b)
  {
    ReplaceConcat(a, b, '&', "&amp;");
    var a1, b1 := Replace(a, '&', "&amp;"), Replace(b, '&', "&amp;");
    ReplaceConcat(a1, b1, '<', "&lt;");
    var a2, b2 := Replace(a1, '<', "&lt;"), Replace(b1, '<', "&lt;");
    ReplaceConcat(a2, b2, '>', "&gt;");
    var a3, b3 := Replace(a2, '>', "&gt;"), Replace(b2, '>', "&gt;");
    ReplaceConcat(a3, b3, '"', "&quot;");
    var a4, b4 := Replace(a3, '"', "&quot;"), Replace(b3, '"', "&quot;");
    ReplaceConcat(a4, b4, '\'', "&#39;");
  }

  lemma Unchanged(s: string)
    ensures Without(s, '<') ==> Replace(s, '<', "&lt;") == s
    ensures Without(s, '>') ==> Replace(s, '>', "&gt;") == s
    ensures Without(s, '"') ==> Replace(s, '"', "&quot;") == s
    ensures Without(s, '\'') ==> Replace(s, '\'', "&#39;") == s
  {
    if Without(s, '<') { ReplaceNothing(s, '<', "&lt;"); }
    if Without(s, '>') { ReplaceNothing(s, '>', "&gt;"); }
    if Without(s, '"') { ReplaceNothing(s, '"', "&quot;"); }
    if Without(s, '\'') { ReplaceNothing(s, '\'', "&#39;"); }
  }

  lemma EscapeAmp()
    ensures EscapeHtml("&") == "&amp;"
  {
    ReplaceOne('&', '&', "&amp;");
    PassesThrough("&amp;");
  }

  lemma PassesThrough(s: string)
    requires Without(s, '<') && Without(s, '>') && Without(s, '"') && Without(s, '\'')
    ensures Replace(Replace(Replace(Replace(s, '<', "&lt;"), '>', "&gt;"), '"', "&quot;"), '\'', "&#39;") == s
  {}

  lemma EscapeAngles()
    ensures EscapeHtml("<") == "&lt;"
    ensures EscapeHtml(">") == "&gt;"
  {
    EscapeLess();
    EscapeGreater();
  }

  lemma EscapeGreater()
    ensures EscapeHtml(">") == "&gt;"
  {
    ReplaceOne('>', '&', "&amp;");
    ReplaceNothing(">", '<', "&lt;");
    ReplaceOne('>', '>', "&gt;");
    ReplaceNothing("&gt;", '"', "&quot;");
    ReplaceNothing("&gt;", '\'', "&#39;");
  }

  lemma EscapeLess()
    ensures EscapeHtml("<") == "&lt;"
  {
    ReplaceOne('<', '&', "&amp;");
    ReplaceOne('<', '<', "&lt;");
    ReplaceNothing("&lt;", '>', "&gt;");
    ReplaceNothing("&lt;", '"', "&quot;");
    ReplaceNothing("&lt;", '\'', "&#39;");
  }

  lemma EscapeQuotes()
    ensures EscapeHtml("\"") == "&quot;"
    ensures EscapeHtml("'") == "&#39;"
  {
    EscapeDoubleQuote();
    ReplaceOne('\'', '&', "&amp;");
    ReplaceNothing("'", '<', "&lt;");
    ReplaceNothing("'", '>', "&gt;");
    ReplaceNothing("'", '"', "&quot;");
    ReplaceOne('\'', '\'', "&#39;");
  }

  lemma EscapeDoubleQuote()
    ensures EscapeHtml("\"") == "&quot;"
  {
    ReplaceOne('"', '&', "&amp;");
    ReplaceNothing("\"", '<', "&lt;");
    ReplaceNothing("\"", '>', "&gt;");
    ReplaceOne('"', '"', "&quot;");
    ReplaceNothing("&quot;", '\'', "&#39;");
  }

  /** The order of the passes is right for one character: what an earlier pass wrote, no later
      one rewrites. */
  lemma EscapeOne(c: char)
    ensures EscapeHtml([c]) == EscapeChar(c)
  {
    match c {
      case '&' => EscapeAmp();
      case '<' => EscapeAngles();
      case '>' => EscapeAngles();
      case '"' => EscapeQuotes();
      case '\'' => EscapeQuotes();
      case _ =>
        ReplaceOne(c, '&', "&amp;");
        Unchanged([c]);
    }
  }

  /** The five passes are one character-by-character map. */
  lemma {:induction false} EscapeIsPerCharacter(raw: string)
    ensures EscapeHtml(raw) == EscapeEach(raw)
  {
    if raw != [] {
      assert raw == [raw[0]] + raw[1..];
      EscapeConcat([raw[0]], raw[1..]);
      EscapeOne(raw[0]);
      EscapeIsPerCharacter(raw[1..]);
    }
  }

  // ---- the way back ----

  /** What a browser makes of an attribute value with these entities. */
  function Unescape(s: string): string {
    if s == [] then []
    else if "&amp;" <= s then ['&'] + Unescape(s[5..])
    else if "&lt;" <= s then ['<'] + Unescape(s[4..])
    else if "&gt;" <= s then ['>'] + Unescape(s[4..])
    else if "&quot;" <= s then ['"'] + Unescape(s[6..])
    else if "&#39;" <= s then ['\''] + Unescape(s[5..])
    else [s[0]] + Unescape(s[1..])
  }

  lemma UnescapeOne(c: char, rest: string)
    ensures Unescape(EscapeChar(c) + rest) == [c] + Unescape(rest)
  {
    match c {
      case '&' => assert ("&amp;" + rest)[5..] == rest;
      case '<' => EntityHead("&lt;", rest, 'l');
      case '>' => EntityHead("&gt;", rest, 'g');
      case '"' => EntityHead("&quot;", rest, 'q');
      case '\'' => EntityHead("&#39;", rest, '#');
      case _ => assert ([c] + rest)[1..] == rest;
    }
  }

  lemma EntityHead(entity: string, rest: string, second: char)
    requires |entity| > 1 && entity[1] == second
    ensures entity <= entity + rest && (entity + rest)[|entity|..] == rest
    ensures (entity + rest)[1] == second
  {}

  /** Unescaping gives the input back, for every string. */
  lemma {:induction false} EscapeRoundTrip(raw: string)
    ensures Unescape(EscapeHtml(raw)) == raw
  {
    EscapeIsPerCharacter(raw);
    if raw != [] {
      EscapeIsPerCharacter(raw[1..]);
      EscapeRoundTrip(raw[1..]);
      UnescapeOne(raw[0], EscapeEach(raw[1..]));
    }
  }

  lemma EscapeInjective(a: string, b: string)
    requires EscapeHtml(a) == EscapeHtml(b)
    ensures a == b
  {
    EscapeRoundTrip(a);
    EscapeRoundTrip(b);
  }

  /** The tail of `s` from `i` on begins with one of the five entities. */
  predicate EntityAt(s: string, i: nat)
    requires i <= |s|
  {
    "&amp;" <= s[i..] || "&lt;" <= s[i..] || "&gt;" <= s[i..] || "&quot;" <= s[i..] || "&#39;" <= s[i..]
  }

  predicate Inert(s: string) {
    forall i :: 0 <= i < |s| ==>
      s[i] != '<' && s[i] != '>' && s[i] != '"' && s[i] != '\'' && (s[i] == '&' ==> EntityAt(s, i))
  }

  lemma InertThen(c: char, rest: string)
    requires Inert(rest)
    ensures Inert(EscapeChar(c) + rest)
  {
    var head := EscapeChar(c);
    var s := head + rest;
    forall i | 0 <= i < |s|
      ensures s[i] != '<' && s[i] != '>' && s[i] != '"' && s[i] != '\''
      ensures s[i] == '&' ==> EntityAt(s, i)
    {
      if i >= |head| {
        assert s[i] == rest[i - |head|];
        assert s[i..] == rest[i - |head|..];
      } else if i == 0 {
        assert s[0..] == s && head <= s;
      } else {
        assert s[i] == head[i] && head[i] != '&';
      }
    }
  }

  /** The output has no raw delimiter, and every `&` in it begins one of the five entities. */
  lemma {:induction false} EscapeIsInert(raw: string)
    ensures Inert(EscapeHtml(raw))
  {
    EscapeIsPerCharacter(raw);
    if raw != [] {
      EscapeIsPerCharacter(raw[1..]);
      EscapeIsInert(raw[1..]);
      InertThen(raw[0], EscapeEach(raw[1..]));
    }
  }
}
