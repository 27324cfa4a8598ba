/** The escaper of the application's pages: five whole-string replacements, one after the other. */
module HtmlEscape {
  import opened Options

  /** `replaceAll` of one character. */
  function Replaced(s: string, c: char, t: string): string {
    if s == "" then "" else (if s[0] == c then t else [s[0]]) + Replaced(s[1..], c, t)
  }

  /** `escapeHtml`. */
  function EscapeHtml(s: string): string {
    Replaced(Replaced(Replaced(Replaced(Replaced(s, '&', "&amp;"), '<', "&lt;"), '>', "&gt;"), '"', "&quot;"), '\'', "&#39;")
  }

  // ---- One character at a time ----

  function Entity(c: char): string {
    if c == '&' then "&amp;"
    else if c == '<' then "&lt;"
    else if c == '>' then "&gt;"
    else if c == '"' then "&quot;"
    else if c == '\'' then "&#39;"
    else [c]
  }

  predicate IsSpecial(c: char) {
    c == '&' || c == '<' || c == '>' || c == '"' || c == '\''
  }

  function Entities(s: string): string {
    if s == "" then "" else Entity(s[0]) + Entities(s[1..])
  }

  lemma {:induction false} ReplacedJoins(s: string, t: string, c: char, u: string)
    ensures Replaced(s + t, c, u) == Replaced(s, c, u) + Replaced(t, c, u)
    decreases |s|
  {
    hide Replaced;
    ReplacedFirst(s, c, u);
    if s == "" {
      assert s + t == t;
    } else {
      ReplacedJoins(s[1..], t, c, u);
      ReplacedFirst(s + t, c, u);
      assert (s + t)[0] == s[0] && (s + t)[1..] == s[1..] + t;
    }
  }

  lemma ReplacedFirst(s: string, c: char, u: string)
    ensures Replaced(s, c, u) == if s == "" then "" else (if s[0] == c then u else [s[0]]) + Replaced(s[1..], c, u)
  {}

  lemma {:induction false} NothingReplaced(s: string, c: char, u: string)
    requires c !in s
    ensures Replaced(s, c, u) == s
  {
    if s != "" {
      NothingReplaced(s[1..], c, u);
    }
  }

  lemma EscapeJoins(s: string, t: string)
    ensures EscapeHtml(s + t) == EscapeHtml(s) + EscapeHtml(t)
  {
    hide Replaced;
    var a, b := Replaced(s, '&', "&amp;"), Replaced(t, '&', "&amp;");
    ReplacedJoins(s, t, '&', "&amp;");
    var c, d := Replaced(a, '<', "&lt;"), Replaced(b, '<', "&lt;");
    ReplacedJoins(a, b, '<', "&lt;");
    var e, f := Replaced(c, '>', "&gt;"), Replaced(d, '>', "&gt;");
    ReplacedJoins(c, d, '>', "&gt;");
    ReplacedJoins(e, f, '"', "&quot;");
    ReplacedJoins(Replaced(e, '"', "&quot;"), Replaced(f, '"', "&quot;"), '\'', "&#39;");
  }

  lemma EscapeOne(c: char)
    ensures EscapeHtml([c]) == Entity(c)
  {
    ReplaceOne(c, '&', "&amp;");
    var s := if c == '&' then "&amp;" else [c];
    hide Replaced;
    if c == '&' {
      NothingReplaced("&amp;", '<', "&lt;");
      NothingReplaced("&amp;", '>', "&gt;");
      NothingReplaced("&amp;", '"', "&quot;");
      NothingReplaced("&amp;", '\'', "&#39;");
    } else {
      ReplaceOne(c, '<', "&lt;");
      NothingReplaced("&lt;", '>', "&gt;");
      NothingReplaced("&lt;", '"', "&quot;");
      NothingReplaced("&lt;", '\'', "&#39;");
      ReplaceOne(c, '>', "&gt;");
      NothingReplaced("&gt;", '"', "&quot;");
      NothingReplaced("&gt;", '\'', "&#39;");
      ReplaceOne(c, '"', "&quot;");
      NothingReplaced("&quot;", '\'', "&#39;");
      ReplaceOne(c, '\'', "&#39;");
    }
  }

  lemma ReplaceOne(c: char, d: char, u: string)
    ensures Replaced([c], d, u) == if c == d then u else [c]
  {
    assert [c][1..] == "";
    assert Replaced("", d, u) == "";
  }

  /** The five replacements, ampersands first, are one substitution of each character. */
  lemma {:induction false} EscapeIsCharwise(s: string)
    ensures EscapeHtml(s) == Entities(s)
  {
    if s == "" {
      NothingEscaped();
    } else {
      hide EscapeHtml, Entity;
      EscapeIsCharwise(s[1..]);
      EscapeJoins([s[0]], s[1..]);
      EscapeOne(s[0]);
      assert [s[0]] + s[1..] == s;
    }
  }

  lemma NothingEscaped()
    ensures EscapeHtml("") == ""
  {}

  // ---- The other order ----

  /** The same replacements with the ampersands last. */
  function AmpersandLast(s: string): string {
    Replaced(Replaced(Replaced(Replaced(Replaced(s, '<', "&lt;"), '>', "&gt;"), '"', "&quot;"), '\'', "&#39;"), '&', "&amp;")
  }

  /** What it makes of one character: the ampersand of the other entities is escaped again. */
  function LateEntity(c: char): string {
    if c == '<' then "&amp;lt;"
    else if c == '>' then "&amp;gt;"
    else if c == '"' then "&amp;quot;"
    else if c == '\'' then "&amp;#39;"
    else Entity(c)
  }

  function LateEntities(s: string): string {
    if s == "" then "" else LateEntity(s[0]) + LateEntities(s[1..])
  }

  lemma LateJoins(s: string, t: string)
    ensures AmpersandLast(s + t) == AmpersandLast(s) + AmpersandLast(t)
  {
    hide Replaced;
    var a, b := Replaced(s, '<', "&lt;"), Replaced(t, '<', "&lt;");
    ReplacedJoins(s, t, '<', "&lt;");
    var c, d := Replaced(a, '>', "&gt;"), Replaced(b, '>', "&gt;");
    ReplacedJoins(a, b, '>', "&gt;");
    var e, f := Replaced(c, '"', "&quot;"), Replaced(d, '"', "&quot;");
    ReplacedJoins(c, d, '"', "&quot;");
    ReplacedJoins(e, f, '\'', "&#39;");
    ReplacedJoins(Replaced(e, '\'', "&#39;"), Replaced(f, '\'', "&#39;"), '&', "&amp;");
  }

  /** The ampersand of an entity becomes an entity itself. */
  lemma EscapedAgain(rest: string)
    requires '&' !in rest
    ensures Replaced("&" + rest, '&', "&amp;") == "&amp;" + rest
  {
    hide Replaced;
    ReplacedJoins("&", rest, '&', "&amp;");
    assert Replaced("&", '&', "&amp;") == "&amp;" by {
      ReplaceOne('&', '&', "&amp;");
    }
    NothingReplaced(rest, '&', "&amp;");
  }

  lemma LateOne(c: char)
    ensures AmpersandLast([c]) == LateEntity(c)
  {
    hide Replaced;
    ReplaceOne(c, '<', "&lt;");
    ReplaceOne(c, '>', "&gt;");
    ReplaceOne(c, '"', "&quot;");
    ReplaceOne(c, '\'', "&#39;");
    ReplaceOne(c, '&', "&amp;");
    if c == '<' {
      NothingReplaced("&lt;", '>', "&gt;");
      NothingReplaced("&lt;", '"', "&quot;");
      NothingReplaced("&lt;", '\'', "&#39;");
      EscapedAgain("lt;");
      assert "&" + "lt;" == "&lt;" && "&amp;" + "lt;" == "&amp;lt;";
    } else if c == '>' {
      NothingReplaced("&gt;", '"', "&quot;");
      NothingReplaced("&gt;", '\'', "&#39;");
      EscapedAgain("gt;");
      assert "&" + "gt;" == "&gt;" && "&amp;" + "gt;" == "&amp;gt;";
    } else if c == '"' {
      NothingReplaced("&quot;", '\'', "&#39;");
      EscapedAgain("quot;");
      assert "&" + "quot;" == "&quot;" && "&amp;" + "quot;" == "&amp;quot;";
    } else if c == '\'' {
      EscapedAgain("#39;");
      assert "&" + "#39;" == "&#39;" && "&amp;" + "#39;" == "&amp;#39;";
    }
  }

  lemma {:induction false} LateIsCharwise(s: string)
    ensures AmpersandLast(s) == LateEntities(s)
  {
    if s == "" {
      assert AmpersandLast("") == "";
    } else {
      hide AmpersandLast, LateEntity;
      LateIsCharwise(s[1..]);
      LateJoins([s[0]], s[1..]);
      LateOne(s[0]);
      assert [s[0]] + s[1..] == s;
    }
  }

  predicate IsMarkup(c: char) {
    c == '<' || c == '>' || c == '"' || c == '\''
  }

  predicate HasMarkup(s: string) {
    exists i | 0 <= i < |s| :: IsMarkup(s[i])
  }

  lemma {:induction false} LateIsLonger(s: string)
    ensures |LateEntities(s)| >= |Entities(s)|
    ensures if HasMarkup(s) then |LateEntities(s)| > |Entities(s)| else LateEntities(s) == Entities(s)
  {
    if s != "" {
      LateIsLonger(s[1..]);
      assert HasMarkup(s) <==> IsMarkup(s[0]) || HasMarkup(s[1..]) by {
        assert forall i | 1 <= i < |s| :: s[i] == s[1..][i - 1];
        assert forall i | 0 <= i < |s[1..]| :: s[1..][i] == s[i + 1];
      }
    }
  }

  /** The order with the ampersands last escapes the same if and only if there is no other character to escape. */
  lemma OrderMatters(s: string)
    ensures AmpersandLast(s) == EscapeHtml(s) <==> !HasMarkup(s)
  {
    hide AmpersandLast, EscapeHtml;
    LateIsCharwise(s);
    EscapeIsCharwise(s);
    LateIsLonger(s);
  }

  // ---- What the output looks like, and its inverse ----

  /** The character that an entity at the start of the text stands for, and the entity's length. */
  function EntityAt(t: string): Option<(char, nat)> {
    if "&amp;" <= t then Some(('&', 5))
    else if "&lt;" <= t then Some(('<', 4))
    else if "&gt;" <= t then Some(('>', 4))
    else if "&quot;" <= t then Some(('"', 6))
    else if "&#39;" <= t then Some(('\'', 5))
    else None
  }

  /** A decoder from left to right. */
  function Unescaped(t: string): string
    decreases |t|
  {
    if t == "" then ""
    else
      var e := EntityAt(t);
      if e.Some? then [e.value.0] + Unescaped(t[e.value.1..]) else [t[0]] + Unescaped(t[1..])
  }

  /** No markup characters, and every ampersand begins one of the five entities. */
  ghost predicate IsInert(t: string) {
    forall i | 0 <= i < |t| ::
      && t[i] != '<' && t[i] != '>' && t[i] != '"' && t[i] != '\''
      && (t[i] == '&' ==> EntityAt(t[i..]).Some?)
  }

  lemma EntityIsFirst(c: char, rest: string)
    ensures IsSpecial(c) ==> EntityAt(Entity(c) + rest) == Some((c, |Entity(c)|))
    ensures !IsSpecial(c) ==> EntityAt(Entity(c) + rest) == None
  {
    var t := Entity(c) + rest;
    assert t[0] == Entity(c)[0];
    if IsSpecial(c) {
      assert t[1] == Entity(c)[1] && t[2] == Entity(c)[2];
    }
  }

  lemma {:induction false} EntitiesAreInert(s: string)
    ensures IsInert(Entities(s))
  {
    if s != "" {
      EntitiesAreInert(s[1..]);
      var first, rest := Entity(s[0]), Entities(s[1..]);
      var t := first + rest;
      EntityIsFirst(s[0], rest);
      forall i | 0 <= i < |t|
        ensures t[i] != '<' && t[i] != '>' && t[i] != '"' && t[i] != '\'' && (t[i] == '&' ==> EntityAt(t[i..]).Some?)
      {
        if i == 0 {
          assert t[0..] == t;
        } else if i >= |first| {
          assert t[i..] == rest[i - |first|..];
        }
      }
    }
  }

  lemma {:induction false} UnescapedEntities(s: string)
    ensures Unescaped(Entities(s)) == s
  {
    if s != "" {
      UnescapedEntities(s[1..]);
      var first, rest := Entity(s[0]), Entities(s[1..]);
      EntityIsFirst(s[0], rest);
      assert (first + rest)[|first|..] == rest;
      assert [s[0]] + s[1..] == s;
    }
  }

  /** The output is inert, and decoding it gives the input back. */
  lemma EscapeIsSafe(s: string)
    ensures IsInert(EscapeHtml(s)) && Unescaped(EscapeHtml(s)) == s
  {
    EscapeIsCharwise(s);
    EntitiesAreInert(s);
    UnescapedEntities(s);
  }

  lemma EscapeIsInjective(s: string, t: string)
    requires EscapeHtml(s) == EscapeHtml(t)
    ensures s == t
  {
    EscapeIsSafe(s);
    EscapeIsSafe(t);
  }
}
