/** The HTML escaping that every piece of user text passes through before it is rendered
    (app.js:194), with the decoding a browser applies to the escaped text. */
module Html {

  /** The five characters escapeHtml replaces. */
  predicate Special(c: char) {
    c == '&' || c == '<' || c == '>' || c == '"' || c == '\''
  }

  /** The replacement of one character: its entity when it is special, itself otherwise. */
  function EscapeChar(c: char): (r: string)
    ensures Special(c) ==> |r| >= 4 && r[0] == '&' && r[|r| - 1] == ';'
    ensures !Special(c) ==> r == [c]
  {
    match c
    case '&' => "&amp;"
    case '<' => "&lt;"
    case '>' => "&gt;"
    case '"' => "&quot;"
    case '\'' => "&#39;"
    case _ => [c]
  }

  /** `escapeHtml(s)` for a string `s` (a missing value renders as the empty string). */
  function EscapeHtml(s: string): (r: string)
    ensures |r| >= |s|
    ensures forall i :: 0 <= i < |r| ==> r[i] != '<' && r[i] != '>' && r[i] != '"' && r[i] != '\''
    ensures (forall i :: 0 <= i < |s| ==> !Special(s[i])) ==> r == s
  {
    if s == [] then []
    else
      var e := EscapeChar(s[0]);
      assert e == "&amp;" || e == "&lt;" || e == "&gt;" || e == "&quot;" || e == "&#39;" || e == [s[0]];
      e + EscapeHtml(s[1..])
  }

  predicate StartsWith(s: string, p: string) {
    |p| <= |s| && s[..|p|] == p
  }

  /** How an HTML parser reads the escaped text back: each of the five entities is one
      character, everything else stands for itself. */
  function UnescapeHtml(s: string): string
    decreases |s|
  {
    if s == [] then []
    else if StartsWith(s, "&amp;") then "&" + UnescapeHtml(s[5..])
    else if StartsWith(s, "&lt;") then "<" + UnescapeHtml(s[4..])
    else if StartsWith(s, "&gt;") then ">" + UnescapeHtml(s[4..])
    else if StartsWith(s, "&quot;") then "\"" + UnescapeHtml(s[6..])
    else if StartsWith(s, "&#39;") then "'" + UnescapeHtml(s[5..])
    else [s[0]] + UnescapeHtml(s[1..])
  }

  /** Decoding the escape of one character followed by anything gives that character first. */
  lemma UnescapeCons(c: char, t: string)
    ensures UnescapeHtml(EscapeChar(c) + t) == [c] + UnescapeHtml(t)
  {
    var e := EscapeChar(c);
    var u := e + t;
    assert u[|e|..] == t;
    if !Special(c) {
      assert u[0] == c && u[1..] == t;
      assert !StartsWith(u, "&amp;") && !StartsWith(u, "&lt;") && !StartsWith(u, "&gt;") by {
        assert u[0] != '&';
      }
      assert !StartsWith(u, "&quot;") && !StartsWith(u, "&#39;") by {
        assert u[0] != '&';
      }
    } else {
      assert u[..|e|] == e;
      UnescapeEntity(c, u);
    }
  }

  /** The first matching entity at the head of an escaped special character is its own. */
  lemma UnescapeEntity(c: char, u: string)
    requires Special(c) && StartsWith(u, EscapeChar(c))
    ensures UnescapeHtml(u) == [c] + UnescapeHtml(u[|EscapeChar(c)|..])
  {
    if c == '<' {
      assert u[1] == 'l' && !StartsWith(u, "&amp;");
    } else if c == '>' {
      assert u[1] == 'g' && !StartsWith(u, "&amp;") && !StartsWith(u, "&lt;");
    } else if c == '"' {
      assert u[1] == 'q' && !StartsWith(u, "&amp;") && !StartsWith(u, "&lt;") && !StartsWith(u, "&gt;");
    } else if c == '\'' {
      assert u[1] == '#' && !StartsWith(u, "&amp;") && !StartsWith(u, "&lt;") && !StartsWith(u, "&gt;");
      assert !StartsWith(u, "&quot;");
    }
  }

  /** A browser shows exactly the text that was escaped: escaping loses nothing. */
  lemma {:induction false} UnescapeEscape(s: string)
    ensures UnescapeHtml(EscapeHtml(s)) == s
  {
    if s != [] {
      UnescapeEscape(s[1..]);
      UnescapeCons(s[0], EscapeHtml(s[1..]));
      assert s == [s[0]] + s[1..];
    }
  }

  /** Escaping is not idempotent: escaping escaped text changes every ampersand again. */
  lemma EscapeTwiceDiffers()
    ensures EscapeHtml(EscapeHtml("&")) == "&amp;amp;"
  {
    assert EscapeHtml("&") == "&amp;" + EscapeHtml([]);
    var e := "&amp;";
    assert e[0] == '&' && e[1..] == "amp;";
    assert EscapeHtml("amp;") == "amp;";
  }
}
