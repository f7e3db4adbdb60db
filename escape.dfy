/**
 * `escapeHtml` (app.js:207-209): the five characters `& < > " '` become the
 * entities `&amp; &lt; &gt; &quot; &#39;`, and every other character is copied
 * as it is, in order. The viewer applies it to fenced-code contents and to quiz
 * questions and option labels.
 */
module Escape {

  predicate IsSpecial(c: char)
  {
    c == '&' || c == '<' || c == '>' || c == '"' || c == '\''
  }

  /** The replacement the source's lookup table gives one character. */
  function EscapeChar(c: char): string
  {
    match c
    case '&' => "&amp;"
    case '<' => "&lt;"
    case '>' => "&gt;"
    case '"' => "&quot;"
    case '\'' => "&#39;"
    case _ => [c]
  }

  /** No character of `s` can open a tag or close an attribute value. */
  predicate NoMarkupChars(s: string)
  {
    forall k :: 0 <= k < |s| ==> s[k] != '<' && s[k] != '>' && s[k] != '"' && s[k] != '\''
  }

  function EscapeHtml(s: string): (r: string)
    ensures NoMarkupChars(r)
    ensures |r| >= |s|
  {
    if s == [] then []
    else
      var head, rest := EscapeChar(s[0]), EscapeHtml(s[1..]);
      assert NoMarkupChars(head) by { if IsSpecial(s[0]) { } }
      head + rest
  }

  /** One step of the recursion, for a string given as its first character and the rest. */
  lemma EscapeCons(c: char, s: string)
    ensures EscapeHtml([c] + s) == EscapeChar(c) + EscapeHtml(s)
  {
    assert ([c] + s)[0] == c && ([c] + s)[1..] == s;
  }

  /** Escaping works character by character, so it distributes over concatenation. */
  lemma {:induction false} EscapeConcat(a: string, b: string)
    ensures EscapeHtml(a + b) == EscapeHtml(a) + EscapeHtml(b)
  {
    if a != [] {
      var c, tail := a[0], a[1..];
      assert a == [c] + tail;
      assert a + b == [c] + (tail + b);
      EscapeConcat(tail, b);
      EscapeCons(c, tail + b);
      EscapeCons(c, tail);
      var head, x, y := EscapeChar(c), EscapeHtml(tail), EscapeHtml(b);
      assert head + (x + y) == (head + x) + y;
    } else {
      assert a + b == b;
    }
  }

  /** A string with none of the five characters is left exactly as it is, and
      a string with one of them is changed. */
  lemma {:induction false} EscapeIdentity(s: string)
    ensures EscapeHtml(s) == s <==> forall k :: 0 <= k < |s| ==> !IsSpecial(s[k])
  {
    if s != [] {
      EscapeIdentity(s[1..]);
      EscapeGrows(s);
      assert s == [s[0]] + s[1..];
    }
  }

  lemma {:induction false} EscapeGrows(s: string)
    ensures (exists k :: 0 <= k < |s| && IsSpecial(s[k])) ==> |EscapeHtml(s)| > |s|
  {
    if s != [] {
      EscapeGrows(s[1..]);
      if exists k :: 0 <= k < |s| && IsSpecial(s[k]) {
        if !IsSpecial(s[0]) {
          var k :| 0 <= k < |s| && IsSpecial(s[k]);
          assert IsSpecial(s[1..][k - 1]);
        }
      }
    }
  }

  /** Reads the entities back: the decoding that escaping is meant to survive. */
  function UnescapeHtml(s: string): string
  {
    if s == [] then []
    else if "&amp;" <= s then "&" + UnescapeHtml(s[5..])
    else if "&lt;" <= s then "<" + UnescapeHtml(s[4..])
    else if "&gt;" <= s then ">" + UnescapeHtml(s[4..])
    else if "&quot;" <= s then "\"" + UnescapeHtml(s[6..])
    else if "&#39;" <= s then "'" + UnescapeHtml(s[5..])
    else [s[0]] + UnescapeHtml(s[1..])
  }

  /** Decoding one escaped character gives the character back. */
  lemma UnescapeHead(c: char, rest: string)
    ensures UnescapeHtml(EscapeChar(c) + rest) == [c] + UnescapeHtml(rest)
  {
    var e := EscapeChar(c) + rest;
    assert IsSpecial(c) ==> e[0] == '&' && e[1] == EscapeChar(c)[1];
    if c == '&' {
      assert "&amp;" <= e && e[5..] == rest;
    } else if c == '<' {
      assert !("&amp;" <= e) && "&lt;" <= e && e[4..] == rest;
    } else if c == '>' {
      assert !("&amp;" <= e) && !("&lt;" <= e) && "&gt;" <= e && e[4..] == rest;
    } else if c == '"' {
      assert !("&amp;" <= e) && !("&lt;" <= e) && !("&gt;" <= e) && "&quot;" <= e && e[6..] == rest;
    } else if c == '\'' {
      assert !("&amp;" <= e) && !("&lt;" <= e) && !("&gt;" <= e) && !("&quot;" <= e);
      assert "&#39;" <= e && e[5..] == rest;
    } else {
      assert e[0] == c && e[1..] == rest;
    }
  }

  /** Escaping loses nothing: decoding the escaped text gives back the original. */
  lemma {:induction false} UnescapeEscape(s: string)
    ensures UnescapeHtml(EscapeHtml(s)) == s
  {
    if s != [] {
      UnescapeEscape(s[1..]);
      UnescapeHead(s[0], EscapeHtml(s[1..]));
      assert s == [s[0]] + s[1..];
    }
  }
}
