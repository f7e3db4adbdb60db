/**
 * The line-level rules at the head of the lesson renderer's substitution chain
 * (app.js:125-128): `^### (.*)$`, `^## (.*)$`, `^# (.*)$` and `^> (.*)$`, each
 * with the `g` and `m` flags, applied one after the other to the whole text.
 * With the `m` flag `^` and `$` match at every line boundary, and `.` matches
 * any character but a line terminator, so each rule rewrites every line that
 * starts with its marker and leaves the line terminators where they are.
 */
module Markdown {

  /** ECMAScript LineTerminator: LF, CR, LINE SEPARATOR, PARAGRAPH SEPARATOR. */
  predicate IsLineTerminator(c: char)
  {
    c == '\n' || c == '\r' || c == '\U{2028}' || c == '\U{2029}'
  }

  /** `s` lies within one line. */
  predicate IsSingleLine(s: string)
  {
    forall k :: 0 <= k < |s| ==> !IsLineTerminator(s[k])
  }

  /** Where the first line of `s` ends: its first line terminator, or `|s|`. */
  function LineEnd(s: string): (e: nat)
    ensures e <= |s|
    ensures IsSingleLine(s[..e])
    ensures e < |s| ==> IsLineTerminator(s[e])
  {
    if s == [] || IsLineTerminator(s[0]) then 0
    else
      var e := 1 + LineEnd(s[1..]);
      assert s[..e] == [s[0]] + s[1..][..e - 1];
      e
  }

  /** One rule on one line: a line that starts with `marker` becomes the rest
      of the line wrapped in `<tag>`; any other line is left as it is. */
  function RewriteLine(line: string, marker: string, tag: string): string
  {
    if marker <= line then "<" + tag + ">" + line[|marker|..] + "</" + tag + ">"
    else line
  }

  /** One rule over the whole text, line by line. */
  function ApplyRule(s: string, marker: string, tag: string): string
    decreases |s|
  {
    var e := LineEnd(s);
    var line := RewriteLine(s[..e], marker, tag);
    if e == |s| then line else line + [s[e]] + ApplyRule(s[e + 1..], marker, tag)
  }

  /** The four rules in the source's order: `###`, then `##`, then `#`, then `>`. */
  function HeadingRules(s: string): string
  {
    var h3 := ApplyRule(s, "### ", "h3");
    var h2 := ApplyRule(h3, "## ", "h2");
    var h1 := ApplyRule(h2, "# ", "h1");
    ApplyRule(h1, "> ", "blockquote")
  }

  /** The four rules as they act on one line. */
  function LineRules(line: string): string
  {
    RewriteLine(RewriteLine(RewriteLine(RewriteLine(
      line, "### ", "h3"), "## ", "h2"), "# ", "h1"), "> ", "blockquote")
  }

  // ---------------------------------------------------------------------------
  // Properties
  // ---------------------------------------------------------------------------

  lemma SingleLineConcat(a: string, b: string)
    requires IsSingleLine(a) && IsSingleLine(b)
    ensures IsSingleLine(a + b)
  {
  }

  /** On a single line a rule is just the line rewrite, and its output is
      again a single line. */
  lemma ApplyRuleOnLine(line: string, marker: string, tag: string)
    requires IsSingleLine(line) && IsSingleLine(tag)
    ensures ApplyRule(line, marker, tag) == RewriteLine(line, marker, tag)
    ensures IsSingleLine(RewriteLine(line, marker, tag))
  {
    assert line[..|line|] == line;
    if marker <= line {
      var rest := line[|marker|..];
      assert IsSingleLine(rest);
      SingleLineConcat("<" + tag + ">", rest);
      SingleLineConcat("<" + tag + ">" + rest, "</" + tag + ">");
    }
  }

  /** A rule treats the text line by line: the first line and the rest are
      rewritten independently and the terminator between them is kept. */
  lemma ApplyRuleSplits(a: string, t: char, b: string, marker: string, tag: string)
    requires IsSingleLine(a) && IsLineTerminator(t)
    ensures ApplyRule(a + [t] + b, marker, tag)
            == RewriteLine(a, marker, tag) + [t] + ApplyRule(b, marker, tag)
  {
    var s := a + [t] + b;
    var e := LineEnd(s);
    assert s[|a|] == t;
    forall k | 0 <= k < |a| ensures !IsLineTerminator(s[k]) {
      assert s[k] == a[k];
    }
    assert e == |a|;
    assert s[..e] == a;
    assert s[e + 1..] == b;
  }

  /** On a single line the whole-text rules are the line rules. */
  lemma RulesOnLine(line: string)
    requires IsSingleLine(line)
    ensures HeadingRules(line) == LineRules(line)
    ensures IsSingleLine(LineRules(line))
  {
    var h3 := RewriteLine(line, "### ", "h3");
    var h2 := RewriteLine(h3, "## ", "h2");
    var h1 := RewriteLine(h2, "# ", "h1");
    ApplyRuleOnLine(line, "### ", "h3");
    ApplyRuleOnLine(h3, "## ", "h2");
    ApplyRuleOnLine(h2, "# ", "h1");
    ApplyRuleOnLine(h1, "> ", "blockquote");
  }

  /** One rule on a first line, a terminator and the rest. */
  lemma RuleStep(a: string, t: char, b: string, marker: string, tag: string)
    requires IsSingleLine(a) && IsLineTerminator(t) && IsSingleLine(tag)
    ensures ApplyRule(a + [t] + b, marker, tag)
            == RewriteLine(a, marker, tag) + [t] + ApplyRule(b, marker, tag)
    ensures IsSingleLine(RewriteLine(a, marker, tag))
  {
    ApplyRuleSplits(a, t, b, marker, tag);
    ApplyRuleOnLine(a, marker, tag);
  }

  /** The `###` and `##` rules work line by line. */
  lemma HeaderPairSplits(a: string, t: char, b: string)
    requires IsSingleLine(a) && IsLineTerminator(t)
    ensures ApplyRule(ApplyRule(a + [t] + b, "### ", "h3"), "## ", "h2")
            == RewriteLine(RewriteLine(a, "### ", "h3"), "## ", "h2") + [t]
               + ApplyRule(ApplyRule(b, "### ", "h3"), "## ", "h2")
    ensures IsSingleLine(RewriteLine(RewriteLine(a, "### ", "h3"), "## ", "h2"))
  {
    RuleStep(a, t, b, "### ", "h3");
    RuleStep(RewriteLine(a, "### ", "h3"), t, ApplyRule(b, "### ", "h3"), "## ", "h2");
  }

  /** The `#` and `>` rules work line by line. */
  lemma TrailerPairSplits(a: string, t: char, b: string)
    requires IsSingleLine(a) && IsLineTerminator(t)
    ensures ApplyRule(ApplyRule(a + [t] + b, "# ", "h1"), "> ", "blockquote")
            == RewriteLine(RewriteLine(a, "# ", "h1"), "> ", "blockquote") + [t]
               + ApplyRule(ApplyRule(b, "# ", "h1"), "> ", "blockquote")
  {
    RuleStep(a, t, b, "# ", "h1");
    RuleStep(RewriteLine(a, "# ", "h1"), t, ApplyRule(b, "# ", "h1"), "> ", "blockquote");
  }

  /** The whole-text rules work line by line: the first line gets the line
      rules, the terminator after it is kept, and the rest is treated alike. */
  lemma RulesSplitLines(a: string, t: char, b: string)
    requires IsSingleLine(a) && IsLineTerminator(t)
    ensures HeadingRules(a + [t] + b) == LineRules(a) + [t] + HeadingRules(b)
  {
    HeaderPairSplits(a, t, b);
    TrailerPairSplits(RewriteLine(RewriteLine(a, "### ", "h3"), "## ", "h2"), t,
                      ApplyRule(ApplyRule(b, "### ", "h3"), "## ", "h2"));
  }

  /** A line that differs from the marker at position `k` is left alone. */
  lemma NotPrefix(marker: string, line: string, k: nat, tag: string)
    requires k < |marker| && k < |line| && marker[k] != line[k]
    ensures RewriteLine(line, marker, tag) == line
  {
    assert !(marker <= line) by {
      if |marker| <= |line| { assert line[..|marker|][k] != marker[k]; }
    }
  }

  /** A line that starts with the marker is wrapped in the tag. */
  lemma Prefix(marker: string, t: string, tag: string)
    ensures RewriteLine(marker + t, marker, tag) == "<" + tag + ">" + t + "</" + tag + ">"
  {
    assert (marker + t)[..|marker|] == marker;
    assert (marker + t)[|marker|..] == t;
  }

  /** The four line rules, one step at a time. */
  lemma LineRulesSteps(line: string, a: string, b: string, c: string, r: string)
    requires RewriteLine(line, "### ", "h3") == a
    requires RewriteLine(a, "## ", "h2") == b
    requires RewriteLine(b, "# ", "h1") == c
    requires RewriteLine(c, "> ", "blockquote") == r
    ensures LineRules(line) == r
  {
  }

  lemma Heading1(t: string)
    ensures LineRules("# " + t) == "<h1>" + t + "</h1>"
  {
    var l, h := "# " + t, "<h1>" + t + "</h1>";
    NotPrefix("### ", l, 1, "h3");
    NotPrefix("## ", l, 1, "h2");
    Prefix("# ", t, "h1");
    NotPrefix("> ", h, 0, "blockquote");
    LineRulesSteps(l, l, l, h, h);
  }

  lemma Heading2(t: string)
    ensures LineRules("## " + t) == "<h2>" + t + "</h2>"
  {
    var l, h := "## " + t, "<h2>" + t + "</h2>";
    NotPrefix("### ", l, 2, "h3");
    Prefix("## ", t, "h2");
    NotPrefix("# ", h, 0, "h1");
    NotPrefix("> ", h, 0, "blockquote");
    LineRulesSteps(l, l, h, h, h);
  }

  lemma Heading3(t: string)
    ensures LineRules("### " + t) == "<h3>" + t + "</h3>"
  {
    var l, h := "### " + t, "<h3>" + t + "</h3>";
    Prefix("### ", t, "h3");
    NotPrefix("## ", h, 0, "h2");
    NotPrefix("# ", h, 0, "h1");
    NotPrefix("> ", h, 0, "blockquote");
    LineRulesSteps(l, h, h, h, h);
  }

  lemma BlockquoteTags(t: string)
    ensures "<" + "blockquote" + ">" + t + "</" + "blockquote" + ">" == "<blockquote>" + t + "</blockquote>"
  {
    var o, c := "<" + "blockquote" + ">", "</" + "blockquote" + ">";
    assert o == "<blockquote>" && c == "</blockquote>";
    assert "<" + "blockquote" + ">" + t + "</" + "blockquote" + ">" == o + t + c;
  }

  lemma Blockquote(t: string)
    ensures LineRules("> " + t) == "<blockquote>" + t + "</blockquote>"
  {
    var l, h := "> " + t, "<blockquote>" + t + "</blockquote>";
    NotPrefix("### ", l, 0, "h3");
    NotPrefix("## ", l, 0, "h2");
    NotPrefix("# ", l, 0, "h1");
    Prefix("> ", t, "blockquote");
    BlockquoteTags(t);
    LineRulesSteps(l, l, l, l, h);
  }

  /** "# t", "## t" and "### t" become headings of level 1, 2 and 3 holding
      exactly `t`, and "> t" a blockquote holding `t`, whatever `t` is. */
  lemma HeadingLevels(t: string)
    ensures LineRules("# " + t) == "<h1>" + t + "</h1>"
    ensures LineRules("## " + t) == "<h2>" + t + "</h2>"
    ensures LineRules("### " + t) == "<h3>" + t + "</h3>"
    ensures LineRules("> " + t) == "<blockquote>" + t + "</blockquote>"
  {
    Heading1(t);
    Heading2(t);
    Heading3(t);
    Blockquote(t);
  }

  /** A line that starts with neither `#` nor `>` passes through unchanged. */
  lemma PlainLineUnchanged(line: string)
    requires line == [] || (line[0] != '#' && line[0] != '>')
    ensures LineRules(line) == line
  {
    if line != [] {
      NotPrefix("### ", line, 0, "h3");
      NotPrefix("## ", line, 0, "h2");
      NotPrefix("# ", line, 0, "h1");
      NotPrefix("> ", line, 0, "blockquote");
    }
  }
}
