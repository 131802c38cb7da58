/**
 * Character-level recognisers for the annotation lines of the test-source format.
 *
 * Every annotation pattern in tests/test_compile/ast.py and tests/test_compile/parser.py is
 * built from the one template `^\s*@\s*SUB\s*$` and is applied with Python 2's `re.match`
 * on a byte string, so `\s` is the six ASCII whitespace characters and `\w` is
 * `[A-Za-z0-9_]`. Instead of a regular-expression engine, this module strips whitespace by
 * hand; each recogniser is then proved equal to an explicit description of the lines the
 * pattern accepts ("Layout" predicates below): blank, `@`, blank, SUB, blank.
 */
module Lines {
  import opened Wrappers

  /** Python 2's `\s` on byte strings: space, tab, newline, carriage return, form feed, vertical tab. */
  predicate IsSpace(c: char) {
    c == ' ' || c == '\t' || c == '\n' || c == '\r' || c == '\U{000C}' || c == '\U{000B}'
  }

  /** Python 2's `\w` without the LOCALE or UNICODE flag. */
  predicate IsWordChar(c: char) {
    ('a' <= c <= 'z') || ('A' <= c <= 'Z') || ('0' <= c <= '9') || c == '_'
  }

  /** `\s*`: every character is whitespace (the empty string included). */
  predicate Blank(s: string) {
    forall i | 0 <= i < |s| :: IsSpace(s[i])
  }

  /** `\w+`: one or more word characters. */
  predicate Word(s: string) {
    |s| > 0 && forall i | 0 <= i < |s| :: IsWordChar(s[i])
  }

  /** Neither begins nor ends with whitespace. */
  predicate Trimmed(m: string) {
    m == [] || (!IsSpace(m[0]) && !IsSpace(m[|m| - 1]))
  }

  /** The number of whitespace characters at the front of `s`. */
  function LeadingBlank(s: string): (n: nat)
    ensures n <= |s| && Blank(s[..n])
    ensures n < |s| ==> !IsSpace(s[n])
  {
    if s == [] || !IsSpace(s[0]) then 0
    else
      var n := 1 + LeadingBlank(s[1..]);
      assert forall i | 1 <= i < n :: s[..n][i] == s[1..][..n - 1][i - 1];
      n
  }

  /** The number of whitespace characters at the back of `s`. */
  function TrailingBlank(s: string): (n: nat)
    ensures n <= |s| && Blank(s[|s| - n..])
    ensures n < |s| ==> !IsSpace(s[|s| - n - 1])
  {
    if s == [] || !IsSpace(s[|s| - 1]) then 0
    else
      var p := s[..|s| - 1];
      var n := 1 + TrailingBlank(p);
      assert s[|s| - n..] == p[|p| - (n - 1)..] + [s[|s| - 1]];
      n
  }

  function LStrip(s: string): string {
    s[LeadingBlank(s)..]
  }

  function RStrip(s: string): string {
    s[..|s| - TrailingBlank(s)]
  }

  /** `s` without its leading and trailing whitespace. */
  function Strip(s: string): (r: string)
    ensures Trimmed(r)
  {
    var u := LStrip(s);
    var r := RStrip(u);
    assert r != [] ==> r[0] == s[LeadingBlank(s)];
    r
  }

  /** `\s*@`: after optional whitespace the line starts with the sigil. */
  predicate HasSigil(s: string) {
    var t := LStrip(s);
    |t| > 0 && t[0] == '@'
  }

  /**
   * For a line of the shape `\s*@\s*SUB\s*`, the text SUB with the whitespace around it
   * removed; `None` when the line has no sigil. Leading blanks are skipped one at a time.
   */
  function Annotation(line: string): (r: Option<string>)
    ensures r.Some? ==> Trimmed(r.value)
  {
    if line == [] then None
    else if IsSpace(line[0]) then Annotation(line[1..])
    else if line[0] == '@' then Some(Strip(line[1..]))
    else None
  }

  /** Skipping the leading blanks one at a time is stripping them all at once. */
  lemma {:induction false} AnnotationOfStripped(line: string)
    ensures var t := LStrip(line);
      Annotation(line) == if |t| > 0 && t[0] == '@' then Some(Strip(t[1..])) else None
  {
    if line != [] && IsSpace(line[0]) {
      assert LStrip(line) == LStrip(line[1..]);
      AnnotationOfStripped(line[1..]);
    }
  }

  /** A line has an annotation exactly when it has the sigil. */
  lemma AnnotationIffSigil(line: string)
    ensures Annotation(line).Some? <==> HasSigil(line)
  {
    AnnotationOfStripped(line);
  }

  /** `SUB` followed by `\s*{`: the body of an `@EXPECT {`-style annotation for keyword `kw`. */
  predicate KeywordBrace(body: string, kw: string) {
    |body| > |kw| && body[..|kw|] == kw && body[|body| - 1] == '{' && Blank(body[|kw|..|body| - 1])
  }

  /** The pattern `^\s*@\s*}\s*$` of EndNode. */
  predicate MatchEnd(line: string) {
    Annotation(line) == Some("}")
  }

  /** The pattern `^\s*@\s*KW\s*{\s*$` of the four assertion node classes. */
  predicate MatchKeyword(line: string, kw: string) {
    var body := Annotation(line);
    body.Some? && KeywordBrace(body.value, kw)
  }

  /** `TEST\s*(\w+)\s*{`: the captured test name, if the body has that shape. */
  function TestName(body: string): Option<string> {
    if |body| > 4 && body[..4] == "TEST" && body[|body| - 1] == '{' then
      var name := Strip(body[4..|body| - 1]);
      if Word(name) then Some(name) else None
    else None
  }

  /** The pattern `^\s*@\s*TEST\s*(\w+)\s*{\s*$` of TestNode, returning group 1. */
  function MatchTest(line: string): Option<string> {
    match Annotation(line)
    case Some(body) => TestName(body)
    case None => None
  }

  // ---------------------------------------------------------------------------------------
  // Reference descriptions of the accepted lines.

  /** `line` is blank `a`, the sigil, blank `b`, the text `m`, blank `c`. */
  ghost predicate Layout(line: string, a: string, b: string, m: string, c: string) {
    Blank(a) && Blank(b) && Blank(c) && line == a + "@" + b + m + c
  }

  /** `line` is blank `a`, the sigil, then anything. */
  ghost predicate SigilLayout(line: string, a: string, rest: string) {
    Blank(a) && line == a + "@" + rest
  }

  /** `line` is `\s*@\s*KW\s*{\s*` with the four blanks `a`, `b`, `m`, `c`. */
  ghost predicate KeywordLayout(line: string, kw: string, a: string, b: string, m: string, c: string) {
    Blank(m) && Layout(line, a, b, kw + m + "{", c)
  }

  /** `line` is `\s*@\s*TEST\s*NAME\s*{\s*` with the five blanks `a`, `b`, `m1`, `m2`, `c`. */
  ghost predicate TestLayout(line: string, a: string, b: string, m1: string, name: string, m2: string, c: string) {
    Blank(m1) && Blank(m2) && Layout(line, a, b, "TEST" + m1 + name + m2 + "{", c)
  }

  // ---------------------------------------------------------------------------------------
  // Stripping lemmas.

  lemma {:induction false} LeadingBlankPad(a: string, x: string)
    requires Blank(a)
    ensures LeadingBlank(a + x) == |a| + LeadingBlank(x)
    ensures LStrip(a + x) == LStrip(x)
  {
    if a == [] {
      assert a + x == x;
    } else {
      assert (a + x)[1..] == a[1..] + x;
      LeadingBlankPad(a[1..], x);
    }
  }

  /** One more trailing blank counts once more. */
  lemma TrailingBlankSnoc(p: string, ch: char)
    requires IsSpace(ch)
    ensures TrailingBlank(p + [ch]) == 1 + TrailingBlank(p)
  {
    var s := p + [ch];
    assert s[..|s| - 1] == p;
  }

  lemma {:induction false} TrailingBlankCount(x: string, c: string)
    requires Blank(c)
    ensures TrailingBlank(x + c) == TrailingBlank(x) + |c|
  {
    if c == [] {
      assert x + c == x;
    } else {
      var c' := c[..|c| - 1];
      var ch := c[|c| - 1];
      assert c == c' + [ch];
      assert x + c == (x + c') + [ch] by {
        assert x + (c' + [ch]) == (x + c') + [ch];
      }
      assert Blank(c') by {
        forall i | 0 <= i < |c'| ensures IsSpace(c'[i]) {
          assert c'[i] == c[i];
        }
      }
      TrailingBlankSnoc(x + c', ch);
      TrailingBlankCount(x, c');
    }
  }

  lemma TrailingBlankPad(x: string, c: string)
    requires Blank(c)
    ensures TrailingBlank(x + c) == TrailingBlank(x) + |c|
    ensures RStrip(x + c) == RStrip(x)
  {
    TrailingBlankCount(x, c);
    var k := |x| - TrailingBlank(x);
    assert RStrip(x + c) == (x + c)[..k];
    assert (x + c)[..k] == x[..k];
  }

  /** Removing the blanks around a trimmed text gives back the text. */
  lemma StripPadded(a: string, m: string, c: string)
    requires Blank(a) && Blank(c) && Trimmed(m)
    ensures Strip(a + m + c) == m
  {
    assert a + m + c == a + (m + c);
    LeadingBlankPad(a, m + c);
    if m == [] {
      assert m + c == c + [];
      LeadingBlankPad(c, []);
      assert LStrip(a + m + c) == [];
    } else {
      assert LStrip(m + c) == m + c;
      TrailingBlankPad(m, c);
    }
  }

  /** A string is its leading blanks followed by its left-stripped text. */
  lemma LStripSplit(s: string) returns (a: string)
    ensures Blank(a) && s == a + LStrip(s)
  {
    var n := LeadingBlank(s);
    a := s[..n];
    SplitAt(s, n);
  }

  /** A string is its right-stripped text followed by its trailing blanks. */
  lemma RStripSplit(u: string) returns (c: string)
    ensures Blank(c) && u == RStrip(u) + c
  {
    var k := |u| - TrailingBlank(u);
    c := u[k..];
    SplitAt(u, k);
  }

  /** A string is its prefix of any length followed by the rest. */
  lemma SplitAt(s: string, k: nat)
    requires k <= |s|
    ensures s == s[..k] + s[k..]
  {
  }

  /** Every string is its stripped text with blanks around it. */
  lemma StripSplit(s: string) returns (a: string, c: string)
    ensures Blank(a) && Blank(c) && s == a + Strip(s) + c
  {
    var u := LStrip(s);
    a := LStripSplit(s);
    c := RStripSplit(u);
    assert Strip(s) == RStrip(u);
    assert a + Strip(s) + c == a + (RStrip(u) + c);
  }

  // ---------------------------------------------------------------------------------------
  // Each recogniser equals its reference description.

  /** A line with the sigil is blanks, the sigil, and a rest whose stripped text is the annotation. */
  lemma AnnotationParts(line: string) returns (a: string, rest: string)
    requires HasSigil(line)
    ensures Blank(a) && line == a + "@" + rest
    ensures Annotation(line) == Some(Strip(rest))
  {
    var t := LStrip(line);
    a := LStripSplit(line);
    rest := t[1..];
    assert t == "@" + rest;
    AnnotationOfStripped(line);
  }

  /** Substituting the split rest back into the line. */
  lemma JoinRest(line: string, a: string, rest: string, b: string, m: string, c: string)
    requires line == a + "@" + rest && rest == b + m + c
    ensures line == a + "@" + b + m + c
  {
  }

  /** A recognised annotation text is laid out, with blanks, after the sigil. */
  lemma AnnotationLayoutOf(line: string, m: string) returns (a: string, b: string, c: string)
    requires Annotation(line) == Some(m)
    ensures Layout(line, a, b, m, c)
  {
    var rest;
    AnnotationIffSigil(line);
    a, rest := AnnotationParts(line);
    b, c := StripSplit(rest);
    JoinRest(line, a, rest, b, m, c);
  }

  /** A trimmed text laid out after the sigil is recognised as the annotation text. */
  lemma LayoutAnnotation(line: string, a: string, b: string, m: string, c: string)
    requires Layout(line, a, b, m, c) && Trimmed(m)
    ensures Annotation(line) == Some(m)
  {
    var rest := b + m + c;
    var tail := "@" + rest;
    assert line == a + tail;
    LeadingBlankPad(a, tail);
    assert LeadingBlank(tail) == 0;
    assert LStrip(line) == tail;
    assert tail[1..] == rest;
    StripPadded(b, m, c);
    AnnotationOfStripped(line);
  }

  /** The template `^\s*@\s*SUB\s*$`: a trimmed SUB is recognised exactly on the lines laid out around it. */
  lemma AnnotationIffLayout(line: string, m: string)
    requires Trimmed(m)
    ensures Annotation(line) == Some(m) <==> exists a, b, c :: Layout(line, a, b, m, c)
  {
    if Annotation(line) == Some(m) {
      var a, b, c := AnnotationLayoutOf(line, m);
    }
    if exists a, b, c :: Layout(line, a, b, m, c) {
      var a, b, c :| Layout(line, a, b, m, c);
      LayoutAnnotation(line, a, b, m, c);
    }
  }

  /** `\s*@.*`: a line has the sigil exactly when it is blank, `@`, then anything. */
  lemma SigilIffLayout(line: string)
    ensures HasSigil(line) <==> exists a, rest :: SigilLayout(line, a, rest)
  {
    if HasSigil(line) {
      var a, rest := AnnotationParts(line);
      assert SigilLayout(line, a, rest);
    }
    if exists a, rest :: SigilLayout(line, a, rest) {
      var a, rest :| SigilLayout(line, a, rest);
      assert line == a + ("@" + rest);
      LeadingBlankPad(a, "@" + rest);
      assert LeadingBlank("@" + rest) == 0;
    }
  }

  /** `^\s*@\s*}\s*$`. */
  lemma EndIffLayout(line: string)
    ensures MatchEnd(line) <==> exists a, b, c :: Layout(line, a, b, "}", c)
  {
    AnnotationIffLayout(line, "}");
  }

  /** A keyword body is the keyword, blanks and the brace. */
  lemma KeywordBodySplit(body: string, kw: string) returns (m: string)
    requires KeywordBrace(body, kw)
    ensures Blank(m) && body == kw + m + "{"
  {
    m := body[|kw|..|body| - 1];
    assert body == body[..|kw|] + m + [body[|body| - 1]];
  }

  /** The keyword, blanks and the brace make a keyword body. */
  lemma KeywordBodyOf(kw: string, m: string)
    requires Blank(m)
    ensures KeywordBrace(kw + m + "{", kw)
  {
    var body := kw + m + "{";
    assert body[..|kw|] == kw;
    assert body[|kw|..|body| - 1] == m;
  }

  /** `^\s*@\s*KW\s*{\s*$` for a keyword that starts with a non-blank character. */
  lemma KeywordIffLayout(line: string, kw: string)
    requires |kw| > 0 && !IsSpace(kw[0])
    ensures MatchKeyword(line, kw) <==> exists a, b, m, c :: KeywordLayout(line, kw, a, b, m, c)
  {
    if MatchKeyword(line, kw) {
      var body := Annotation(line).value;
      var m := KeywordBodySplit(body, kw);
      var a, b, c := AnnotationLayoutOf(line, body);
      assert KeywordLayout(line, kw, a, b, m, c);
    }
    if exists a, b, m, c :: KeywordLayout(line, kw, a, b, m, c) {
      var a, b, m, c :| KeywordLayout(line, kw, a, b, m, c);
      var body := kw + m + "{";
      assert Trimmed(body);
      LayoutAnnotation(line, a, b, body, c);
      KeywordBodyOf(kw, m);
    }
  }

  /** A string of at least five characters is its first four, its middle and its last. */
  lemma Brackets(s: string)
    requires |s| > 4
    ensures s == s[..4] + s[4..|s| - 1] + s[|s| - 1..]
  {
  }

  /** Replacing the middle of a three-part string by its own three parts. */
  lemma Regroup(s: string, pre: string, mid: string, post: string, x: string, y: string, z: string)
    requires s == pre + mid + post && mid == x + y + z
    ensures s == pre + x + y + z + post
  {
  }

  /** A TEST body is `TEST`, blanks, the name, blanks and the brace. */
  lemma TestBodySplit(body: string, name: string) returns (m1: string, m2: string)
    requires TestName(body) == Some(name)
    ensures Blank(m1) && Blank(m2) && body == "TEST" + m1 + name + m2 + "{"
  {
    var mid := body[4..|body| - 1];
    Brackets(body);
    assert body[|body| - 1..] == "{";
    m1, m2 := StripSplit(mid);
    Regroup(body, "TEST", mid, "{", m1, name, m2);
  }

  /** `TEST`, blanks, a word, blanks and the brace make a TEST body naming that word. */
  lemma TestBodyOf(m1: string, name: string, m2: string)
    requires Blank(m1) && Blank(m2) && Word(name)
    ensures TestName("TEST" + m1 + name + m2 + "{") == Some(name)
  {
    var body := "TEST" + m1 + name + m2 + "{";
    assert body[..4] == "TEST";
    assert body[4..|body| - 1] == m1 + name + m2;
    assert !IsSpace(name[0]) && !IsSpace(name[|name| - 1]);
    StripPadded(m1, name, m2);
  }

  /** A recognised TEST line is laid out around a word that is the returned name. */
  lemma TestLayoutOf(line: string, name: string) returns (a: string, b: string, m1: string, m2: string, c: string)
    requires MatchTest(line) == Some(name)
    ensures Word(name) && TestLayout(line, a, b, m1, name, m2, c)
  {
    var body := Annotation(line).value;
    m1, m2 := TestBodySplit(body, name);
    a, b, c := AnnotationLayoutOf(line, body);
  }

  /** A TEST line laid out around a word is recognised with that word as its name. */
  lemma LayoutTest(line: string, a: string, b: string, m1: string, name: string, m2: string, c: string)
    requires Word(name) && TestLayout(line, a, b, m1, name, m2, c)
    ensures MatchTest(line) == Some(name)
  {
    var body := "TEST" + m1 + name + m2 + "{";
    assert Trimmed(body);
    LayoutAnnotation(line, a, b, body, c);
    TestBodyOf(m1, name, m2);
  }

  /** `^\s*@\s*TEST\s*(\w+)\s*{\s*$`: the recogniser returns exactly the word laid out as the name. */
  lemma TestIffLayout(line: string, name: string)
    ensures MatchTest(line) == Some(name) <==>
      Word(name) && exists a, b, m1, m2, c :: TestLayout(line, a, b, m1, name, m2, c)
  {
    if MatchTest(line) == Some(name) {
      var a, b, m1, m2, c := TestLayoutOf(line, name);
    }
    if Word(name) && exists a, b, m1, m2, c :: TestLayout(line, a, b, m1, name, m2, c) {
      var a, b, m1, m2, c :| TestLayout(line, a, b, m1, name, m2, c);
      LayoutTest(line, a, b, m1, name, m2, c);
    }
  }

  // ---------------------------------------------------------------------------------------
  // Exclusivity of the patterns.

  /** Two keywords that differ at a common position never match the same line. */
  lemma KeywordsDifferAt(line: string, kw1: string, kw2: string, i: nat)
    requires i < |kw1| && i < |kw2| && kw1[i] != kw2[i]
    ensures !(MatchKeyword(line, kw1) && MatchKeyword(line, kw2))
  {
    if MatchKeyword(line, kw1) {
      var body := Annotation(line).value;
      assert body[i] == kw1[i] by { assert body[..|kw1|][i] == body[i]; }
    }
  }

  /**
   * A keyword never matches a line of a longer keyword that extends it with a character
   * that is neither blank nor `{` (`EXPECT` against `EXPECT_NOT`).
   */
  lemma KeywordExtendedBy(line: string, kw1: string, kw2: string)
    requires |kw1| < |kw2| && !IsSpace(kw2[|kw1|]) && kw2[|kw1|] != '{'
    ensures !(MatchKeyword(line, kw1) && MatchKeyword(line, kw2))
  {
    if MatchKeyword(line, kw1) {
      var body := Annotation(line).value;
      var k := |kw1|;
      assert IsSpace(body[k]) || body[k] == '{' by {
        if k < |body| - 1 {
          assert body[k..|body| - 1][0] == body[k];
        }
      }
      if |body| > |kw2| {
        assert body[..|kw2|][k] == body[k];
      }
    }
  }

  /** The end line `@}` is neither a keyword line nor a TEST line. */
  lemma EndExcludesOthers(line: string, kw: string)
    requires MatchEnd(line)
    ensures !MatchKeyword(line, kw) && MatchTest(line).None?
  {
  }

  /** A TEST line is never the line of a keyword that does not start with `T`. */
  lemma TestExcludesKeyword(line: string, kw: string)
    requires |kw| > 0 && kw[0] != 'T'
    ensures !(MatchTest(line).Some? && MatchKeyword(line, kw))
  {
    if MatchTest(line).Some? {
      var body := Annotation(line).value;
      assert body[0] == 'T' by { assert body[..4][0] == body[0]; }
      assert |body| > |kw| ==> body[..|kw|][0] == body[0];
    }
  }

  /** Any annotation line, of any of the patterns, has the sigil. */
  lemma AnnotationsHaveSigil(line: string, kw: string)
    requires MatchEnd(line) || MatchKeyword(line, kw) || MatchTest(line).Some?
    ensures HasSigil(line)
  {
    AnnotationIffSigil(line);
  }
}
