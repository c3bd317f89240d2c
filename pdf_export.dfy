/**
 * `create_pdf` of main.py: the text clean-up that makes a summary safe for a
 * Latin-1 PDF core font, and the loop that lays the cleaned lines out, one
 * layout operation per line. The PDF library itself (fonts, wrapping inside a
 * cell, page breaks, serialisation) is represented only by the operations it
 * is asked to perform.
 */
module PdfExport {
  import opened PyStr
  import Latin1

  // Page set-up of create_pdf: uniform 15-unit margins, 8-unit line height.
  const LeftMargin: real := 15.0
  const RightMargin: real := 15.0
  const LineHeight: real := 8.0

  // Typographic characters the clean-up maps to ASCII.
  const Bullet: char := '\U{2022}'
  const EmDash: char := '\U{2014}'
  const LeftDoubleQuote: char := '\U{201C}'
  const RightDoubleQuote: char := '\U{201D}'
  const LeftSingleQuote: char := '\U{2018}'
  const RightSingleQuote: char := '\U{2019}'

  /** Characters that never survive the replacement chain. */
  predicate IsMarker(c: char) {
    c == '#' || c == Bullet || c == EmDash || c == LeftDoubleQuote ||
    c == RightDoubleQuote || c == LeftSingleQuote || c == RightSingleQuote
  }

  // -------------------------------------------------------------------------
  // Normalisation
  // -------------------------------------------------------------------------

  /** The first two `replace` calls: markdown bold markers `**`, then every `#`, are deleted. */
  function StripMarkdown(text: string): (r: string)
    ensures '#' !in r
    ensures forall c :: c in r ==> c in text
  {
    var noBold := ReplaceAll(text, "**", "");
    ReplaceAllRemoves(noBold, '#', "");
    ReplaceAll(noBold, "#", "")
  }

  /** The other six: bullets and em-dashes become `-`, curly quotes become straight ones. */
  function AsciiPunctuation(text: string): string {
    ReplaceAll(ReplaceAll(ReplaceAll(ReplaceAll(ReplaceAll(ReplaceAll(
      text, [Bullet], "-"), [EmDash], "-"),
      [LeftDoubleQuote], "\""), [RightDoubleQuote], "\""),
      [LeftSingleQuote], "'"), [RightSingleQuote], "'")
  }

  /** The whole chain of `replace` calls, in source order. */
  function ReplaceChain(text: string): string {
    AsciiPunctuation(StripMarkdown(text))
  }

  /** Every piece stripped of its surrounding whitespace. */
  function StripEach(ls: seq<string>): (r: seq<string>)
    ensures |r| == |ls|
    ensures forall j :: 0 <= j < |ls| ==> r[j] == Strip(ls[j])
  {
    seq(|ls|, j requires 0 <= j < |ls| => Strip(ls[j]))
  }

  /** `"\n".join(line.strip() for line in text.splitlines())` */
  function StripLines(text: string): string {
    Join(StripEach(SplitLines(text)), '\n')
  }

  /** The whole clean-up: replacement chain, per-line strip, Latin-1 round trip. */
  function Normalise(text: string): string {
    Latin1.Replace(StripLines(ReplaceChain(text)))
  }

  /** The pieces `splitlines` finds in the text after the replacement chain. */
  function Pieces(text: string): seq<string> {
    SplitLines(ReplaceChain(text))
  }

  /**
   * The line the PDF receives for one `splitlines` piece: the stripped piece
   * with each character from 256 up turned into `?`. It has no surrounding
   * whitespace, only encodable characters, and is empty exactly when the
   * piece is blank.
   */
  function SafeLine(piece: string): (r: string)
    ensures |r| == |Strip(piece)|
    ensures forall k :: 0 <= k < |r| ==> r[k] == Latin1.SafeChar(Strip(piece)[k])
    ensures Trimmed(r)
    ensures forall k :: 0 <= k < |r| ==> Latin1.Encodable(r[k])
    ensures r == "" <==> Strip(piece) == ""
  {
    var s := Strip(piece);
    SafeCharKeepsClass(s);
    Latin1.Replace(s)
  }

  /** A piece without line boundaries gives a safe line without them. */
  lemma SafeLineNoBoundary(piece: string)
    requires NoLineBoundary(piece)
    ensures NoLineBoundary(SafeLine(piece))
  {
    var s := Strip(piece);
    NoBoundaryChars(piece);
    forall k | 0 <= k < |s| ensures !IsLineBoundary(s[k]) {
      assert s[k] in s;
    }
    SafeCharKeepsClass(s);
  }

  lemma NoBoundaryChars(s: string)
    requires NoLineBoundary(s)
    ensures forall c :: c in s ==> !IsLineBoundary(c)
  {
  }

  /** `?` is neither whitespace nor a line boundary, so the round trip keeps edges and lines intact. */
  lemma SafeCharKeepsClass(s: string)
    ensures forall k :: 0 <= k < |s| && !IsSpace(s[k]) ==> !IsSpace(Latin1.SafeChar(s[k]))
    ensures forall k :: 0 <= k < |s| && !IsLineBoundary(s[k]) ==> !IsLineBoundary(Latin1.SafeChar(s[k]))
  {
  }

  function SafeLines(pieces: seq<string>): (r: seq<string>)
    ensures |r| == |pieces|
    ensures forall j :: 0 <= j < |pieces| ==> r[j] == SafeLine(pieces[j])
  {
    seq(|pieces|, j requires 0 <= j < |pieces| => SafeLine(pieces[j]))
  }

  function ReplaceEach(ls: seq<string>): (r: seq<string>)
    ensures |r| == |ls|
    ensures forall j :: 0 <= j < |ls| ==> r[j] == Latin1.Replace(ls[j])
  {
    seq(|ls|, j requires 0 <= j < |ls| => Latin1.Replace(ls[j]))
  }

  /** The Latin-1 round trip leaves `\n` alone, so it can be applied line by line. */
  lemma {:induction false} ReplaceJoin(ls: seq<string>)
    ensures Latin1.Replace(Join(ls, '\n')) == Join(ReplaceEach(ls), '\n')
    decreases |ls|
  {
    if |ls| >= 2 {
      ReplaceJoin(ls[1..]);
      assert ReplaceEach(ls)[1..] == ReplaceEach(ls[1..]);
      Latin1.ReplaceConcat(ls[0] + "\n", Join(ls[1..], '\n'));
      Latin1.ReplaceConcat(ls[0], "\n");
    }
  }

  /** The normalised text is the safe lines joined with `\n`. */
  lemma NormaliseIsJoinOfSafeLines(text: string)
    ensures Normalise(text) == Join(SafeLines(Pieces(text)), '\n')
  {
    var pieces := Pieces(text);
    ReplaceJoin(StripEach(pieces));
    assert ReplaceEach(StripEach(pieces)) == SafeLines(pieces);
  }

  /**
   * Splitting the normalised text at `\n` gives one safe line per
   * `splitlines` piece, in order; a text with no piece at all gives a single
   * empty line.
   */
  lemma NormalisedLines(text: string)
    ensures Split(Normalise(text), '\n') ==
            if Pieces(text) == [] then [""] else SafeLines(Pieces(text))
  {
    var pieces := Pieces(text);
    NormaliseIsJoinOfSafeLines(text);
    if pieces != [] {
      var lines := SafeLines(pieces);
      forall j | 0 <= j < |lines| ensures '\n' !in lines[j] {
        SafeLineNoBoundary(pieces[j]);
        NoBoundaryChars(lines[j]);
      }
      SplitJoin(lines, '\n');
    }
  }

  /** The number of lines laid out is the number of `splitlines` pieces, but at least one. */
  lemma NormalisedLineCount(text: string)
    ensures |Split(Normalise(text), '\n')| == if Pieces(text) == [] then 1 else |Pieces(text)|
  {
    NormalisedLines(text);
  }

  /** Every `\n`-separated line of the normalised text has no leading or trailing whitespace. */
  lemma NormalisedLinesTrimmed(text: string)
    ensures forall line :: line in Split(Normalise(text), '\n') ==> Trimmed(line)
  {
    NormalisedLines(text);
  }

  /**
   * What the normalised text is made of: only Latin-1 characters, none of
   * the markers, and no line boundary other than `\n`.
   */
  lemma NormalisedCharacters(text: string)
    ensures forall k :: 0 <= k < |Normalise(text)| ==>
      var c := Normalise(text)[k];
      Latin1.Encodable(c) && !IsMarker(c) && (IsLineBoundary(c) ==> c == '\n')
  {
    var chained := ReplaceChain(text);
    var pieces := Pieces(text);
    var r := Normalise(text);
    ReplaceChainRemovesMarkers(text);
    StripLinesChars(chained);
    forall k | 0 <= k < |r| ensures !IsMarker(r[k]) {
      assert StripLines(chained)[k] in StripLines(chained);
    }
    NormaliseIsJoinOfSafeLines(text);
    var lines := SafeLines(pieces);
    forall j, c | 0 <= j < |lines| && c in lines[j] ensures !IsLineBoundary(c) {
      SafeLineNoBoundary(pieces[j]);
      NoBoundaryChars(lines[j]);
    }
    forall k | 0 <= k < |r| ensures IsLineBoundary(r[k]) ==> r[k] == '\n' {
      assert r[k] in Join(lines, '\n');
    }
  }

  /** Every character of a `splitlines` piece is a character of the text. */
  lemma {:induction false} SplitLinesChars(s: string)
    ensures forall j, c :: 0 <= j < |SplitLines(s)| && c in SplitLines(s)[j] ==> c in s
    decreases |s|
  {
    if s != "" {
      var k := FirstBoundary(s);
      if k < |s| {
        var width := if s[k] == '\r' && k + 1 < |s| && s[k + 1] == '\n' then 2 else 1;
        SplitLinesChars(s[k + width..]);
        assert forall c :: c in s[k + width..] ==> c in s;
        assert forall c :: c in s[..k] ==> c in s;
      }
    }
  }

  /** After the replacement chain the text holds none of the markers. */
  lemma ReplaceChainRemovesMarkers(text: string)
    ensures forall c :: c in ReplaceChain(text) ==> !IsMarker(c)
  {
    var t1 := ReplaceAll(text, "**", "");
    var t2 := ReplaceAll(t1, "#", "");
    var t3 := ReplaceAll(t2, [Bullet], "-");
    var t4 := ReplaceAll(t3, [EmDash], "-");
    var t5 := ReplaceAll(t4, [LeftDoubleQuote], "\"");
    var t6 := ReplaceAll(t5, [RightDoubleQuote], "\"");
    var t7 := ReplaceAll(t6, [LeftSingleQuote], "'");
    var t8 := ReplaceAll(t7, [RightSingleQuote], "'");
    assert t8 == ReplaceChain(text);
    ReplaceAllRemoves(t1, '#', "");
    ReplaceAllRemoves(t2, Bullet, "-");
    ReplaceAllRemoves(t3, EmDash, "-");
    ReplaceAllRemoves(t4, LeftDoubleQuote, "\"");
    ReplaceAllRemoves(t5, RightDoubleQuote, "\"");
    ReplaceAllRemoves(t6, LeftSingleQuote, "'");
    ReplaceAllRemoves(t7, RightSingleQuote, "'");
  }

  /** `**` is deleted left to right without overlap: a run of three stars keeps one. */
  lemma TripleStarKeepsOne()
    ensures ReplaceChain("***") == "*"
  {
    DeleteDoubleStarOnRun(3);
    assert Repeat('*', 3) == "***";
    assert Repeat('*', 1) == "*";
    CleanTextUnchanged("*");
  }

  /** A text whose characters the chain does not touch after `**` and `#` are gone. */
  predicate ChainInert(s: string) {
    forall k :: 0 <= k < |s| ==> !IsMarker(s[k])
  }

  /** A text without the first character of a pattern holds no occurrence of it. */
  lemma {:induction false} AbsentFirstChar(s: string, pat: string)
    requires pat != "" && pat[0] !in s
    ensures !Contains(s, pat)
  {
    forall i | 0 <= i <= |s| - |pat| ensures !OccursAt(s, pat, i) {
      assert s[i] in s;
    }
  }

  /** A text without the typographic characters passes the punctuation step unchanged. */
  lemma PunctuationUnchanged(s: string)
    requires Bullet !in s && EmDash !in s && LeftDoubleQuote !in s
    requires RightDoubleQuote !in s && LeftSingleQuote !in s && RightSingleQuote !in s
    ensures AsciiPunctuation(s) == s
  {
    AbsentFirstChar(s, [Bullet]);
    ReplaceAllAbsent(s, [Bullet], "-");
    AbsentFirstChar(s, [EmDash]);
    ReplaceAllAbsent(s, [EmDash], "-");
    AbsentFirstChar(s, [LeftDoubleQuote]);
    ReplaceAllAbsent(s, [LeftDoubleQuote], "\"");
    AbsentFirstChar(s, [RightDoubleQuote]);
    ReplaceAllAbsent(s, [RightDoubleQuote], "\"");
    AbsentFirstChar(s, [LeftSingleQuote]);
    ReplaceAllAbsent(s, [LeftSingleQuote], "'");
    AbsentFirstChar(s, [RightSingleQuote]);
    ReplaceAllAbsent(s, [RightSingleQuote], "'");
  }

  /** A text with no `**` and none of the markers passes the replacement chain unchanged. */
  lemma CleanTextUnchanged(s: string)
    requires !Contains(s, "**") && ChainInert(s)
    ensures ReplaceChain(s) == s
  {
    assert forall c :: IsMarker(c) ==> c !in s;
    ReplaceAllAbsent(s, "**", "");
    AbsentFirstChar(s, ['#']);
    ReplaceAllAbsent(s, "#", "");
    PunctuationUnchanged(s);
  }

  /** One `**` between two texts free of stars and markers: the chain deletes it and leaves the texts joined. */
  lemma ChainDeletesBold(a: string, b: string)
    requires '*' !in a && '*' !in b && ChainInert(a + b)
    ensures ReplaceChain(a + "**" + b) == a + b
  {
    var t, ab := a + "**" + b, a + b;
    assert t == a + ("**" + b);
    ReplaceAllSkip(a, "**" + b, "**", "");
    ReplaceAllMatch(b, "**", "");
    ReplaceAllNone(b, "**", "");
    assert ReplaceAll(t, "**", "") == ab;
    assert forall c :: IsMarker(c) ==> c !in ab;
    AbsentFirstChar(ab, "#");
    ReplaceAllAbsent(ab, "#", "");
    assert StripMarkdown(t) == ab;
    PunctuationUnchanged(ab);
  }

  /**
   * For Latin-1 text with no `**` and no `#`, normalisation only strips each
   * `splitlines` piece and rejoins the pieces with `\n`.
   */
  lemma NormaliseLatin1Text(s: string)
    requires forall k :: 0 <= k < |s| ==> Latin1.Encodable(s[k])
    requires !Contains(s, "**") && '#' !in s
    ensures Normalise(s) == StripLines(s)
  {
    forall k | 0 <= k < |s| ensures !IsMarker(s[k]) {
      assert s[k] in s;
    }
    CleanTextUnchanged(s);
    var t := StripLines(s);
    StripLinesChars(s);
    forall k | 0 <= k < |t| ensures Latin1.Encodable(t[k]) {
      assert t[k] in t;
    }
    Latin1.DecodeEncode(t);
  }

  /** The per-line strip adds no character but `\n`. */
  lemma StripLinesChars(s: string)
    ensures forall c :: c in StripLines(s) ==> c == '\n' || c in s
  {
    var pieces := SplitLines(s);
    SplitLinesChars(s);
    forall c | c in StripLines(s) && c != '\n' ensures c in s {
      var j :| 0 <= j < |pieces| && c in StripEach(pieces)[j];
      assert c in pieces[j];
    }
  }

  /** The punctuation step maps character to character, so it works piece by piece. */
  lemma AsciiPunctuationConcat(a: string, b: string)
    ensures AsciiPunctuation(a + b) == AsciiPunctuation(a) + AsciiPunctuation(b)
  {
    var a1, b1 := ReplaceAll(a, [Bullet], "-"), ReplaceAll(b, [Bullet], "-");
    ReplaceCharConcat(a, b, Bullet, "-");
    var a2, b2 := ReplaceAll(a1, [EmDash], "-"), ReplaceAll(b1, [EmDash], "-");
    ReplaceCharConcat(a1, b1, EmDash, "-");
    var a3, b3 := ReplaceAll(a2, [LeftDoubleQuote], "\""), ReplaceAll(b2, [LeftDoubleQuote], "\"");
    ReplaceCharConcat(a2, b2, LeftDoubleQuote, "\"");
    var a4, b4 := ReplaceAll(a3, [RightDoubleQuote], "\""), ReplaceAll(b3, [RightDoubleQuote], "\"");
    ReplaceCharConcat(a3, b3, RightDoubleQuote, "\"");
    var a5, b5 := ReplaceAll(a4, [LeftSingleQuote], "'"), ReplaceAll(b4, [LeftSingleQuote], "'");
    ReplaceCharConcat(a4, b4, LeftSingleQuote, "'");
    ReplaceCharConcat(a5, b5, RightSingleQuote, "'");
  }

  /** The ASCII character the punctuation step puts in place of `c`. */
  function AsciiFor(c: char): char {
    if c == Bullet || c == EmDash then '-'
    else if c == LeftDoubleQuote || c == RightDoubleQuote then '"'
    else if c == LeftSingleQuote || c == RightSingleQuote then '\''
    else c
  }

  /**
   * The punctuation step maps character to character: the length is kept
   * and each typographic character becomes its ASCII counterpart.
   */
  lemma AsciiPunctuationPointwise(s: string)
    ensures |AsciiPunctuation(s)| == |s|
    ensures forall k :: 0 <= k < |s| ==> AsciiPunctuation(s)[k] == AsciiFor(s[k])
  {
    var s1 := ReplaceAll(s, [Bullet], "-");
    var s2 := ReplaceAll(s1, [EmDash], "-");
    var s3 := ReplaceAll(s2, [LeftDoubleQuote], "\"");
    var s4 := ReplaceAll(s3, [RightDoubleQuote], "\"");
    var s5 := ReplaceAll(s4, [LeftSingleQuote], "'");
    ReplaceCharPointwise(s, Bullet, '-');
    ReplaceCharPointwise(s1, EmDash, '-');
    ReplaceCharPointwise(s2, LeftDoubleQuote, '"');
    ReplaceCharPointwise(s3, RightDoubleQuote, '"');
    ReplaceCharPointwise(s4, LeftSingleQuote, '\'');
    ReplaceCharPointwise(s5, RightSingleQuote, '\'');
  }

  /** The punctuation step introduces no line boundary. */
  lemma AsciiPunctuationShape(s: string)
    requires NoLineBoundary(s)
    ensures |AsciiPunctuation(s)| == |s| && NoLineBoundary(AsciiPunctuation(s))
  {
    AsciiPunctuationPointwise(s);
  }

  /** `**` around a heading is deleted, and the scan goes on after it. */
  lemma DeleteBoldMarkers(heading: string, rest: string)
    requires '*' !in heading && '*' !in rest
    ensures ReplaceAll("**" + (heading + ("**" + rest)), "**", "") == heading + rest
  {
    var t := "**" + rest;
    var body := heading + t;
    ReplaceAllMatch(body, "**", "");
    assert ReplaceAll("**" + body, "**", "") == ReplaceAll(body, "**", "");
    ReplaceAllSkip(heading, t, "**", "");
    assert ReplaceAll(body, "**", "") == heading + ReplaceAll(t, "**", "");
    ReplaceAllMatch(rest, "**", "");
    ReplaceAllNone(rest, "**", "");
    assert ReplaceAll(t, "**", "") == rest;
  }

  /** Deleting the markdown from a bold heading followed by a blank line and a paragraph. */
  lemma StripMarkdownOfBoldHeading(heading: string, paragraph: string)
    requires '*' !in heading && '#' !in heading
    requires '*' !in paragraph && '#' !in paragraph
    ensures StripMarkdown("**" + heading + "**\n\n" + paragraph) == heading + "\n\n" + paragraph
  {
    var rest := "\n\n" + paragraph;
    assert "**" + heading + "**\n\n" + paragraph == "**" + (heading + ("**" + rest));
    DeleteBoldMarkers(heading, rest);
    assert heading + rest == heading + "\n\n" + paragraph;
    ReplaceAllNone(heading + rest, "#", "");
  }

  lemma PunctuationOfBlock(h: string, p: string)
    ensures AsciiPunctuation(h + "\n\n" + p) == AsciiPunctuation(h) + "\n\n" + AsciiPunctuation(p)
  {
    AsciiPunctuationConcat(h + "\n\n", p);
    AsciiPunctuationConcat(h, "\n\n");
    PunctuationUnchanged("\n\n");
  }

  lemma SplitLinesOfBlock(h: string, p: string)
    requires NoLineBoundary(h) && NoLineBoundary(p) && p != ""
    ensures SplitLines(h + "\n\n" + p) == [h, "", p]
  {
    var q := "\n" + p;
    assert h + "\n\n" + p == h + "\n" + q;
    SplitLinesAtNewlineOf(h, q);
    BlankThenLinePieces(p);
  }

  /** A line feed followed by a line is an empty line and that line. */
  lemma BlankThenLinePieces(p: string)
    requires NoLineBoundary(p) && p != ""
    ensures SplitLines("\n" + p) == ["", p]
  {
    assert "\n" + p == "" + "\n" + p;
    SplitLinesAtNewlineOf("", p);
    SplitLinesSingle(p);
  }

  /**
   * A bold heading, a blank line and a paragraph: the bold markers go, and
   * the text is laid out as the heading, an empty line and the paragraph,
   * each with ASCII punctuation, stripped and made Latin-1 safe.
   */
  lemma BoldHeadingThenParagraph(heading: string, paragraph: string)
    requires '*' !in heading && '#' !in heading && NoLineBoundary(heading)
    requires '*' !in paragraph && '#' !in paragraph && NoLineBoundary(paragraph)
    requires paragraph != ""
    ensures Split(Normalise("**" + heading + "**\n\n" + paragraph), '\n') ==
            [SafeLine(AsciiPunctuation(heading)), "", SafeLine(AsciiPunctuation(paragraph))]
  {
    BoldHeadingPieces(heading, paragraph);
    LinesOfLineBlankLine("**" + heading + "**\n\n" + paragraph,
      AsciiPunctuation(heading), AsciiPunctuation(paragraph));
  }

  /** A text cut into a line, a blank line and a line is laid out as those three lines. */
  lemma LinesOfLineBlankLine(text: string, a: string, b: string)
    requires Pieces(text) == [a, "", b]
    ensures Split(Normalise(text), '\n') == [SafeLine(a), "", SafeLine(b)]
  {
    NormalisedLines(text);
    StripTrimmed("");
    SafeLinesOfThree(a, "", b);
  }

  /** A blank middle piece of three gives an empty safe line. */
  lemma SafeLinesOfThree(a: string, blank: string, b: string)
    requires Strip(blank) == ""
    ensures SafeLines([a, blank, b]) == [SafeLine(a), "", SafeLine(b)]
  {
    BlankSafeLine(blank);
    ThreeLines(SafeLines([a, blank, b]), SafeLine(a), "", SafeLine(b));
  }

  /** Three lines given one by one are the list of those three. */
  lemma ThreeLines(r: seq<string>, x: string, y: string, z: string)
    requires |r| == 3 && r[0] == x && r[1] == y && r[2] == z
    ensures r == [x, y, z]
  {
  }

  /** A piece that strips to nothing gives an empty safe line. */
  lemma BlankSafeLine(blank: string)
    requires Strip(blank) == ""
    ensures SafeLine(blank) == ""
  {
  }

  /** The `splitlines` pieces of a bold heading, a blank line and a paragraph. */
  lemma BoldHeadingPieces(heading: string, paragraph: string)
    requires '*' !in heading && '#' !in heading && NoLineBoundary(heading)
    requires '*' !in paragraph && '#' !in paragraph && NoLineBoundary(paragraph)
    requires paragraph != ""
    ensures Pieces("**" + heading + "**\n\n" + paragraph) ==
            [AsciiPunctuation(heading), "", AsciiPunctuation(paragraph)]
  {
    StripMarkdownOfBoldHeading(heading, paragraph);
    PunctuationOfBlock(heading, paragraph);
    AsciiPunctuationShape(heading);
    AsciiPunctuationShape(paragraph);
    SplitLinesOfBlock(AsciiPunctuation(heading), AsciiPunctuation(paragraph));
  }

  /** A trimmed line of Latin-1 characters is its own safe line. */
  lemma PlainLineSafe(line: string)
    requires Trimmed(line)
    requires forall k :: 0 <= k < |line| ==> Latin1.Encodable(line[k])
    ensures SafeLine(line) == line
  {
    StripTrimmed(line);
  }

  /** A paragraph with an em dash and a pair of double curly quotes, its other characters left alone. */
  lemma DashAndQuotes(p1: string, p2: string, p3: string, p4: string)
    requires ChainInert(p1) && ChainInert(p2) && ChainInert(p3) && ChainInert(p4)
    ensures AsciiPunctuation(p1 + [EmDash] + p2 + [LeftDoubleQuote] + p3 + [RightDoubleQuote] + p4)
         == p1 + "-" + p2 + "\"" + p3 + "\"" + p4
  {
    var s := p1 + [EmDash] + p2 + [LeftDoubleQuote] + p3 + [RightDoubleQuote] + p4;
    var t := p1 + "-" + p2 + "\"" + p3 + "\"" + p4;
    AsciiPunctuationPointwise(s);
    assert |s| == |t|;
    forall k | 0 <= k < |s| ensures AsciiFor(s[k]) == t[k] {
      if k < |p1| {
        assert s[k] == p1[k] && t[k] == p1[k];
      } else if k == |p1| {
      } else if k < |p1| + 1 + |p2| {
        assert s[k] == p2[k - |p1| - 1] && t[k] == p2[k - |p1| - 1];
      } else if k == |p1| + 1 + |p2| {
      } else if k < |p1| + 2 + |p2| + |p3| {
        assert s[k] == p3[k - |p1| - 2 - |p2|] && t[k] == p3[k - |p1| - 2 - |p2|];
      } else if k == |p1| + 2 + |p2| + |p3| {
      } else {
        assert s[k] == p4[k - |p1| - 3 - |p2| - |p3|] && t[k] == p4[k - |p1| - 3 - |p2| - |p3|];
      }
    }
  }

  // -------------------------------------------------------------------------
  // Layout
  // -------------------------------------------------------------------------

  /** What create_pdf asks of the PDF library for one line. */
  datatype Op =
    | Advance(dy: real)                                       // `ln(8)`: a blank line
    | Cell(x: real, width: real, height: real, text: string)  // `set_x` then `multi_cell`

  /** The width between the margins: `pdf.w - pdf.l_margin - pdf.r_margin`. */
  function UsableWidth(pageWidth: real): real {
    pageWidth - LeftMargin - RightMargin
  }

  /** The operation the loop emits for one line of the normalised text. */
  function LineOp(line: string, pageWidth: real): Op {
    if Strip(line) == "" then Advance(LineHeight)
    else Cell(LeftMargin, UsableWidth(pageWidth), LineHeight, line)
  }

  /** The operations for a list of lines: one per line, in order. */
  function Layout(lines: seq<string>, pageWidth: real): (ops: seq<Op>)
    ensures |ops| == |lines|
    ensures forall j :: 0 <= j < |lines| ==> ops[j] == LineOp(lines[j], pageWidth)
  {
    seq(|lines|, j requires 0 <= j < |lines| => LineOp(lines[j], pageWidth))
  }

  /**
   * The layout of a normalised text, seen from its `Pieces` (the `splitlines`
   * pieces of the text after the replacement chain): each piece gives a
   * blank-line advance when it is blank and otherwise a cell of the usable
   * width and line height holding the piece stripped and made Latin-1 safe;
   * a text with no piece gives a single advance.
   */
  lemma LayoutOfPieces(text: string, pageWidth: real)
    ensures var ops := Layout(Split(Normalise(text), '\n'), pageWidth);
            var pieces := Pieces(text);
            (pieces == [] ==> ops == [Advance(LineHeight)]) &&
            (pieces != [] ==> |ops| == |pieces|) &&
            forall j :: 0 <= j < |pieces| ==>
              ops[j] == if Strip(pieces[j]) == "" then Advance(LineHeight)
                        else Cell(LeftMargin, UsableWidth(pageWidth), LineHeight, SafeLine(pieces[j]))
  {
    var lines := Split(Normalise(text), '\n');
    var pieces := Pieces(text);
    NormalisedLines(text);
    if pieces == [] {
      assert lines == [""];
      StripEmptyIffAllSpace("");
    } else {
      forall j | 0 <= j < |pieces|
        ensures Strip(lines[j]) == "" <==> Strip(pieces[j]) == ""
      {
        StripTrimmed(lines[j]);
      }
    }
  }

  /**
   * The loop of create_pdf: walk the lines in order and emit one operation
   * per line, `ln(8)` for a blank line, otherwise a `multi_cell` placed at
   * the left margin.
   */
  method LayoutLines(lines: seq<string>, pageWidth: real) returns (ops: seq<Op>)
    ensures ops == Layout(lines, pageWidth)
  {
    ops := [];
    var i := 0;
    while i < |lines|
      invariant 0 <= i <= |lines|
      invariant |ops| == i
      invariant forall j :: 0 <= j < i ==> ops[j] == LineOp(lines[j], pageWidth)
    {
      var op := EmitLine(lines[i], pageWidth);
      ops := ops + [op];
      i := i + 1;
    }
    var layout := Layout(lines, pageWidth);
    assert forall j :: 0 <= j < |ops| ==> ops[j] == layout[j];
  }

  /** One turn of the loop: `ln(8)` for a blank line, otherwise a `multi_cell` at the left margin. */
  method EmitLine(line: string, pageWidth: real) returns (op: Op)
    ensures op == LineOp(line, pageWidth)
    ensures op.Advance? <==> forall k :: 0 <= k < |line| ==> IsSpace(line[k])
  {
    StripEmptyIffAllSpace(line);
    if Strip(line) == "" {
      op := Advance(LineHeight);
    } else {
      op := Cell(LeftMargin, UsableWidth(pageWidth), LineHeight, line);
    }
  }

  /**
   * create_pdf: normalise the text, split it at `\n` and lay the lines out.
   * There is one operation per `splitlines` piece of the text after the
   * replacement chain (one advance when it has none), as `LayoutOfPieces`
   * details.
   */
  method CreatePdf(text: string, pageWidth: real) returns (ops: seq<Op>)
    ensures ops == Layout(Split(Normalise(text), '\n'), pageWidth)
    ensures Pieces(text) == [] ==> ops == [Advance(LineHeight)]
    ensures Pieces(text) != [] ==> |ops| == |Pieces(text)|
  {
    var safeText := Normalise(text);
    ops := LayoutLines(Split(safeText, '\n'), pageWidth);
    LayoutOfPieces(text, pageWidth);
  }

  // -------------------------------------------------------------------------
  // Worked examples
  // -------------------------------------------------------------------------

  /** Normalising twice can differ from normalising once: deleting `#` can join two stars into `**`. */
  lemma NormaliseNotIdempotentOnMarkers()
    ensures Normalise("*#*") == "**"
    ensures Normalise(Normalise("*#*")) == ""
  {
    NormaliseJoinsStars();
    NormaliseDeletesStars();
  }

  lemma NormaliseJoinsStars()
    ensures Normalise("*#*") == "**"
  {
    ChainJoinsStars();
    StarsAreOneLine();
    Latin1.DecodeEncode("**");
  }

  /** The replacement chain joins the two stars around a `#`. */
  lemma ChainJoinsStars()
    ensures ReplaceChain("*#*") == "**"
  {
    HashDeletionJoinsStars();
    PunctuationUnchanged("**");
  }

  lemma NormaliseDeletesStars()
    ensures Normalise("**") == ""
  {
    StarsAreDeleted();
  }

  /** Normalising twice can also differ because `splitlines` drops a final line end. */
  lemma NormaliseNotIdempotentOnBlankLines()
    ensures Normalise("a\n\n") == "a\n"
    ensures Normalise(Normalise("a\n\n")) == "a"
  {
    NormaliseTwoLineEnds();
    NormaliseOneLineEnd();
  }

  lemma NormaliseTwoLineEnds()
    ensures Normalise("a\n\n") == "a\n"
  {
    AbsentFirstChar("a\n\n", "**");
    CleanTextUnchanged("a\n\n");
    TwoLineEndsSplit();
    Latin1.DecodeEncode("a\n");
  }

  lemma TwoLineEndsSplit()
    ensures StripLines("a\n\n") == "a\n"
  {
    TwoLineEndsPieces();
    StripLinesOfLineAndBlank("a\n\n", "a");
  }

  lemma TwoLineEndsPieces()
    ensures SplitLines("a\n\n") == ["a", ""]
  {
    assert "a\n\n" == "a" + "\n\n";
    LineThenBlankPieces("a");
  }

  /** A line followed by two line feeds is that line and one empty line. */
  lemma LineThenBlankPieces(a: string)
    requires NoLineBoundary(a)
    ensures SplitLines(a + "\n\n") == [a, ""]
  {
    var t := "\n";
    assert a + "\n\n" == a + "\n" + t;
    SplitLinesAtNewlineOf(a, t);
    BlankLinePieces();
  }

  /** A lone line feed is one empty line. */
  lemma BlankLinePieces()
    ensures SplitLines("\n") == [""]
  {
    assert "\n" == "" + "\n" + "";
    SplitLinesAtNewlineOf("", "");
  }

  lemma NormaliseOneLineEnd()
    ensures Normalise("a\n") == "a"
  {
    AbsentFirstChar("a\n", "**");
    CleanTextUnchanged("a\n");
    OneLineEndSplit();
    Latin1.DecodeEncode("a");
  }

  lemma OneLineEndSplit()
    ensures StripLines("a\n") == "a"
  {
    OneLineEndPieces();
    StripLinesOfOneLine("a\n", "a");
  }

  lemma OneLineEndPieces()
    ensures SplitLines("a\n") == ["a"]
  {
    assert "a\n" == "a" + "\n" + "";
    SplitLinesAtNewlineOf("a", "");
  }

  lemma HashDeletionJoinsStars()
    ensures StripMarkdown("*#*") == "**"
  {
    assert ReplaceAll("*#*", "**", "") == "*#*";
  }

  lemma StarsAreOneLine()
    ensures StripLines("**") == "**"
  {
    SplitLinesSingle("**");
    StripLinesOfOneLine("**", "**");
  }

  /** A text that `splitlines` finds one trimmed line in strips to that line. */
  lemma StripLinesOfOneLine(t: string, a: string)
    requires SplitLines(t) == [a] && Trimmed(a)
    ensures StripLines(t) == a
  {
    StripEachOfOne(a);
  }

  lemma StripEachOfOne(a: string)
    requires Trimmed(a)
    ensures Join(StripEach([a]), '\n') == a
  {
    StripTrimmed(a);
    var e := StripEach([a]);
    assert |e| == 1 && e[0] == a;
    assert e == [a];
  }

  /** A text that `splitlines` finds a trimmed line and an empty line in strips to the line and `\n`. */
  lemma StripLinesOfLineAndBlank(t: string, a: string)
    requires SplitLines(t) == [a, ""] && Trimmed(a)
    ensures StripLines(t) == a + "\n"
  {
    StripEachOfLineAndBlank(a);
  }

  lemma StripEachOfLineAndBlank(a: string)
    requires Trimmed(a)
    ensures Join(StripEach([a, ""]), '\n') == a + "\n"
  {
    var e := StripEach([a, ""]);
    StripTrimmed(a);
    StripTrimmed("");
    assert e[0] == a && e[1] == "";
    assert e == [a, ""];
    JoinLineAndBlank(a);
  }

  /** A line and an empty line join to the line and its `\n`. */
  lemma JoinLineAndBlank(a: string)
    ensures Join([a, ""], '\n') == a + "\n"
  {
    assert [a, ""] == [a] + [""];
    JoinCons(a, [""], '\n');
  }

  lemma StarsAreDeleted()
    ensures StripMarkdown("**") == ""
  {
    assert "**"[..2] == "**";
  }

  /**
   * A worked example: a bold "Summary" heading, a blank line and a sentence
   * with an em dash and curly quotes give the lines "Summary", "" and the
   * sentence with ASCII punctuation.
   */
  lemma SummarySample()
    ensures Split(Normalise("**Summary**\n\nThis is a test \U{2014} with a \U{201C}quote\U{201D}."), '\n')
         == ["Summary", "", "This is a test - with a \"quote\"."]
  {
    var paragraph := "This is a test \U{2014} with a \U{201C}quote\U{201D}.";
    var line := "This is a test - with a \"quote\".";
    SampleText(paragraph);
    SampleParagraphClean(paragraph);
    BoldHeadingThenParagraph("Summary", paragraph);
    SampleHeadingLine();
    SampleParagraphLine(paragraph, line);
  }

  /** The sample cut into the bold heading and the paragraph. */
  lemma SampleText(paragraph: string)
    requires paragraph == "This is a test \U{2014} with a \U{201C}quote\U{201D}."
    ensures "**Summary**\n\nThis is a test \U{2014} with a \U{201C}quote\U{201D}."
         == "**" + "Summary" + "**\n\n" + paragraph
  {
    SampleTextSplit(paragraph);
    SampleHeadingText();
  }

  lemma SampleTextSplit(paragraph: string)
    requires paragraph == "This is a test \U{2014} with a \U{201C}quote\U{201D}."
    ensures "**Summary**\n\nThis is a test \U{2014} with a \U{201C}quote\U{201D}."
         == "**Summary**\n\n" + paragraph
  {
  }

  lemma SampleHeadingText()
    ensures "**Summary**\n\n" == "**" + "Summary" + "**\n\n"
  {
  }

  /** The sample paragraph holds no marker and no line boundary. */
  lemma SampleParagraphClean(paragraph: string)
    requires paragraph == "This is a test \U{2014} with a \U{201C}quote\U{201D}."
    ensures '*' !in paragraph && '#' !in paragraph && NoLineBoundary(paragraph) && paragraph != ""
  {
  }

  /** A trimmed Latin-1 line without markers passes the punctuation step and the round trip unchanged. */
  lemma PlainLineUnchanged(line: string)
    requires ChainInert(line) && Trimmed(line)
    requires forall k :: 0 <= k < |line| ==> Latin1.Encodable(line[k])
    ensures SafeLine(AsciiPunctuation(line)) == line
  {
    PunctuationUnchanged(line);
    PlainLineSafe(line);
  }

  /** The sentence with its dash and quotes made ASCII, once stripped and made safe, is that sentence. */
  lemma DashAndQuotesLine(p1: string, p2: string, p3: string, p4: string)
    requires ChainInert(p1) && ChainInert(p2) && ChainInert(p3) && ChainInert(p4)
    requires Trimmed(p1 + "-" + p2 + "\"" + p3 + "\"" + p4)
    requires forall k :: 0 <= k < |p1 + "-" + p2 + "\"" + p3 + "\"" + p4| ==>
      Latin1.Encodable((p1 + "-" + p2 + "\"" + p3 + "\"" + p4)[k])
    ensures SafeLine(AsciiPunctuation(p1 + [EmDash] + p2 + [LeftDoubleQuote] + p3 + [RightDoubleQuote] + p4))
         == p1 + "-" + p2 + "\"" + p3 + "\"" + p4
  {
    DashAndQuotes(p1, p2, p3, p4);
    PlainLineSafe(p1 + "-" + p2 + "\"" + p3 + "\"" + p4);
  }

  /** The sample heading comes out as it is. */
  lemma SampleHeadingLine()
    ensures SafeLine(AsciiPunctuation("Summary")) == "Summary"
  {
    PlainLineUnchanged("Summary");
  }

  /** The sample paragraph comes out with an ASCII dash and straight quotes. */
  lemma SampleParagraphLine(paragraph: string, line: string)
    requires paragraph == "This is a test \U{2014} with a \U{201C}quote\U{201D}."
    requires line == "This is a test - with a \"quote\"."
    ensures SafeLine(AsciiPunctuation(paragraph)) == line
  {
    var p1, p2, p3, p4 := "This is a test ", " with a ", "quote", ".";
    SamplePieces(paragraph, line, p1, p2, p3, p4);
    DashAndQuotesLine(p1, p2, p3, p4);
  }

  /** The sample paragraph around its three typographic characters. */
  lemma SamplePieces(paragraph: string, line: string, p1: string, p2: string, p3: string, p4: string)
    requires paragraph == "This is a test \U{2014} with a \U{201C}quote\U{201D}."
    requires line == "This is a test - with a \"quote\"."
    requires p1 == "This is a test " && p2 == " with a " && p3 == "quote" && p4 == "."
    ensures paragraph == p1 + [EmDash] + p2 + [LeftDoubleQuote] + p3 + [RightDoubleQuote] + p4
    ensures line == p1 + "-" + p2 + "\"" + p3 + "\"" + p4
    ensures ChainInert(p1) && ChainInert(p2) && ChainInert(p3) && ChainInert(p4)
    ensures Trimmed(line) && forall k :: 0 <= k < |line| ==> Latin1.Encodable(line[k])
  {
    SampleParagraphPieces(paragraph, p1, p2, p3, p4);
    SampleLinePieces(line, p1, p2, p3, p4);
  }

  lemma SampleParagraphPieces(paragraph: string, p1: string, p2: string, p3: string, p4: string)
    requires paragraph == "This is a test \U{2014} with a \U{201C}quote\U{201D}."
    requires p1 == "This is a test " && p2 == " with a " && p3 == "quote" && p4 == "."
    ensures paragraph == p1 + [EmDash] + p2 + [LeftDoubleQuote] + p3 + [RightDoubleQuote] + p4
    ensures ChainInert(p1) && ChainInert(p2) && ChainInert(p3) && ChainInert(p4)
  {
  }

  lemma SampleLinePieces(line: string, p1: string, p2: string, p3: string, p4: string)
    requires line == "This is a test - with a \"quote\"."
    requires p1 == "This is a test " && p2 == " with a " && p3 == "quote" && p4 == "."
    ensures line == p1 + "-" + p2 + "\"" + p3 + "\"" + p4
    ensures Trimmed(line) && forall k :: 0 <= k < |line| ==> Latin1.Encodable(line[k])
  {
  }

  /**
   * The layout counts the pieces of the chained text, not of the input: `"#"`
   * is one line that is not blank, but the chain empties it, so there is no
   * piece and the page gets a single advance.
   */
  lemma ChainEmptiesLine()
    ensures SplitLines("#") == ["#"] && Strip("#") == "#"
    ensures Pieces("#") == []
  {
    SplitLinesSingle("#");
    StripTrimmed("#");
    assert ReplaceAll("#", "**", "") == "#";
  }

  /**
   * Deleting `**` can merge two boundaries: `"\r**\n"` has two pieces, but
   * the chain leaves `"\r\n"`, one boundary and so one piece.
   */
  lemma ChainMergesBoundaries()
    ensures SplitLines("\r**\n") == ["", "**"]
    ensures Pieces("\r**\n") == [""]
  {
    CrStarsNewlineLines();
    CrStarsNewlineChained();
    CrLfLines();
  }

  lemma CrStarsNewlineLines()
    ensures SplitLines("\r**\n") == ["", "**"]
  {
    assert "\r**\n" == ['\r'] + "**" + "\n";
    BoundaryThenLine('\r', "**");
  }

  lemma CrStarsNewlineChained()
    ensures ReplaceChain("\r**\n") == "\r\n"
  {
    assert "\r**\n" == "\r" + "**" + "\n";
    ChainDeletesBold("\r", "\n");
  }

  lemma CrLfLines()
    ensures SplitLines("\r\n") == [""]
  {
    assert "\r\n" == "" + "\r\n" + "";
    SplitLinesAtCrLf("", "");
  }
}
