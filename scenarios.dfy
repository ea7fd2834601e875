/**
 * Concrete inputs worked through the model: lines of text through the
 * inline split (including the quirks where characters are lost), and whole
 * documents through the line scanner.
 */
module Scenarios {
  import opened Wrappers
  import opened Text
  import opened Styles
  import opened Sink
  import opened Inline
  import opened Render
  import opened Blocks

  /**
   * `a **b** c *d* e`, with plain stretches a, c and e: five runs in order,
   * plain, bold, plain, italic, plain, the empty plain stretches giving none.
   */
  lemma BoldThenItalic(a: string, b: string, c: string, d: string, e: string)
    requires Inert(a) && Inert(c) && Inert(e)
    requires '*' !in b && '\n' !in b && d != [] && '*' !in d && '\n' !in d
    ensures Runs(a + ("**" + b + "**") + (c + ("*" + d + "*") + e)) ==
      PlainRuns(a) + [Run(b, Bold)] + PlainRuns(c) + [Run(d, Italic)] + PlainRuns(e)
  {
    var rest := c + ("*" + d + "*") + e;
    BoldAfterText(a, b, rest);
    ItalicAfterText(c, d, e);
    InertRuns(e);
  }

  /**
   * A lone `**` after plain text: the bold alternative finds no closing
   * pair, the italic one matches the two stars with nothing between them,
   * and the part, which starts and ends with `**`, becomes an empty bold run.
   */
  lemma LoneDoubleStar(a: string)
    requires Inert(a)
    ensures Runs(a + "**") == PlainRuns(a) + [Run([], Bold)]
  {
    var s := a + "**" + [];
    var p := |a|;
    assert s == a + "**";
    assert s[p] == '*' && s[p + 1] == '*';
    assert FindPair(s, p + 2) == None;
    assert FindChar(s, p + 1, '*') == Some(p + 1);
    assert MatchAt(s, p) == Some(Match(ItalicSpan, p + 2, 0));
    ItalicPartRun(s, p, p + 2);
    assert s[p..p + 2] == "**";
    RunsAfterMatch(a, "**", []);
    assert Runs([]) == [];
  }

  /**
   * A part that is a lone `*` or a lone backtick matches nothing, yet it
   * starts and ends with its marker: it becomes an empty italic or code run,
   * and the character is lost.
   */
  lemma LoneMarkers()
    ensures Runs("*") == [Run([], Italic)]
    ensures Runs("`") == [Run([], Mono(10))]
  {
    assert MatchAt("*", 0) == None;
    assert Parts("*") == ["*"];
    assert ["*"][..0] == [];
    assert Classify("*") == Run([], Italic);
    assert MatchAt("`", 0) == None;
    assert Parts("`") == ["`"];
    assert ["`"][..0] == [];
    assert Classify("`") == Run([], Mono(10));
  }

  /**
   * `[l](u` with no `)` anywhere: no link can match, so the text is one
   * plain part; that part starts with `[` and holds `](`, so it is taken for
   * a link, fails the link match and becomes a run with no text: every
   * character of it is dropped.
   */
  lemma BrokenLinkDropped(l: string, u: string)
    requires Inert(l) && Inert(u) && ')' !in l && ')' !in u
    ensures Runs("[" + l + "](" + u) == [Run([], Plain)]
  {
    var s := "[" + l + "](" + u;
    var x := 1 + |l|;
    assert s[0] == '[' && s[x] == ']' && s[x + 1] == '(';
    forall k | 0 <= k < |s| ensures s[k] != ')' {
      if 1 <= k < x {
        assert s[k] == l[k - 1];
      } else if x + 2 <= k {
        assert s[k] == u[k - x - 2];
      }
    }
    assert LinkFrom(s, 1) == None;
    assert MatchAt(s, 0) == None;
    forall k | 1 <= k < |s| ensures s[k] !in {'*', '`', '['} {
      if 1 <= k < x {
        assert s[k] == l[k - 1];
      } else if x + 2 <= k {
        assert s[k] == u[k - x - 2];
      }
    }
    SplitSkips(s, 0, 1, |s|);
    assert s[0..] == s;
    assert Parts(s) == [s];
    assert [s][..0] == [];
    assert HasLinkMiddle(s);
    assert LinkLabel(s) == None;
    assert Classify(s) == Run([], Plain);
    assert RunsOf([s]) == RunsOf([]) + [Classify(s)];
  }

  /**
   * An opening bracket that is never closed, before text with no marker of
   * its own: plain text, kept whole in one run.
   */
  lemma BracketNeverClosed(t: string)
    requires Inert(t) && ']' !in t
    ensures Runs("[" + t) == [Run("[" + t, Plain)]
  {
    var s := "[" + t;
    forall k | 1 <= k < |s| ensures s[k] == t[k - 1] && s[k] != ']' {
    }
    assert s[0] == '[';
    assert Unmarked(s);
    PlainTextOneRun(s);
  }

  // ---------------------------------------------------------------------
  // Whole documents

  lemma TitleLine()
    ensures ClassifyLine("# Title") == HeadingLine(1, "Title")
  {
    assert Repeat('#', 1) + " " + "Title" == "# Title";
    HeadingLineShape(1, " ", "Title");
  }

  lemma BlankLineKind()
    ensures ClassifyLine("") == BlankLine
  {
    assert Strip("") == [];
  }

  /** A line whose first character opens none of the block forms is a paragraph line. */
  lemma ProseLine(line: string)
    requires line != [] && line[0] !in Whitespace + Digits + {'#', '>', '`', '-', '*', '_', '+'}
    ensures ClassifyLine(line) == TextLine
  {
    var t := Strip(line);
    StripKeepsFirst(line);
    assert t[0] == line[0];
    assert !StartsWith(t, "```") && !StartsWith(t, ">");
    assert !IsRule(line) by {
      assert t[0] !in {'-', '*', '_'};
    }
    assert Span(line, Whitespace) == 0;
    NoHashNoHeading(line);
    NoDigitNoOrdered(line);
    assert BulletMatch(line).None?;
    ClassifyProse(line);
  }

  /** A line that none of the block tests accepts and that is not blank is a paragraph line. */
  lemma ClassifyProse(line: string)
    requires !StartsWith(Strip(line), "```") && !IsRule(line) && HeadingMatch(line).None?
    requires !StartsWith(Strip(line), ">") && OrderedMatch(line).None? && BulletMatch(line).None?
    requires Strip(line) != []
    ensures ClassifyLine(line) == TextLine
  {
  }

  lemma ProseRuns(a: string, b: string, c: string, d: string, e: string)
    requires a == "Some " && b == "bold" && c == " and " && d == "italic" && e == " text."
    ensures Runs(a + ("**" + b + "**") + (c + ("*" + d + "*") + e)) ==
      [Run(a, Plain), Run(b, Bold), Run(c, Plain), Run(d, Italic), Run(e, Plain)]
  {
    BoldThenItalic(a, b, c, d, e);
    assert PlainRuns(a) == [Run(a, Plain)];
    assert PlainRuns(c) == [Run(c, Plain)];
    assert PlainRuns(e) == [Run(e, Plain)];
  }

  lemma TitleParagraph(t: string)
    requires t == "Title"
    ensures HeadingParagraph({}, t, 1) == Styled("Normal", [Run(t, Plain)])
  {
    assert HeadingKey(1) == "h1";
    assert StripHeadingMarker(t) == t;
    assert Strip(t) == t;
    PlainTextOneRun(t);
  }

  /** Joining four pieces puts the separator between each two of them. */
  lemma JoinFour(w: string, x: string, y: string, z: string, c: char)
    ensures Join([w, x, y, z], c) == w + [c] + x + [c] + y + [c] + z
  {
    var ps := [w, x, y, z];
    assert ps[1..] == [x, y, z] && ps[1..][1..] == [y, z] && ps[1..][1..][1..] == [z];
    assert Join([y, z], c) == y + [c] + z;
    assert Join([x, y, z], c) == x + [c] + (y + [c] + z);
  }

  lemma ProseHasNoNewline(prose: string)
    requires prose == "Some **bold** and *italic* text."
    ensures '\n' !in prose
  {
    assert forall j :: 0 <= j < |prose| ==> prose[j] != '\n';
  }

  /** A text made of four newline-free lines joined by newlines splits back into them. */
  lemma SplitFour(content: string, w: string, x: string, y: string, z: string)
    requires w + "\n" + x + "\n" + y + "\n" + z == content
    requires '\n' !in w && '\n' !in x && '\n' !in y && '\n' !in z
    ensures Split(content, '\n') == [w, x, y, z]
  {
    JoinFour(w, x, y, z, '\n');
    SplitJoin([w, x, y, z], '\n');
  }

  lemma TitleText(content: string, h: string, z: string, prose: string)
    requires content == "# Title\n\nSome **bold** and *italic* text.\n"
    requires h == "# Title" && z == "" && prose == "Some **bold** and *italic* text."
    ensures h + "\n" + z + "\n" + prose + "\n" + z == content
    ensures '\n' !in h && '\n' !in z
  {
    TitleHalves(content, prose);
  }

  lemma TitleHalves(content: string, prose: string)
    requires content == "# Title\n\nSome **bold** and *italic* text.\n"
    requires prose == "Some **bold** and *italic* text."
    ensures content == "# Title\n\n" + prose + "\n"
  {
  }

  lemma HeadEmit(h: string)
    requires h == "# Title"
    ensures !ClassifyLine(h).FenceLine? && Emit({}, ClassifyLine(h), h) == Styled("Normal", [Run("Title", Plain)])
  {
    TitleLine();
    TitleParagraph("Title");
  }

  lemma BlankEmit(z: string)
    requires z == ""
    ensures !ClassifyLine(z).FenceLine? && Emit({}, ClassifyLine(z), z) == BlankParagraph
  {
    BlankLineKind();
  }

  lemma ProseEmit(a: string, b: string, c: string, d: string, e: string)
    requires a == "Some " && b == "bold" && c == " and " && d == "italic" && e == " text."
    ensures var prose := a + ("**" + b + "**") + (c + ("*" + d + "*") + e);
      && !ClassifyLine(prose).FenceLine?
      && Emit({}, ClassifyLine(prose), prose) ==
           Styled("Normal", [Run(a, Plain), Run(b, Bold), Run(c, Plain), Run(d, Italic), Run(e, Plain)])
  {
    var prose := a + ("**" + b + "**") + (c + ("*" + d + "*") + e);
    assert prose[0] == 'S';
    ProseLine(prose);
    StripKeepsFirst(prose);
    ProseRuns(a, b, c, d, e);
    assert ResolveStyle({}, "Normal", "Normal") == "Normal";
  }

  lemma TitleScan(h: string, z: string, a: string, b: string, c: string, d: string, e: string)
    requires h == "# Title" && z == ""
    requires a == "Some " && b == "bold" && c == " and " && d == "italic" && e == " text."
    ensures var out := Scan({}, [h, z, a + ("**" + b + "**") + (c + ("*" + d + "*") + e), z]);
      && !out.0.inCode
      && out.1 == [
        Styled("Normal", [Run("Title", Plain)]),
        BlankParagraph,
        Styled("Normal", [Run(a, Plain), Run(b, Bold), Run(c, Plain), Run(d, Italic), Run(e, Plain)]),
        BlankParagraph]
  {
    HeadEmit(h);
    BlankEmit(z);
    ProseEmit(a, b, c, d, e);
    ScanFour({}, h, z, a + ("**" + b + "**") + (c + ("*" + d + "*") + e), z);
  }

  /** Four lines with no fence among them give one paragraph each, and no fence is left open. */
  lemma ScanFour(styles: set<string>, l0: string, l1: string, l2: string, l3: string)
    requires !ClassifyLine(l0).FenceLine? && !ClassifyLine(l1).FenceLine?
    requires !ClassifyLine(l2).FenceLine? && !ClassifyLine(l3).FenceLine?
    ensures var out := Scan(styles, [l0, l1, l2, l3]);
      && !out.0.inCode
      && out.1 == [Emit(styles, ClassifyLine(l0), l0), Emit(styles, ClassifyLine(l1), l1),
                   Emit(styles, ClassifyLine(l2), l2), Emit(styles, ClassifyLine(l3), l3)]
  {
    var lines := [l0, l1, l2, l3];
    ClassifyFence(l0);
    ClassifyFence(l1);
    ClassifyFence(l2);
    ClassifyFence(l3);
    assert forall k :: 0 <= k < |lines| ==> !IsFence(lines[k]);
    ScanWithoutFences(styles, lines);
    FourParagraphs(Scan(styles, lines).1, Emit(styles, ClassifyLine(l0), l0), Emit(styles, ClassifyLine(l1), l1),
      Emit(styles, ClassifyLine(l2), l2), Emit(styles, ClassifyLine(l3), l3));
  }

  lemma FourParagraphs(out: seq<Paragraph>, p0: Paragraph, p1: Paragraph, p2: Paragraph, p3: Paragraph)
    requires |out| == 4 && out[0] == p0 && out[1] == p1 && out[2] == p2 && out[3] == p3
    ensures out == [p0, p1, p2, p3]
  {
  }

  /**
   * `# Title`, a blank line, a line with a bold and an italic span, and the
   * empty line after the final newline, with no template styles: a heading
   * paragraph in Normal holding "Title", an empty paragraph, a Normal
   * paragraph of five runs, and a last empty paragraph.
   */
  lemma TitleDocument(content: string)
    requires content == "# Title\n\nSome **bold** and *italic* text.\n"
    ensures var out := Convert({}, content);
      && !out.0.inCode
      && out.1 == [
        Styled("Normal", [Run("Title", Plain)]),
        BlankParagraph,
        Styled("Normal", [Run("Some ", Plain), Run("bold", Bold), Run(" and ", Plain),
                          Run("italic", Italic), Run(" text.", Plain)]),
        BlankParagraph]
  {
    var h, z := "# Title", "";
    var a, b, c, d, e := "Some ", "bold", " and ", "italic", " text.";
    var prose := "Some **bold** and *italic* text.";
    ProseParts(prose, a, b, c, d, e);
    TitleText(content, h, z, prose);
    ProseHasNoNewline(prose);
    SplitFour(content, h, z, prose, z);
    TitleConvert(content, h, z, prose, a, b, c, d, e);
  }

  /** The prose line is its five runs with their markers. */
  lemma ProseParts(prose: string, a: string, b: string, c: string, d: string, e: string)
    requires prose == "Some **bold** and *italic* text."
    requires a == "Some " && b == "bold" && c == " and " && d == "italic" && e == " text."
    ensures prose == a + ("**" + b + "**") + (c + ("*" + d + "*") + e)
  {
  }

  /** The conversion of a text whose lines are the title, a blank, the prose and a blank. */
  lemma TitleConvert(content: string, h: string, z: string, prose: string, a: string, b: string, c: string, d: string, e: string)
    requires h == "# Title" && z == ""
    requires a == "Some " && b == "bold" && c == " and " && d == "italic" && e == " text."
    requires prose == a + ("**" + b + "**") + (c + ("*" + d + "*") + e)
    requires Split(content, '\n') == [h, z, prose, z]
    ensures var out := Convert({}, content);
      && !out.0.inCode
      && out.1 == [
        Styled("Normal", [Run("Title", Plain)]),
        BlankParagraph,
        Styled("Normal", [Run(a, Plain), Run(b, Bold), Run(c, Plain), Run(d, Italic), Run(e, Plain)]),
        BlankParagraph]
  {
    TitleScan(h, z, a, b, c, d, e);
  }

  /** The scan of no lines is the start state with nothing appended. */
  lemma ScanNothing(styles: set<string>)
    ensures Scan(styles, []) == (Start, [])
  {
  }

  /** Two code lines after an opening fence are buffered, and the fence stays open with the opening line's language. */
  lemma FenceOpenTwo(styles: set<string>, open: string, l1: string, l2: string)
    requires IsFence(open) && !IsFence(l1) && !IsFence(l2)
    ensures Scan(styles, [open, l1, l2]) == (ScanState(true, [l1, l2], Strip(Strip(open)[3..]), false), [])
  {
    ScanNothing(styles);
    FenceBody(styles, [], open, [l1, l2]);
    assert [] + [open] + [l1, l2] == [open, l1, l2];
  }

  /** The code paragraphs of two newline-free lines joined by a newline: one per line. */
  lemma TwoCodeLines(styles: set<string>, l1: string, l2: string)
    requires '\n' !in l1 && '\n' !in l2
    ensures CodeParagraphs(styles, Join([l1, l2], '\n')) ==
      [CodeLine(RoleStyle(styles, "code_block"), l1), CodeLine(RoleStyle(styles, "code_block"), l2)]
  {
    SplitJoin([l1, l2], '\n');
    var style := RoleStyle(styles, "code_block");
    assert CodeLines(style, [l1, l2]) == [CodeLine(style, l1), CodeLine(style, l2)];
  }

  /**
   * Two code lines between an opening and a closing fence: the scan is back
   * at its start state, having appended one code paragraph per line, each
   * line verbatim.
   */
  lemma FenceAroundTwo(styles: set<string>, open: string, l1: string, l2: string, close: string)
    requires IsFence(open) && IsFence(close) && !IsFence(l1) && !IsFence(l2)
    requires '\n' !in l1 && '\n' !in l2
    ensures Scan(styles, [open, l1, l2] + [close]) ==
      (Start, [CodeLine(RoleStyle(styles, "code_block"), l1), CodeLine(RoleStyle(styles, "code_block"), l2)])
  {
    FenceOpenTwo(styles, open, l1, l2);
    ScanCloses(styles, [open, l1, l2], close);
    var ps := CodeParagraphs(styles, Join([l1, l2], '\n'));
    assert [] + ps == ps;
    TwoCodeLines(styles, l1, l2);
  }

  lemma PythonFenceLines(open: string, l1: string, l2: string, close: string)
    requires open == "```python" && l1 == "x = 1" && l2 == "print(x)" && close == "```"
    ensures IsFence(open) && IsFence(close) && !IsFence(l1) && !IsFence(l2)
    ensures Strip(Strip(open)[3..]) == "python"
    ensures '\n' !in open && '\n' !in l1 && '\n' !in l2 && '\n' !in close
  {
    StripUnpadded(open);
    StripUnpadded(close);
    assert open[3..] == "python";
    StripUnpadded("python");
    StripKeepsFirst(l1);
    StripKeepsFirst(l2);
  }

  /** After "```python" and two lines of code the fence is open with language "python" and both lines buffered. */
  lemma PythonFenceOpen(styles: set<string>, open: string, l1: string, l2: string)
    requires open == "```python" && l1 == "x = 1" && l2 == "print(x)"
    ensures Scan(styles, [open, l1, l2]) == (ScanState(true, [l1, l2], "python", false), [])
  {
    PythonFenceLines(open, l1, l2, "```");
    FenceOpenTwo(styles, open, l1, l2);
  }

  /** A document of an opening fence, two code lines and a closing fence: one code paragraph per code line. */
  lemma FencedDocument(styles: set<string>, content: string, open: string, l1: string, l2: string, close: string)
    requires open + "\n" + l1 + "\n" + l2 + "\n" + close == content
    requires IsFence(open) && IsFence(close) && !IsFence(l1) && !IsFence(l2)
    requires '\n' !in open && '\n' !in l1 && '\n' !in l2 && '\n' !in close
    ensures Convert(styles, content) ==
      (Start, [CodeLine(RoleStyle(styles, "code_block"), l1), CodeLine(RoleStyle(styles, "code_block"), l2)])
  {
    SplitFour(content, open, l1, l2, close);
    FenceAroundTwo(styles, open, l1, l2, close);
    assert [open, l1, l2] + [close] == [open, l1, l2, close];
  }

  /**
   * "```python", "x = 1", "print(x)", "```" joined by newlines as one
   * document: one code paragraph per code line, each line verbatim, and the
   * scan back at its start state.
   */
  lemma FencedPython(styles: set<string>, open: string, l1: string, l2: string, close: string)
    requires open == "```python" && l1 == "x = 1" && l2 == "print(x)" && close == "```"
    ensures Convert(styles, open + "\n" + l1 + "\n" + l2 + "\n" + close) ==
      (Start, [CodeLine(RoleStyle(styles, "code_block"), l1), CodeLine(RoleStyle(styles, "code_block"), l2)])
  {
    PythonFenceLines(open, l1, l2, close);
    FencedDocument(styles, open + "\n" + l1 + "\n" + l2 + "\n" + close, open, l1, l2, close);
  }

  /** An opening fence never closed: its line is buffered, nothing is appended, and the scan ends inside the fence. */
  lemma UnclosedFence(styles: set<string>, content: string)
    requires content == "```\ncode"
    ensures Convert(styles, content) == (ScanState(true, ["code"], [], false), [])
  {
    var lines := ["```", "code"];
    assert lines[1..] == ["code"];
    assert Join(lines, '\n') == content;
    forall k | 0 <= k < |lines| ensures '\n' !in lines[k] {
    }
    SplitJoin(lines, '\n');
    UnclosedFenceLines(styles, "```", "code");
  }

  lemma UnclosedFenceLines(styles: set<string>, open: string, line: string)
    requires open == "```" && line == "code"
    ensures Scan(styles, [open, line]) == (ScanState(true, [line], [], false), [])
  {
    StripUnpadded(open);
    assert open[3..] == [];
    StripKeepsFirst(line);
    assert Scan(styles, []) == (Start, []);
    FenceBody(styles, [], open, [line]);
    assert [] + [open] + [line] == [open, line];
  }
}
