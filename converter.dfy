/**
 * `MarkdownToWordConverter` as a class over the document it fills. Each
 * method performs the appends and formatting calls of its source
 * counterpart on `doc` one by one, and is proved to leave `doc` exactly as
 * the corresponding function of modules Render and Blocks says.
 */
module Converter {
  import opened Wrappers
  import opened Text
  import opened Styles
  import opened Sink
  import opened Inline
  import opened Render
  import opened Blocks

  class MarkdownToWordConverter {
    /** The document being written; its style catalog is the template's. */
    const doc: Document

    /** A converter writing into an empty document whose template defines `styles`. */
    constructor (styles: set<string>)
      ensures fresh(doc) && doc.styles == styles && doc.paragraphs == []
    {
      doc := new Document(styles);
    }

    /** `get_style_or_fallback(preferred, fallback)` */
    method GetStyleOrFallback(preferred: string, fallback: string) returns (name: string)
      ensures name == ResolveStyle(doc.styles, preferred, fallback)
    {
      var available := doc.styles;
      if preferred in available {
        return preferred;
      }
      var variations := Variations(preferred);
      var i := 0;
      while i < |variations|
        invariant i <= |variations|
        invariant forall j :: 0 <= j < i ==> variations[j] !in available
      {
        if variations[i] in available {
          return variations[i];
        }
        i := i + 1;
      }
      if fallback in available {
        return fallback;
      }
      return "Normal";
    }

    /** `parse_inline_formatting(text, paragraph)` on the paragraph added last: one run per non-empty part. */
    method ParseInlineFormatting(text: string)
      requires doc.paragraphs != []
      modifies doc
      ensures doc.paragraphs == AppendRuns(old(doc.paragraphs), Runs(text))
    {
      var parts := Parts(text);
      var k := 0;
      assert parts[..0] == [];
      AppendNoRuns(doc.paragraphs);
      while k < |parts|
        invariant k <= |parts|
        invariant doc.paragraphs == AppendRuns(old(doc.paragraphs), RunsOf(parts[..k]))
      {
        var part := parts[k];
        assert parts[..k + 1][..k] == parts[..k];
        assert parts[..k + 1][k] == part;
        if part != [] {
          doc.AddRun(Classify(part));
          AppendRunsTwice(old(doc.paragraphs), RunsOf(parts[..k]), [Classify(part)]);
        } else {
          assert RunsOf(parts[..k]) + [] == RunsOf(parts[..k]);
        }
        k := k + 1;
      }
      assert parts[..k] == parts;
    }

    /** `doc.add_paragraph(style=name)` followed by `parse_inline_formatting(text, paragraph)`. */
    method AddStyled(name: string, text: string)
      modifies doc
      ensures doc.paragraphs == old(doc.paragraphs) + [Styled(name, Runs(text))]
    {
      doc.AddParagraph(Some(name), []);
      ParseInlineFormatting(text);
      var runs := Runs(text);
      AppendRunsToNew(old(doc.paragraphs), NewParagraph(Some(name), []), runs);
      assert [] + runs == runs;
    }

    /** `add_heading(text, level)` */
    method AddHeading(text: string, level: nat)
      modifies doc
      ensures doc.paragraphs == old(doc.paragraphs) + [HeadingParagraph(doc.styles, text, level)]
    {
      var name := GetStyleOrFallback(PreferredStyle(HeadingKey(level)), "Normal");
      var stripped := Strip(StripHeadingMarker(text));
      AddStyled(name, stripped);
    }

    /** `add_paragraph(text, style)`; the scanner passes the default style `Normal`. */
    method AddParagraph(text: string, style: string)
      modifies doc
      ensures doc.paragraphs == old(doc.paragraphs) + [TextParagraph(doc.styles, text, style)]
    {
      if Strip(text) == [] {
        doc.AddParagraph(None, []);
        return;
      }
      var name := GetStyleOrFallback(style, "Normal");
      AddStyled(name, text);
    }

    /** `add_list_item(text, ordered, level)` */
    method AddListItem(text: string, ordered: bool, level: nat)
      modifies doc
      ensures doc.paragraphs == old(doc.paragraphs) + [ListParagraph(doc.styles, text, ordered, level)]
    {
      var name := GetStyleOrFallback(PreferredStyle(if ordered then "numbered" else "bullet"), "Normal");
      var item := StripBulletMarker(text);
      item := StripNumberMarker(item);
      doc.AddParagraph(Some(name), []);
      var p := NewParagraph(Some(name), []);
      if level > 0 {
        doc.SetListIndent(level);
        p := p.(leftIndent := Some(level));
      }
      assert doc.paragraphs == old(doc.paragraphs) + [p];
      ParseInlineFormatting(item);
      var runs := Runs(item);
      AppendRunsToNew(old(doc.paragraphs), p, runs);
      assert p.runs + runs == runs;
      assert p.(runs := runs) == ListParagraph(doc.styles, text, ordered, level);
    }

    /**
     * One pass of the loop in `add_code_block`: `doc.add_paragraph(line, style)`
     * and, when the catalog has no code style, Courier New 9pt on each run
     * and grey shading.
     */
    method AddCodeLine(name: string, line: string)
      modifies doc
      ensures doc.paragraphs == old(doc.paragraphs) + [CodeLine(name, line)]
    {
      doc.AddParagraph(Some(name), line);
      var added := NewParagraph(Some(name), line);
      if name == "Normal" {
        var j := 0;
        assert Reformatted(added.runs, 0, Mono(9)) == added.runs;
        while j < |doc.Last().runs|
          invariant j <= |added.runs|
          invariant doc.paragraphs == old(doc.paragraphs) + [added.(runs := Reformatted(added.runs, j, Mono(9)))]
        {
          var current := old(doc.paragraphs) + [added.(runs := Reformatted(added.runs, j, Mono(9)))];
          doc.SetRunFormat(j, Mono(9));
          assert Reformatted(added.runs, j, Mono(9))[j := Run(added.runs[j].text, Mono(9))] == Reformatted(added.runs, j + 1, Mono(9));
          assert current[..|current| - 1] == old(doc.paragraphs);
          j := j + 1;
        }
        var current := old(doc.paragraphs) + [added.(runs := Reformatted(added.runs, j, Mono(9)))];
        assert current[..|current| - 1] == old(doc.paragraphs);
        assert Reformatted(added.runs, j, Mono(9)) == CodeLine(name, line).runs;
        doc.SetShading();
      }
    }

    /** `add_code_block(code, language)`: the language is accepted and not used. */
    method AddCodeBlock(code: string, language: string)
      modifies doc
      ensures doc.paragraphs == old(doc.paragraphs) + CodeParagraphs(doc.styles, code)
    {
      var name := GetStyleOrFallback(PreferredStyle("code_block"), "Normal");
      var lines := Split(code, '\n');
      var i := 0;
      while i < |lines|
        invariant i <= |lines|
        invariant doc.paragraphs == old(doc.paragraphs) + CodeLines(name, lines[..i])
      {
        AddCodeLine(name, lines[i]);
        CodeLinesSnoc(name, lines, i);
        i := i + 1;
      }
      assert lines[..i] == lines;
    }

    /** `add_blockquote(line)`: the marker is removed only at the start of the raw line. */
    method AddBlockquote(line: string)
      modifies doc
      ensures doc.paragraphs == old(doc.paragraphs) + [QuoteParagraph(doc.styles, line)]
    {
      var name := GetStyleOrFallback(PreferredStyle("quote"), "Normal");
      var text := StripQuoteMarker(line);
      doc.AddParagraph(Some(name), []);
      var p := NewParagraph(Some(name), []);
      if name == "Normal" {
        doc.SetQuoteIndent();
        p := p.(quoteIndent := true);
      }
      assert doc.paragraphs == old(doc.paragraphs) + [p];
      ParseInlineFormatting(text);
      var runs := Runs(text);
      AppendRunsToNew(old(doc.paragraphs), p, runs);
      assert p.runs + runs == runs;
      assert p.(runs := runs) == QuoteParagraph(doc.styles, line);
    }

    /** `add_horizontal_rule()` */
    method AddHorizontalRule()
      modifies doc
      ensures doc.paragraphs == old(doc.paragraphs) + [RuleParagraph]
    {
      doc.AddParagraph(None, []);
      doc.SetRule();
    }

    /** The renderer call for one line outside a fence. */
    method EmitLine(kind: LineKind, line: string)
      requires !kind.FenceLine?
      modifies doc
      ensures doc.paragraphs == old(doc.paragraphs) + [Emit(doc.styles, kind, line)]
    {
      match kind
      case RuleLine => AddHorizontalRule();
      case HeadingLine(level, text) => AddHeading(text, level);
      case QuoteLine => AddBlockquote(line);
      case OrderedItem(level, text) => AddListItem(text, true, level);
      case BulletItem(level, text) => AddListItem(text, false, level);
      case BlankLine => doc.AddParagraph(None, []);
      case TextLine => AddParagraph(line, "Normal");
    }

    /**
     * One pass of the `while` loop of `process_markdown_lines`: the line is
     * tested in the source's order (fence, inside a fence, then the kinds
     * `ClassifyLine` orders), the matching renderer is called, and the new
     * loop state is returned.
     */
    method ProcessLine(st: ScanState, line: string) returns (next: ScanState)
      modifies doc
      ensures next == Step(doc.styles, st, line).0
      ensures doc.paragraphs == old(doc.paragraphs) + Step(doc.styles, st, line).1
    {
      var kind := ClassifyLine(line);
      ClassifyFence(line);
      if kind.FenceLine? {
        if !st.inCode {
          FenceOpens(doc.styles, st, line);
          next := ScanState(true, [], Strip(Strip(line)[3..]), st.inList);
          assert old(doc.paragraphs) + [] == old(doc.paragraphs);
        } else {
          FenceCloses(doc.styles, st, line);
          AddCodeBlock(Join(st.buffer, '\n'), st.language);
          next := ScanState(false, [], [], st.inList);
        }
      } else if st.inCode {
        BufferedVerbatim(doc.styles, st, line);
        next := st.(buffer := st.buffer + [line]);
        assert old(doc.paragraphs) + [] == old(doc.paragraphs);
      } else {
        StepEmits(doc.styles, st, line);
        EmitLine(kind, line);
        next := st.(inList := ListFlag(st.inList, kind));
      }
    }

    /**
     * `process_markdown_lines(content)`: the paragraphs appended are those
     * of `Convert`, and the result says whether a fence was left open (its
     * buffered lines are then dropped).
     */
    method ProcessMarkdownLines(content: string) returns (inCodeBlock: bool)
      modifies doc
      ensures doc.paragraphs == old(doc.paragraphs) + Convert(doc.styles, content).1
      ensures inCodeBlock == Convert(doc.styles, content).0.inCode
    {
      var lines := Split(content, '\n');
      var i := 0;
      var st := Start;   // in_code_block, code_buffer, code_language, in_list
      assert lines[..0] == [];
      assert old(doc.paragraphs) + [] == old(doc.paragraphs);
      while i < |lines|
        invariant i <= |lines|
        invariant Scan(doc.styles, lines[..i]).0 == st
        invariant doc.paragraphs == old(doc.paragraphs) + Scan(doc.styles, lines[..i]).1
      {
        ghost var before := doc.paragraphs;
        ghost var current := st;
        st := ProcessLine(st, lines[i]);
        ScanExtends(doc.styles, lines, i, current, st, old(doc.paragraphs), before, doc.paragraphs);
        i := i + 1;
      }
      assert lines[..i] == lines;
      return st.inCode;
    }
  }
}
