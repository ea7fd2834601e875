/**
 * The Word document the converter writes to, reduced to what the converter
 * records in it: paragraphs in order, each with a style, its runs of text
 * and the few direct formatting flags the renderers set.
 */
module Sink {
  import opened Wrappers

  /** Character formatting of a run. */
  datatype Format =
    | Plain
    | Bold
    | Italic
    | Mono(points: nat)   // Courier New at the given point size
    | Link                // blue and underlined; the link target is not kept

  datatype Run = Run(text: string, format: Format)

  datatype Paragraph = Paragraph(
    style: Option<string>,     // None: the document's default paragraph style
    runs: seq<Run>,
    leftIndent: Option<nat>,   // list nesting level, when a list indent was set
    quoteIndent: bool,         // half-inch left and right indent of an unstyled quote
    shaded: bool,              // light grey background of an unstyled code line
    rule: bool)                // bottom border and 12pt spacing of a horizontal rule

  /** What `doc.add_paragraph(text, style)` appends: one plain run unless the text is empty. */
  function NewParagraph(style: Option<string>, text: string): Paragraph {
    Paragraph(style, if text == [] then [] else [Run(text, Plain)], None, false, false, false)
  }

  /** The paragraphs with the last one replaced. */
  function WithLast(ps: seq<Paragraph>, p: Paragraph): (r: seq<Paragraph>)
    requires ps != []
    ensures |r| == |ps| && r[..|r| - 1] == ps[..|ps| - 1] && r[|r| - 1] == p
  {
    ps[..|ps| - 1] + [p]
  }

  /** The paragraphs with `rs` appended to the runs of the last one. */
  function AppendRuns(ps: seq<Paragraph>, rs: seq<Run>): seq<Paragraph>
    requires ps != []
  {
    var last := ps[|ps| - 1];
    WithLast(ps, last.(runs := last.runs + rs))
  }

  /** Runs `runs` with those before position `j` given `format`, their text kept. */
  function Reformatted(runs: seq<Run>, j: nat, format: Format): (r: seq<Run>)
    requires j <= |runs|
    ensures |r| == |runs|
    ensures forall k :: 0 <= k < |r| ==> r[k].text == runs[k].text
    ensures forall k :: 0 <= k < |r| ==> r[k].format == (if k < j then format else runs[k].format)
  {
    seq(|runs|, k requires 0 <= k < |runs| => if k < j then Run(runs[k].text, format) else runs[k])
  }

  /** Appending runs to a paragraph just added is adding the paragraph with those runs. */
  lemma AppendRunsToNew(ps: seq<Paragraph>, p: Paragraph, rs: seq<Run>)
    ensures AppendRuns(ps + [p], rs) == ps + [p.(runs := p.runs + rs)]
  {
    assert (ps + [p])[..|ps|] == ps;
  }

  /** Appending no runs changes nothing. */
  lemma AppendNoRuns(ps: seq<Paragraph>)
    requires ps != []
    ensures AppendRuns(ps, []) == ps
  {
    var last := ps[|ps| - 1];
    assert last.runs + [] == last.runs;
  }

  /** Appending runs twice to the last paragraph is appending them all at once. */
  lemma AppendRunsTwice(ps: seq<Paragraph>, a: seq<Run>, b: seq<Run>)
    requires ps != []
    ensures AppendRuns(AppendRuns(ps, a), b) == AppendRuns(ps, a + b)
  {
    var last := ps[|ps| - 1];
    assert last.runs + a + b == last.runs + (a + b);
    assert AppendRuns(ps, a)[..|ps| - 1] == ps[..|ps| - 1];
  }

  class Document {
    /** Names of the styles the template defines. */
    const styles: set<string>
    var paragraphs: seq<Paragraph>

    constructor (styles: set<string>)
      ensures this.styles == styles && paragraphs == []
    {
      this.styles := styles;
      paragraphs := [];
    }

    function Last(): Paragraph
      reads this
      requires paragraphs != []
    {
      paragraphs[|paragraphs| - 1]
    }

    /** `doc.add_paragraph(text, style)` */
    method AddParagraph(style: Option<string>, text: string)
      modifies this
      ensures paragraphs == old(paragraphs) + [NewParagraph(style, text)]
    {
      paragraphs := paragraphs + [NewParagraph(style, text)];
    }

    /** `paragraph.add_run()` on the last paragraph, with its text and formatting set. */
    method AddRun(run: Run)
      requires paragraphs != []
      modifies this
      ensures paragraphs == AppendRuns(old(paragraphs), [run])
    {
      paragraphs := AppendRuns(paragraphs, [run]);
    }

    /** `run.font.name`/`run.font.size` on run `k` of the last paragraph. */
    method SetRunFormat(k: nat, format: Format)
      requires paragraphs != [] && k < |Last().runs|
      modifies this
      ensures paragraphs == WithLast(old(paragraphs), old(Last()).(runs := old(Last()).runs[k := Run(old(Last()).runs[k].text, format)]))
    {
      var last := Last();
      paragraphs := WithLast(paragraphs, last.(runs := last.runs[k := Run(last.runs[k].text, format)]));
    }

    /** `paragraph_format.left_indent = Inches(0.5 * level)` on the last paragraph. */
    method SetListIndent(level: nat)
      requires paragraphs != []
      modifies this
      ensures paragraphs == WithLast(old(paragraphs), old(Last()).(leftIndent := Some(level)))
    {
      paragraphs := WithLast(paragraphs, Last().(leftIndent := Some(level)));
    }

    /** Half-inch left and right indents on the last paragraph. */
    method SetQuoteIndent()
      requires paragraphs != []
      modifies this
      ensures paragraphs == WithLast(old(paragraphs), old(Last()).(quoteIndent := true))
    {
      paragraphs := WithLast(paragraphs, Last().(quoteIndent := true));
    }

    /** Light grey `w:shd` background on the last paragraph. */
    method SetShading()
      requires paragraphs != []
      modifies this
      ensures paragraphs == WithLast(old(paragraphs), old(Last()).(shaded := true))
    {
      paragraphs := WithLast(paragraphs, Last().(shaded := true));
    }

    /** 12pt spacing before and after and a single bottom border on the last paragraph. */
    method SetRule()
      requires paragraphs != []
      modifies this
      ensures paragraphs == WithLast(old(paragraphs), old(Last()).(rule := true))
    {
      paragraphs := WithLast(paragraphs, Last().(rule := true));
    }
  }
}
