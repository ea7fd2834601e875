/**
 * The paragraph each renderer of the converter appends (`add_heading`,
 * `add_paragraph`, `add_list_item`, `add_code_block`, `add_blockquote`,
 * `add_horizontal_rule`), as functions of the style catalog and the text.
 * The class in module Converter performs the same appends step by step and
 * is proved to append exactly these paragraphs.
 */
module Render {
  import opened Wrappers
  import opened Text
  import opened Styles
  import opened Sink
  import opened Inline

  /** `get_style_or_fallback(style_map.get(key, 'Normal'), 'Normal')` */
  function RoleStyle(styles: set<string>, key: string): string {
    ResolveStyle(styles, PreferredStyle(key), "Normal")
  }

  /** A paragraph in the given style holding the given runs and no direct formatting. */
  function Styled(style: string, runs: seq<Run>): Paragraph {
    Paragraph(Some(style), runs, None, false, false, false)
  }

  /**
   * `re.sub(marker + r'\s+', '', text)` once the marker is known to occupy
   * text[..k]: the marker and the whitespace after it go, provided there is
   * at least one whitespace character; otherwise the text is left as it is.
   */
  function DropMarker(text: string, k: nat): string
    requires k <= |text|
  {
    var w := Span(text[k..], Whitespace);
    if w == 0 then text else text[k + w..]
  }

  /** `re.sub(r'^#{1,6}\s+', '', text)` */
  function StripHeadingMarker(text: string): string {
    var h := Span(text, {'#'});
    if 1 <= h <= 6 then DropMarker(text, h) else text
  }

  /** `re.sub(r'^[\*\-\+]\s+', '', text)` */
  function StripBulletMarker(text: string): string {
    if text != [] && text[0] in {'*', '-', '+'} then DropMarker(text, 1) else text
  }

  /** `re.sub(r'^\d+\.\s+', '', text)` */
  function StripNumberMarker(text: string): string {
    var d := Span(text, Digits);
    if d >= 1 && d < |text| && text[d] == '.' then DropMarker(text, d + 1) else text
  }

  /** `re.sub(r'^>\s+', '', text)` */
  function StripQuoteMarker(text: string): string {
    if text != [] && text[0] == '>' then DropMarker(text, 1) else text
  }

  /** `add_heading(text, level)` */
  function HeadingParagraph(styles: set<string>, text: string, level: nat): Paragraph {
    Styled(RoleStyle(styles, HeadingKey(level)), Runs(Strip(StripHeadingMarker(text))))
  }

  /**
   * `add_paragraph(text, style)`: blank text gives an empty paragraph in the
   * default style, whatever style was asked for; otherwise the style is
   * resolved with `Normal` as the fallback.
   */
  function TextParagraph(styles: set<string>, text: string, style: string): Paragraph {
    if Strip(text) == [] then NewParagraph(None, [])
    else Styled(ResolveStyle(styles, style, "Normal"), Runs(text))
  }

  /** `add_list_item(text, ordered, level)` */
  function ListParagraph(styles: set<string>, text: string, ordered: bool, level: nat): (p: Paragraph)
    ensures p.leftIndent.Some? <==> level > 0
    ensures p.leftIndent.Some? ==> p.leftIndent.value == level
  {
    var style := RoleStyle(styles, if ordered then "numbered" else "bullet");
    var p := Styled(style, Runs(StripNumberMarker(StripBulletMarker(text))));
    if level > 0 then p.(leftIndent := Some(level)) else p
  }

  /** `add_blockquote(line)`: the half-inch indents stand in for a missing quote style. */
  function QuoteParagraph(styles: set<string>, line: string): (p: Paragraph)
    ensures p.quoteIndent <==> p.style == Some("Normal")
  {
    var style := RoleStyle(styles, "quote");
    Styled(style, Runs(StripQuoteMarker(line))).(quoteIndent := style == "Normal")
  }

  /** One line of a code block: `doc.add_paragraph(line, style)`, in 9pt Courier New on grey when unstyled. */
  function CodeLine(style: string, line: string): Paragraph {
    var unstyled := style == "Normal";
    var format := if unstyled then Mono(9) else Plain;
    Paragraph(Some(style), if line == [] then [] else [Run(line, format)], None, false, unstyled, false)
  }

  function CodeLines(style: string, lines: seq<string>): seq<Paragraph> {
    seq(|lines|, k requires 0 <= k < |lines| => CodeLine(style, lines[k]))
  }

  /** The code paragraphs of one more line are those of the lines before it, then its own. */
  lemma CodeLinesSnoc(style: string, lines: seq<string>, i: nat)
    requires i < |lines|
    ensures CodeLines(style, lines[..i + 1]) == CodeLines(style, lines[..i]) + [CodeLine(style, lines[i])]
  {
  }

  /** `add_code_block(code, language)`: one paragraph per line of the code. */
  function CodeParagraphs(styles: set<string>, code: string): seq<Paragraph> {
    CodeLines(RoleStyle(styles, "code_block"), Split(code, '\n'))
  }

  /** `add_horizontal_rule()` */
  const RuleParagraph: Paragraph := Paragraph(None, [], None, false, false, true)

  /** `doc.add_paragraph()` for a blank line. */
  const BlankParagraph: Paragraph := NewParagraph(None, [])

  /** The text of a paragraph: its run texts laid end to end. */
  function ParagraphText(p: Paragraph): string {
    TextOf(p.runs)
  }

  /** `n` copies of `c`. */
  function Repeat(c: char, n: nat): (r: string)
    ensures |r| == n && forall k :: 0 <= k < n ==> r[k] == c
  {
    seq(n, _ => c)
  }

  /** A marker followed by non-empty whitespace loses both, and the text after them is kept whole. */
  lemma DropMarkerExact(marker: string, gap: string, rest: string)
    requires gap != [] && (forall k :: 0 <= k < |gap| ==> gap[k] in Whitespace)
    requires rest == [] || rest[0] !in Whitespace
    ensures DropMarker(marker + gap + rest, |marker|) == rest
  {
    var text := marker + gap + rest;
    assert text[|marker|..] == gap + rest;
    SpanIs(gap + rest, Whitespace, |gap|);
    assert text[|marker| + |gap|..] == rest;
  }

  /** The marker of a heading of level 1 to 6 and the whitespace after it are removed, and nothing more. */
  lemma {:induction false} HeadingMarkerRemoved(level: nat, gap: string, rest: string)
    requires 1 <= level <= 6
    requires gap != [] && (forall k :: 0 <= k < |gap| ==> gap[k] in Whitespace)
    requires rest == [] || rest[0] !in Whitespace
    ensures StripHeadingMarker(Repeat('#', level) + gap + rest) == rest
  {
    var text := Repeat('#', level) + gap + rest;
    assert text[level] == gap[0];
    SpanIs(text, {'#'}, level);
    DropMarkerExact(Repeat('#', level), gap, rest);
  }

  /**
   * Heading text is changed exactly when it starts with one to six `#`
   * followed by whitespace.
   */
  lemma HeadingMarkerChanges(text: string)
    ensures StripHeadingMarker(text) != text <==>
      var h := Span(text, {'#'}); 1 <= h <= 6 && h < |text| && text[h] in Whitespace
  {
    var h := Span(text, {'#'});
    if 1 <= h <= 6 && h < |text| && text[h] in Whitespace {
      assert |StripHeadingMarker(text)| < |text|;
    }
  }

  /** A bullet marker and the whitespace after it are removed from a list item's text. */
  lemma BulletMarkerRemoved(bullet: char, gap: string, rest: string)
    requires bullet in {'*', '-', '+'}
    requires gap != [] && (forall k :: 0 <= k < |gap| ==> gap[k] in Whitespace)
    requires rest == [] || rest[0] !in Whitespace
    ensures StripBulletMarker([bullet] + gap + rest) == rest
  {
    DropMarkerExact([bullet], gap, rest);
  }

  /** A number, a dot and the whitespace after them are removed from a list item's text. */
  lemma NumberMarkerRemoved(digits: string, gap: string, rest: string)
    requires digits != [] && (forall k :: 0 <= k < |digits| ==> digits[k] in Digits)
    requires gap != [] && (forall k :: 0 <= k < |gap| ==> gap[k] in Whitespace)
    requires rest == [] || rest[0] !in Whitespace
    ensures StripNumberMarker(digits + "." + gap + rest) == rest
  {
    var text := digits + "." + gap + rest;
    assert text[|digits|] == '.';
    SpanIs(text, Digits, |digits|);
    assert digits + "." + gap + rest == (digits + ".") + gap + rest;
    DropMarkerExact(digits + ".", gap, rest);
  }

  /** The quote marker is removed only from the very first column: an indented quote keeps its `>`. */
  lemma QuoteMarkerOnlyAtStart(gap: string, rest: string, indent: string)
    requires gap != [] && (forall k :: 0 <= k < |gap| ==> gap[k] in Whitespace)
    requires rest == [] || rest[0] !in Whitespace
    requires indent != [] && indent[0] != '>'
    ensures StripQuoteMarker(">" + gap + rest) == rest
    ensures StripQuoteMarker(indent + ">" + gap + rest) == indent + ">" + gap + rest
  {
    DropMarkerExact(">", gap, rest);
    assert (indent + ">" + gap + rest)[0] == indent[0];
  }

  /** A heading of level 1 to 6 gets its own heading style when the catalog has it; any other level is body text. */
  lemma HeadingStyle(styles: set<string>, text: string, level: nat)
    ensures 1 <= level <= 6 && "Heading " + [DigitChar(level)] in styles ==>
      HeadingParagraph(styles, text, level).style == Some("Heading " + [DigitChar(level)])
    ensures (level == 0 || level > 6) ==>
      HeadingParagraph(styles, text, level).style == Some(ResolveStyle(styles, "Normal", "Normal"))
  {
    HeadingStyleNames(level);
  }

  /**
   * Joining buffered lines with newlines and splitting them again gives one
   * code paragraph per line, each holding that line as its text; an empty
   * buffer still gives one (empty) paragraph.
   */
  lemma CodeParagraphsOfLines(styles: set<string>, lines: seq<string>)
    requires forall k :: 0 <= k < |lines| ==> '\n' !in lines[k]
    ensures var ps := CodeParagraphs(styles, Join(lines, '\n'));
      && |ps| == (if lines == [] then 1 else |lines|)
      && (lines != [] ==> forall k :: 0 <= k < |lines| ==> ParagraphText(ps[k]) == lines[k])
      && (lines == [] ==> ps[0].runs == [])
  {
    if lines != [] {
      SplitJoin(lines, '\n');
      var ps := CodeParagraphs(styles, Join(lines, '\n'));
      forall k | 0 <= k < |lines| ensures ParagraphText(ps[k]) == lines[k] {
        var runs := ps[k].runs;
        if lines[k] != [] {
          assert runs[..0] == [];
          assert TextOf(runs) == TextOf([]) + lines[k];
        }
      }
    } else {
      assert Split([], '\n') == [[]];
    }
  }

  /** Each code paragraph is shaded and set in 9pt Courier New exactly when the catalog has no code style. */
  lemma CodeFormatting(styles: set<string>, code: string, k: nat)
    requires k < |Split(code, '\n')|
    ensures var p := CodeParagraphs(styles, code)[k];
      && (p.shaded <==> p.style == Some("Normal"))
      && (forall r :: r in p.runs ==> r.format == (if p.shaded then Mono(9) else Plain))
  {
  }
}
