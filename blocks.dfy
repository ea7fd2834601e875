/**
 * The line scanner of `process_markdown_lines`: how one line is classified,
 * how the scanner state (open fence, buffered code lines, fence language,
 * list flag) moves from line to line, and which paragraphs each line
 * appends. `Scan` is the whole loop as a function of the lines seen so far.
 */
module Blocks {
  import opened Wrappers
  import opened Text
  import opened Sink
  import opened Render

  /** What one line is, in the order the scanner tests for it. */
  datatype LineKind =
    | FenceLine(info: string)             // stripped line starts with ```
    | RuleLine                            // `^[-*_]{3,}$` on the stripped line
    | HeadingLine(level: nat, text: string)
    | QuoteLine                           // stripped line starts with >
    | OrderedItem(level: nat, text: string)
    | BulletItem(level: nat, text: string)
    | BlankLine
    | TextLine

  /**
   * The regex tail `\s+(.+)$` applied from position k of a line without
   * newlines: the text group. The `\s+` takes all the whitespace unless
   * nothing would be left for `.+`, in which case it gives back one
   * character, so an all-blank tail of two or more characters yields its
   * last character.
   */
  function TailText(line: string, k: nat): (r: Option<string>)
    requires k <= |line|
    ensures r.Some? ==> r.value != [] && |r.value| < |line| - k + 1 && r.value == line[|line| - |r.value|..]
    ensures r.Some? ==> k < |line| && line[k] in Whitespace
  {
    var w := Span(line[k..], Whitespace);
    if w == 0 then None
    else if k + w < |line| then Some(line[k + w..])
    else if w >= 2 then Some([line[|line| - 1]])
    else None
  }

  /**
   * The tail matches exactly when whitespace stands at k and more than that
   * one character is left. The result follows a run of whitespace; it begins
   * with whitespace only when the whole tail is blank, and then it is the
   * last character alone.
   */
  lemma TailTextCases(line: string, k: nat)
    requires k <= |line|
    ensures TailText(line, k).None? <==> k == |line| || line[k] !in Whitespace || k + 1 == |line|
    ensures TailText(line, k).Some? ==>
      forall j :: k <= j < |line| - |TailText(line, k).value| ==> line[j] in Whitespace
    ensures TailText(line, k).Some? && TailText(line, k).value[0] in Whitespace ==>
      TailText(line, k).value == [line[|line| - 1]] && forall j :: k <= j < |line| ==> line[j] in Whitespace
  {
    var t := line[k..];
    SpanMaximal(t, Whitespace);
    var w := Span(t, Whitespace);
    assert forall j :: k <= j < |line| ==> line[j] == t[j - k];
    if w > 0 && k + w == |line| {
      assert forall j :: k <= j < |line| ==> line[j] in Whitespace;
    }
  }

  /** `re.match(r'^(#{1,6})\s+(.+)$', line)`: the level and the text. */
  function HeadingMatch(line: string): Option<(nat, string)>
  {
    var h := Span(line, {'#'});
    if 1 <= h <= 6 && TailText(line, h).Some? then Some((h, TailText(line, h).value)) else None
  }

  /** `re.match(r'^(\s*)\d+\.\s+(.+)$', line)`: the nesting level (indent // 2) and the text. */
  function OrderedMatch(line: string): Option<(nat, string)>
  {
    var w := Span(line, Whitespace);
    var d := Span(line[w..], Digits);
    if d >= 1 && w + d < |line| && line[w + d] == '.' && TailText(line, w + d + 1).Some? then
      Some((w / 2, TailText(line, w + d + 1).value))
    else None
  }

  /** `re.match(r'^(\s*)[-*+]\s+(.+)$', line)`: the nesting level (indent // 2) and the text. */
  function BulletMatch(line: string): Option<(nat, string)>
  {
    var w := Span(line, Whitespace);
    if w < |line| && line[w] in {'-', '*', '+'} && TailText(line, w + 1).Some? then
      Some((w / 2, TailText(line, w + 1).value))
    else None
  }

  /** `line.strip().startswith('```')` */
  predicate IsFence(line: string) {
    StartsWith(Strip(line), "```")
  }

  /** `re.match(r'^[-*_]{3,}$', line.strip())` */
  predicate IsRule(line: string) {
    var t := Strip(line);
    |t| >= 3 && forall k :: 0 <= k < |t| ==> t[k] in {'-', '*', '_'}
  }

  /** The classification of one line, tested in the source's order. */
  function ClassifyLine(line: string): LineKind
  {
    var stripped := Strip(line);
    var heading := HeadingMatch(line);
    var ordered := OrderedMatch(line);
    var bullet := BulletMatch(line);
    if StartsWith(stripped, "```") then FenceLine(Strip(stripped[3..]))
    else if IsRule(line) then RuleLine
    else if heading.Some? then HeadingLine(heading.value.0, heading.value.1)
    else if StartsWith(stripped, ">") then QuoteLine
    else if ordered.Some? then OrderedItem(ordered.value.0, ordered.value.1)
    else if bullet.Some? then BulletItem(bullet.value.0, bullet.value.1)
    else if stripped == [] then BlankLine
    else TextLine
  }

  /** The loop's local state: `in_code_block`, `code_buffer`, `code_language`, `in_list`. */
  datatype ScanState = ScanState(inCode: bool, buffer: seq<string>, language: string, inList: bool)

  const Start: ScanState := ScanState(false, [], [], false)

  /** The paragraph a line outside a fence appends, by its kind. */
  function Emit(styles: set<string>, kind: LineKind, line: string): Paragraph
    requires !kind.FenceLine?
  {
    match kind
    case RuleLine => RuleParagraph
    case HeadingLine(level, text) => HeadingParagraph(styles, text, level)
    case QuoteLine => QuoteParagraph(styles, line)
    case OrderedItem(level, text) => ListParagraph(styles, text, true, level)
    case BulletItem(level, text) => ListParagraph(styles, text, false, level)
    case BlankLine => BlankParagraph
    case TextLine => TextParagraph(styles, line, "Normal")
  }

  /** `in_list` after a line outside a fence: list items set it, rules keep it, everything else clears it. */
  function ListFlag(inList: bool, kind: LineKind): bool {
    if kind.OrderedItem? || kind.BulletItem? then true
    else if kind.RuleLine? then inList
    else false
  }

  /** One iteration of the loop: the new state and the paragraphs appended for this line. */
  function Step(styles: set<string>, st: ScanState, line: string): (ScanState, seq<Paragraph>)
  {
    var kind := ClassifyLine(line);
    if kind.FenceLine? then
      if !st.inCode then (ScanState(true, [], kind.info, st.inList), [])
      else (ScanState(false, [], [], st.inList), CodeParagraphs(styles, Join(st.buffer, '\n')))
    else if st.inCode then (st.(buffer := st.buffer + [line]), [])
    else (st.(inList := ListFlag(st.inList, kind)), [Emit(styles, kind, line)])
  }

  /** The loop body for a given style catalog, as a value. */
  function StepOf(styles: set<string>): (ScanState, string) -> (ScanState, seq<Paragraph>) {
    (st: ScanState, line: string) => Step(styles, st, line)
  }

  /** A loop with body `body` run over `lines` from state `st`: the final state and every paragraph appended, in order. */
  function Fold(body: (ScanState, string) -> (ScanState, seq<Paragraph>), st: ScanState, lines: seq<string>): (ScanState, seq<Paragraph>)
  {
    if lines == [] then (st, [])
    else
      var before := Fold(body, st, lines[..|lines| - 1]);
      var after := body(before.0, lines[|lines| - 1]);
      (after.0, before.1 + after.1)
  }

  /** The loop of `process_markdown_lines` run over `lines` from state `st`. */
  function Feed(styles: set<string>, st: ScanState, lines: seq<string>): (ScanState, seq<Paragraph>)
  {
    Fold(StepOf(styles), st, lines)
  }

  /** `process_markdown_lines` over lines already split. */
  function Scan(styles: set<string>, lines: seq<string>): (ScanState, seq<Paragraph>)
  {
    Feed(styles, Start, lines)
  }

  /** `process_markdown_lines(content)`: the final state and the paragraphs appended. */
  function Convert(styles: set<string>, content: string): (ScanState, seq<Paragraph>) {
    Scan(styles, Split(content, '\n'))
  }

  // ---------------------------------------------------------------------
  // Line classification

  /** The first test: a line is a fence line exactly when its stripped text starts with three backticks. */
  lemma ClassifyFence(line: string)
    ensures ClassifyLine(line).FenceLine? <==> IsFence(line)
    ensures IsFence(line) ==> ClassifyLine(line).info == Strip(Strip(line)[3..])
  {
  }

  lemma ClassifyRule(line: string)
    requires !IsFence(line) && IsRule(line)
    ensures ClassifyLine(line) == RuleLine
  {
  }

  lemma ClassifyHeading(line: string)
    requires !IsFence(line) && !IsRule(line) && HeadingMatch(line).Some?
    ensures ClassifyLine(line) == HeadingLine(HeadingMatch(line).value.0, HeadingMatch(line).value.1)
  {
  }

  lemma ClassifyBullet(line: string)
    requires !IsFence(line) && !IsRule(line) && HeadingMatch(line).None?
    requires !StartsWith(Strip(line), ">") && OrderedMatch(line).None? && BulletMatch(line).Some?
    ensures ClassifyLine(line) == BulletItem(BulletMatch(line).value.0, BulletMatch(line).value.1)
  {
  }

  /** What each later kind was matched by. */
  lemma ClassifyMatches(line: string)
    ensures ClassifyLine(line).HeadingLine? ==>
      HeadingMatch(line) == Some((ClassifyLine(line).level, ClassifyLine(line).text))
    ensures ClassifyLine(line).OrderedItem? ==>
      OrderedMatch(line) == Some((ClassifyLine(line).level, ClassifyLine(line).text))
    ensures ClassifyLine(line).BulletItem? ==>
      BulletMatch(line) == Some((ClassifyLine(line).level, ClassifyLine(line).text))
  {
  }

  /** A heading's level is its number of leading `#`, between 1 and 6, and its text is never empty. */
  lemma HeadingLevel(line: string)
    requires ClassifyLine(line).HeadingLine?
    ensures 1 <= ClassifyLine(line).level <= 6
    ensures ClassifyLine(line).level == Span(line, {'#'})
    ensures ClassifyLine(line).text != []
  {
    ClassifyMatches(line);
  }

  /** Seven or more leading `#` never make a heading. */
  lemma SevenHashesNoHeading(line: string)
    requires Span(line, {'#'}) >= 7
    ensures !ClassifyLine(line).HeadingLine?
  {
    ClassifyMatches(line);
  }

  /** A list item's level is the length of its leading whitespace, halved. */
  lemma ListLevel(line: string)
    ensures ClassifyLine(line).OrderedItem? ==> ClassifyLine(line).level == Span(line, Whitespace) / 2
    ensures ClassifyLine(line).BulletItem? ==> ClassifyLine(line).level == Span(line, Whitespace) / 2
  {
    ClassifyMatches(line);
  }

  /** No line is both a numbered and a bulleted item, so testing numbered items first decides nothing. */
  lemma ListTestsDisjoint(line: string)
    ensures OrderedMatch(line).Some? ==> BulletMatch(line).None?
  {
    var w := Span(line, Whitespace);
    if OrderedMatch(line).Some? {
      assert line[w..][0] in Digits;
    }
  }

  /**
   * A stripped line of three or more characters drawn from `-`, `*` and `_`
   * is a rule: the rule test comes before the heading and list tests, so
   * `---` and `***` never become list items.
   */
  lemma RuleBeforeLists(line: string)
    requires IsRule(line)
    ensures ClassifyLine(line) == RuleLine
  {
    assert Strip(line)[0] in {'-', '*', '_'};
    assert !IsFence(line);
    ClassifyRule(line);
  }

  lemma HeadingMatchShape(level: nat, gap: string, text: string)
    requires 1 <= level <= 6
    requires gap != [] && (forall k :: 0 <= k < |gap| ==> gap[k] in Whitespace)
    requires text != [] && text[0] !in Whitespace
    ensures HeadingMatch(Repeat('#', level) + gap + text) == Some((level, text))
  {
    var line := Repeat('#', level) + gap + text;
    assert line[level] == gap[0];
    SpanIs(line, {'#'}, level);
    assert line[level..] == gap + text;
    SpanIs(gap + text, Whitespace, |gap|);
    assert line[level + |gap|..] == text;
  }

  /** One to six `#`, whitespace and text form a heading of that level with that text. */
  lemma HeadingLineShape(level: nat, gap: string, text: string)
    requires 1 <= level <= 6
    requires gap != [] && (forall k :: 0 <= k < |gap| ==> gap[k] in Whitespace)
    requires text != [] && text[0] !in Whitespace
    ensures ClassifyLine(Repeat('#', level) + gap + text) == HeadingLine(level, text)
  {
    var line := Repeat('#', level) + gap + text;
    assert line[0] == '#';
    StripKeepsFirst(line);
    assert !IsFence(line) && !IsRule(line);
    HeadingMatchShape(level, gap, text);
    ClassifyHeading(line);
  }

  lemma BulletMatchShape(indent: string, bullet: char, gap: string, text: string)
    requires forall k :: 0 <= k < |indent| ==> indent[k] in Whitespace
    requires bullet in {'-', '*', '+'}
    requires gap != [] && (forall k :: 0 <= k < |gap| ==> gap[k] in Whitespace)
    requires text != [] && text[0] !in Whitespace
    ensures var line := indent + [bullet] + gap + text;
      && Span(line, Whitespace) == |indent|
      && BulletMatch(line) == Some((|indent| / 2, text))
  {
    var line := indent + [bullet] + gap + text;
    var w := |indent|;
    assert line[w] == bullet;
    SpanIs(line, Whitespace, w);
    assert line[w + 1..] == gap + text;
    SpanIs(gap + text, Whitespace, |gap|);
    assert line[w + 1 + |gap|..] == text;
  }

  /** A line that does not start with `#` is no heading. */
  lemma NoHashNoHeading(line: string)
    requires line == [] || line[0] != '#'
    ensures HeadingMatch(line).None?
  {
  }

  /** A line whose first non-blank character is no digit is no numbered item. */
  lemma NoDigitNoOrdered(line: string)
    requires Span(line, Whitespace) < |line| && line[Span(line, Whitespace)] !in Digits
    ensures OrderedMatch(line).None?
  {
    var w := Span(line, Whitespace);
    assert line[w..][0] == line[w];
  }

  /** The tests before the bullet test all fail on an indented bullet line. */
  lemma BulletNotEarlier(indent: string, bullet: char, gap: string, text: string)
    requires forall k :: 0 <= k < |indent| ==> indent[k] in Whitespace
    requires bullet in {'-', '*', '+'}
    requires gap != [] && (forall k :: 0 <= k < |gap| ==> gap[k] in Whitespace)
    requires text != [] && text[0] !in Whitespace
    ensures var line := indent + [bullet] + gap + text;
      && !IsFence(line) && !IsRule(line) && !StartsWith(Strip(line), ">")
  {
    var line := indent + [bullet] + gap + text;
    var w := |indent|;
    var m := w + 1 + |gap|;
    assert line[w] == bullet && line[w + 1] == gap[0] && line[m] == text[0];
    StripBetween(line, w, m);
    var t := Strip(line);
    assert t[0] == line[w] && t[1] == line[w + 1];
  }

  lemma BulletNotNumbered(indent: string, bullet: char, gap: string, text: string)
    requires forall k :: 0 <= k < |indent| ==> indent[k] in Whitespace
    requires bullet in {'-', '*', '+'}
    requires gap != [] && (forall k :: 0 <= k < |gap| ==> gap[k] in Whitespace)
    requires text != [] && text[0] !in Whitespace
    ensures OrderedMatch(indent + [bullet] + gap + text).None?
  {
    var line := indent + [bullet] + gap + text;
    assert line[|indent|] == bullet;
    SpanIs(line, Whitespace, |indent|);
    NoDigitNoOrdered(line);
  }

  /** Indented `-`, `*` or `+`, whitespace and text form a bullet item nested by half the indent. */
  lemma BulletLineShape(indent: string, bullet: char, gap: string, text: string)
    requires forall k :: 0 <= k < |indent| ==> indent[k] in Whitespace
    requires bullet in {'-', '*', '+'}
    requires gap != [] && (forall k :: 0 <= k < |gap| ==> gap[k] in Whitespace)
    requires text != [] && text[0] !in Whitespace
    ensures ClassifyLine(indent + [bullet] + gap + text) == BulletItem(|indent| / 2, text)
  {
    var line := indent + [bullet] + gap + text;
    BulletNotEarlier(indent, bullet, gap, text);
    BulletMatchShape(indent, bullet, gap, text);
    assert line[0] == (if indent == [] then bullet else indent[0]);
    NoHashNoHeading(line);
    BulletNotNumbered(indent, bullet, gap, text);
    ClassifyBullet(line);
  }

  // ---------------------------------------------------------------------
  // One step

  /** Outside a fence, every line that is not a fence line appends exactly one paragraph and keeps the fence closed. */
  lemma OneParagraphPerLine(styles: set<string>, st: ScanState, line: string)
    requires !st.inCode && !IsFence(line)
    ensures |Step(styles, st, line).1| == 1
    ensures !Step(styles, st, line).0.inCode && Step(styles, st, line).0.buffer == st.buffer
  {
    ClassifyFence(line);
  }

  /** Outside a fence, a line that is not a fence line appends the paragraph of its kind and updates the list flag. */
  lemma StepEmits(styles: set<string>, st: ScanState, line: string)
    requires !st.inCode && !IsFence(line)
    ensures Step(styles, st, line) ==
      (st.(inList := ListFlag(st.inList, ClassifyLine(line))), [Emit(styles, ClassifyLine(line), line)])
  {
    ClassifyFence(line);
  }

  /** Inside a fence, every line that is not a fence line is buffered verbatim and appends nothing. */
  lemma BufferedVerbatim(styles: set<string>, st: ScanState, line: string)
    requires st.inCode && !IsFence(line)
    ensures Step(styles, st, line) == (st.(buffer := st.buffer + [line]), [])
  {
    ClassifyFence(line);
  }

  /** A fence line opens a block with an empty buffer and the trimmed text after the backticks as its language. */
  lemma FenceOpens(styles: set<string>, st: ScanState, line: string)
    requires !st.inCode && IsFence(line)
    ensures Step(styles, st, line) == (ScanState(true, [], Strip(Strip(line)[3..]), st.inList), [])
  {
    ClassifyFence(line);
  }

  /** A fence line closes an open block and appends the code paragraphs of the buffer. */
  lemma FenceCloses(styles: set<string>, st: ScanState, line: string)
    requires st.inCode && IsFence(line)
    ensures Step(styles, st, line) == (ScanState(false, [], [], st.inList), CodeParagraphs(styles, Join(st.buffer, '\n')))
  {
    ClassifyFence(line);
  }

  /** The list flag is written but never read: what a step appends does not depend on it. */
  lemma StepIgnoresListFlag(styles: set<string>, st: ScanState, line: string, flag: bool)
    ensures Step(styles, st.(inList := flag), line).1 == Step(styles, st, line).1
    ensures Step(styles, st.(inList := flag), line).0.(inList := false) == Step(styles, st, line).0.(inList := false)
  {
  }

  // ---------------------------------------------------------------------
  // The whole loop

  /** The loop over a single line is one step. */
  lemma FeedOne(styles: set<string>, st: ScanState, line: string)
    ensures Feed(styles, st, [line]) == Step(styles, st, line)
  {
    assert [line][..0] == [];
    var before := Fold(StepOf(styles), st, []);
    assert before == (st, []);
    var step := StepOf(styles)(st, line);
    assert step == Step(styles, st, line);
    assert Fold(StepOf(styles), st, [line]) == (step.0, before.1 + step.1);
    assert [] + step.1 == step.1;
  }

  /** The loop over some lines and then one more line. */
  lemma FeedSnoc(styles: set<string>, st: ScanState, lines: seq<string>, line: string)
    ensures var before := Feed(styles, st, lines); var step := Step(styles, before.0, line);
      Feed(styles, st, lines + [line]) == (step.0, before.1 + step.1)
  {
    assert (lines + [line])[..|lines|] == lines;
  }

  /** The scan of the first i + 1 lines is one more step after the scan of the first i. */
  lemma ScanSnoc(styles: set<string>, lines: seq<string>, i: nat)
    requires i < |lines|
    ensures var prior := Scan(styles, lines[..i]); var next := Step(styles, prior.0, lines[i]);
      Scan(styles, lines[..i + 1]) == (next.0, prior.1 + next.1)
  {
    assert lines[..i + 1] == lines[..i] + [lines[i]];
    FeedSnoc(styles, Start, lines[..i], lines[i]);
  }

  /** A loop's state and output carried over one more line. */
  lemma FoldExtends(body: (ScanState, string) -> (ScanState, seq<Paragraph>), start: ScanState,
                    lines: seq<string>, i: nat, st: ScanState, next: ScanState,
                    base: seq<Paragraph>, ps: seq<Paragraph>, ps': seq<Paragraph>)
    requires i < |lines|
    requires Fold(body, start, lines[..i]).0 == st && ps == base + Fold(body, start, lines[..i]).1
    requires next == body(st, lines[i]).0 && ps' == ps + body(st, lines[i]).1
    ensures Fold(body, start, lines[..i + 1]).0 == next && ps' == base + Fold(body, start, lines[..i + 1]).1
  {
    var prior := Fold(body, start, lines[..i]);
    var step := body(st, lines[i]);
    assert lines[..i + 1][..i] == lines[..i];
    assert base + prior.1 + step.1 == base + (prior.1 + step.1);
  }

  /** The loop body as a value computes the step. */
  lemma StepOfIs(styles: set<string>, st: ScanState, line: string)
    ensures StepOf(styles)(st, line) == Step(styles, st, line)
  {
  }

  /**
   * The loop invariant of `process_markdown_lines` carried over one line:
   * when the state and the paragraphs written so far are those of the scan
   * of the first i lines, one more step gives those of the first i + 1.
   */
  lemma ScanExtends(styles: set<string>, lines: seq<string>, i: nat, st: ScanState, next: ScanState,
                    base: seq<Paragraph>, ps: seq<Paragraph>, ps': seq<Paragraph>)
    requires i < |lines|
    requires Scan(styles, lines[..i]).0 == st && ps == base + Scan(styles, lines[..i]).1
    requires next == Step(styles, st, lines[i]).0 && ps' == ps + Step(styles, st, lines[i]).1
    ensures Scan(styles, lines[..i + 1]).0 == next && ps' == base + Scan(styles, lines[..i + 1]).1
  {
    StepOfIs(styles, st, lines[i]);
    FoldExtends(StepOf(styles), Start, lines, i, st, next, base, ps, ps');
  }

  /** Running a loop over two stretches of lines is running it over the first, then over the second from where it stopped. */
  lemma {:induction false} FoldAppend(body: (ScanState, string) -> (ScanState, seq<Paragraph>), st: ScanState, a: seq<string>, b: seq<string>)
    ensures var first := Fold(body, st, a); var second := Fold(body, first.0, b);
      Fold(body, st, a + b) == (second.0, first.1 + second.1)
    decreases |b|
  {
    var first := Fold(body, st, a);
    if b == [] {
      assert a + b == a;
      assert first.1 + [] == first.1;
    } else {
      var init := b[..|b| - 1];
      var last := b[|b| - 1];
      assert (a + b)[..|a + b| - 1] == a + init;
      FoldAppend(body, st, a, init);
      var mid := Fold(body, first.0, init);
      var step := body(mid.0, last);
      assert first.1 + mid.1 + step.1 == first.1 + (mid.1 + step.1);
    }
  }

  /** The loop of the converter over two stretches of lines. */
  lemma FeedAppend(styles: set<string>, st: ScanState, a: seq<string>, b: seq<string>)
    ensures var first := Feed(styles, st, a); var second := Feed(styles, first.0, b);
      Feed(styles, st, a + b) == (second.0, first.1 + second.1)
  {
    FoldAppend(StepOf(styles), st, a, b);
  }

  /**
   * Lines with no fence among them append one paragraph each, in order, the
   * k-th being the paragraph of the k-th line's kind, and leave the fence closed.
   */
  lemma {:induction false} FeedWithoutFences(styles: set<string>, st: ScanState, lines: seq<string>)
    requires !st.inCode
    requires forall k :: 0 <= k < |lines| ==> !IsFence(lines[k])
    ensures |Feed(styles, st, lines).1| == |lines|
    ensures forall k :: 0 <= k < |lines| ==>
      !ClassifyLine(lines[k]).FenceLine? && Feed(styles, st, lines).1[k] == Emit(styles, ClassifyLine(lines[k]), lines[k])
    ensures !Feed(styles, st, lines).0.inCode
  {
    if lines != [] {
      var init := lines[..|lines| - 1];
      var last := lines[|lines| - 1];
      FeedWithoutFences(styles, st, init);
      var mid := Feed(styles, st, init);
      StepEmits(styles, mid.0, last);
      ClassifyFence(last);
      FeedSnoc(styles, st, init, last);
      assert init + [last] == lines;
      EmittedSnoc(styles, init, last, mid.1);
    }
  }

  /** One more emitted paragraph after the paragraphs of earlier lines, each the emission of its own line. */
  lemma EmittedSnoc(styles: set<string>, init: seq<string>, last: string, prev: seq<Paragraph>)
    requires |prev| == |init|
    requires forall k :: 0 <= k < |init| ==>
      !ClassifyLine(init[k]).FenceLine? && prev[k] == Emit(styles, ClassifyLine(init[k]), init[k])
    requires !ClassifyLine(last).FenceLine?
    ensures var lines, out := init + [last], prev + [Emit(styles, ClassifyLine(last), last)];
      forall k :: 0 <= k < |lines| ==>
        !ClassifyLine(lines[k]).FenceLine? && out[k] == Emit(styles, ClassifyLine(lines[k]), lines[k])
  {
  }

  /** Inside a fence, lines with no fence among them are buffered in order and append nothing. */
  lemma {:induction false} FeedInsideFence(styles: set<string>, st: ScanState, lines: seq<string>)
    requires st.inCode
    requires forall k :: 0 <= k < |lines| ==> !IsFence(lines[k])
    ensures Feed(styles, st, lines) == (st.(buffer := st.buffer + lines), [])
  {
    if lines == [] {
      assert st.buffer + lines == st.buffer;
    } else {
      var init := lines[..|lines| - 1];
      var last := lines[|lines| - 1];
      FeedInsideFence(styles, st, init);
      var mid := st.(buffer := st.buffer + init);
      BufferedVerbatim(styles, mid, last);
      assert st.buffer + init + [last] == st.buffer + lines;
      var out: seq<Paragraph> := [] + Step(styles, mid, last).1;
      assert out == [];
    }
  }

  /** A document of lines with no fence gives one paragraph per line, each the paragraph of that line's kind. */
  lemma ScanWithoutFences(styles: set<string>, lines: seq<string>)
    requires forall k :: 0 <= k < |lines| ==> !IsFence(lines[k])
    ensures |Scan(styles, lines).1| == |lines| && !Scan(styles, lines).0.inCode
    ensures forall k :: 0 <= k < |lines| ==>
      !ClassifyLine(lines[k]).FenceLine? && Scan(styles, lines).1[k] == Emit(styles, ClassifyLine(lines[k]), lines[k])
  {
    FeedWithoutFences(styles, Start, lines);
  }

  /** After an opening fence, lines with no fence among them are buffered and nothing is appended. */
  lemma FenceBody(styles: set<string>, before: seq<string>, open: string, body: seq<string>)
    requires !Scan(styles, before).0.inCode
    requires IsFence(open)
    requires forall k :: 0 <= k < |body| ==> !IsFence(body[k])
    ensures var prior := Scan(styles, before);
      Scan(styles, before + [open] + body) ==
        (ScanState(true, body, Strip(Strip(open)[3..]), prior.0.inList), prior.1)
  {
    var prior := Scan(styles, before);
    var begun := ScanState(true, [], Strip(Strip(open)[3..]), prior.0.inList);
    FenceOpens(styles, prior.0, open);
    FeedSnoc(styles, Start, before, open);
    assert prior.1 + [] == prior.1;
    FeedInsideFence(styles, begun, body);
    assert [] + body == body;
    FeedAppend(styles, Start, before + [open], body);
  }

  /**
   * A fenced block after some text: the fence lines append nothing, the
   * lines between them are never classified, and the closing fence appends
   * one code paragraph per buffered line, with the buffered line as its text
   * (one empty paragraph for an empty block).
   */
  lemma FencedBlock(styles: set<string>, before: seq<string>, open: string, body: seq<string>, close: string)
    requires !Scan(styles, before).0.inCode
    requires IsFence(open) && IsFence(close)
    requires forall k :: 0 <= k < |body| ==> !IsFence(body[k])
    ensures var prior := Scan(styles, before);
      Scan(styles, before + [open] + body + [close]) ==
        (ScanState(false, [], [], prior.0.inList), prior.1 + CodeParagraphs(styles, Join(body, '\n')))
  {
    var prior := Scan(styles, before);
    FenceBody(styles, before, open, body);
    FenceCloses(styles, ScanState(true, body, Strip(Strip(open)[3..]), prior.0.inList), close);
    FeedSnoc(styles, Start, before + [open] + body, close);
  }

  /** A fence line after lines that left a fence open closes it and appends the code paragraphs of the buffered lines. */
  lemma ScanCloses(styles: set<string>, lines: seq<string>, close: string)
    requires Scan(styles, lines).0.inCode && IsFence(close)
    ensures var prior := Scan(styles, lines);
      Scan(styles, lines + [close]) ==
        (ScanState(false, [], [], prior.0.inList), prior.1 + CodeParagraphs(styles, Join(prior.0.buffer, '\n')))
  {
    var prior := Scan(styles, lines);
    FenceCloses(styles, prior.0, close);
    FeedSnoc(styles, Start, lines, close);
  }

  /**
   * A fence left open at the end of the input: its lines are buffered but
   * nothing is appended for them, and the scan ends inside the fence.
   */
  lemma UnterminatedFence(styles: set<string>, before: seq<string>, open: string, body: seq<string>)
    requires !Scan(styles, before).0.inCode
    requires IsFence(open)
    requires forall k :: 0 <= k < |body| ==> !IsFence(body[k])
    ensures var after := Scan(styles, before + [open] + body);
      && after.1 == Scan(styles, before).1
      && after.0.inCode && after.0.buffer == body
  {
    FenceBody(styles, before, open, body);
  }
}
