# Markdown to Word converter — a Dafny model of its core

`md_to_word.py` converts a Markdown file into a Word document. It styles the
document from an optional template. This project models its core, the class
`MarkdownToWordConverter`:

- **Style resolution.** The table `style_map` maps a markdown role to a Word
  style name. `get_style_or_fallback` then finds the name in the template's
  style catalog: first the preferred name, then four spellings of it, then
  the fallback, and finally `Normal`.
- **Inline formatting.** `parse_inline_formatting` splits a line with
  `re.split` on the pattern `(\*\*.*?\*\*|\*.*?\*|`.*?`|\[.*?\]\(.*?\))`.
  It turns each non-empty part into one run: bold, italic, 10pt Courier New,
  a blue underlined link label, or plain text. The model reproduces the
  regex with a hand scanner (module `Inline`). At each position the scanner
  tries the four alternatives in order, each with its lazy `.*?`, which
  never crosses a newline. Scanning resumes after each match.
- **Renderers.** `add_heading`, `add_paragraph`, `add_list_item`,
  `add_code_block`, `add_blockquote` and `add_horizontal_rule` each append
  paragraphs to the document. The document is a `Document` class holding a
  `seq<Paragraph>` (module `Sink`). Each paragraph records its style, its
  runs and the direct formatting the converter sets:
  - a list indent level;
  - the half-inch indents of an unstyled quote;
  - the grey shading of an unstyled code line;
  - the bottom border of a rule.
- **The line scanner.** `process_markdown_lines` splits the content on
  newlines and classifies each line in the source's order: fence, inside a
  fence, rule, heading, quote, numbered item, bullet item, blank, text. It
  carries `in_code_block`, `code_buffer`, `code_language` and `in_list` from
  line to line.

The model has two layers. Modules `Render` and `Blocks` state every renderer
and the scanner as functions: `Step` is one pass of the loop, and `Scan` and
`Convert` run the whole loop. Module `Converter` holds the class
`MarkdownToWordConverter`. Its methods make the same calls on the document
step by step, with the source's loops. Each method is proved to leave the
document exactly as the matching function says. The properties are then
proved about those functions. Module `Scenarios` works concrete lines and
documents through the model.

The model follows the code in these cases, which a reader may not expect:

- **Unterminated fence.** A fence left open at the end of the input
  silently drops its buffered lines. `ProcessMarkdownLines` returns the
  final `in_code_block`, so a caller can see that this happened.
- **Fence closing.** Any line whose stripped text starts with three
  backticks closes an open fence, even one with text after the backticks.
- **Rule characters.** A horizontal rule may mix `-`, `*` and `_`; it need
  not repeat one character.
- **Lost characters.** Inline parsing can lose characters:
  - a part that is a lone `*` or a lone backtick becomes an empty italic or
    code run;
  - a lone `**` becomes an empty bold run;
  - a part that starts with `[` and holds `](` but is not a complete link
    becomes a run with no text, so its characters are dropped rather than
    kept as plain text.

## Model

| member | source | states |
|---|---|---|
| Styles.HeadingStyleNames | md_to_word.py:43-57 | the role key of heading levels 1 to 6 maps to "Heading n"; any other level gets `Normal` from `style_map.get` |
| Styles.FirstPresent | md_to_word.py:104-106 | the first variation the catalog holds is chosen, and none when it holds none |
| Styles.ResolveStyle | md_to_word.py:80-112 | the resolved name is in the catalog or is `Normal`; a preferred name the catalog holds is returned unchanged |
| Styles.ResolveCascade | md_to_word.py:93-112 | the whole fallback chain in order: preferred, spaces removed, spaces to underscores, lower case, upper case, fallback, `Normal` |
| Styles.ResolveFromCandidates | md_to_word.py:80-112 | the result is always one of the names tried or `Normal` |
| Styles.ResolveWithoutCandidates | md_to_word.py:108-112 | a catalog holding none of the names tried resolves to `Normal` |
| Styles.ResolveIdempotent | md_to_word.py:93-94 | resolving a resolved name that the catalog holds gives the same name |
| Text.StripFacts | md_to_word.py:232 | `text.strip()` is empty exactly when every character is blank; otherwise it starts and ends with non-blank characters of the text |
| Text.Split | md_to_word.py:346-347 | `split('\n')` gives at least one piece and no piece holds a newline |
| Text.JoinSplit | md_to_word.py:346-347 | joining the pieces of a split gives back the text |
| Text.SplitJoin | md_to_word.py:367-368 | splitting newline-free lines joined by newlines gives back the lines |
| Sink.Reformatted | md_to_word.py:289-291 | re-fonting the first j runs keeps every run's text and changes only their format |
| Sink.AppendRunsToNew | md_to_word.py:221-222 | runs added to the paragraph just appended end up in that paragraph |
| Sink.AppendNoRuns | md_to_word.py:168-170 | adding no run leaves the document as it is |
| Sink.AppendRunsTwice | md_to_word.py:168-172 | adding runs one part at a time is adding them all at once, in order |
| Sink.Document.AddParagraph | md_to_word.py:285 | `doc.add_paragraph(text, style)` appends one paragraph, with one plain run unless the text is empty |
| Sink.Document.AddRun | md_to_word.py:172 | `paragraph.add_run()` appends a run to the last paragraph only |
| Sink.Document.SetRunFormat | md_to_word.py:290-291 | one run of the last paragraph changes font, its text kept |
| Sink.Document.SetListIndent | md_to_word.py:262-263 | the last paragraph gets the list indent of its level |
| Sink.Document.SetQuoteIndent | md_to_word.py:316-318 | the last paragraph gets the quote indents |
| Sink.Document.SetShading | md_to_word.py:293-296 | the last paragraph gets grey shading |
| Sink.Document.SetRule | md_to_word.py:324-337 | the last paragraph gets the rule border and spacing |
| Inline.FindChar | md_to_word.py:164 | a lazy `.*?c` search finds an occurrence of `c` at or after the start |
| Inline.LinkFrom | md_to_word.py:164 | a link match found has `](` at its label end and `)` at its target end |
| Inline.LinkFromFirst | md_to_word.py:164 | the lazy label ends at the first `](` on the line that a `)` closes, the target at the first `)` after it, and with no such `](` before a newline there is no link |
| Inline.MatchAt | md_to_word.py:164 | a match is at least two characters long and lies inside the text |
| Inline.SplitFromAlternates | md_to_word.py:164-166 | `re.split` with one group gives an odd number of parts; each part at an odd index is the whole match the pattern makes at that part's offset, and no match begins at any scanned position inside a part at an even index |
| Inline.PartsCover | md_to_word.py:166 | the parts laid end to end are the text: no gap and no overlap |
| Inline.SplitSkips | md_to_word.py:164-166 | characters that start no alternative stay in the current unmatched part |
| Inline.NoLinkWithoutCloseBracket | md_to_word.py:164 | without a later `]` no link can match |
| Inline.Classify | md_to_word.py:174-202 | a part's run text is never longer than the part |
| Inline.RunsBounded | md_to_word.py:166-202 | there are at most as many runs, and as many characters of run text, as the text has characters |
| Inline.PlainTextOneRun | md_to_word.py:200-202 | text with no `*`, no backtick and no `[`…`]` pair is one plain run holding all of it, or no run when empty |
| Inline.BoldPartRun | md_to_word.py:175-177 | a matched bold part loses two characters at each end and is bold |
| Inline.ItalicPartRun | md_to_word.py:180-182 | a matched italic part loses one character at each end and is italic; a part that is exactly `**` becomes an empty bold run |
| Inline.CodePartRun | md_to_word.py:185-188 | a matched code part loses its backticks and is 10pt Courier New |
| Inline.LinkPartRun | md_to_word.py:190-198 | a matched link part keeps only its label and is styled as a link |
| Inline.MatchRun | md_to_word.py:174-198 | the run of every matched part, by the alternative that matched it |
| Inline.UnmatchedRun | md_to_word.py:174-202 | a part where no match begins is never bold, a part starting with `[` and holding `](` gives an empty plain run, and on one line the part is a plain run of itself except a lone `*` or backquote, which gives an empty italic or code run |
| Inline.UnmatchedPartRun | md_to_word.py:166-202 | the same for every non-empty unmatched (even-index) part of the split, the complement of MatchRun |
| Inline.LinkFromSlice | md_to_word.py:192 | the link regex re-applied to the part finds the same label the split found |
| Inline.MatchAtShift | md_to_word.py:164 | a match after a prefix is the same match moved by the prefix length |
| Inline.SplitShift | md_to_word.py:166 | splitting resumed after a prefix is splitting the text after it |
| Inline.PartsAfterMatch | md_to_word.py:166 | inert text, then a match, then more text split into the inert text, the match, then the parts of the rest |
| Inline.RunsAfterMatch | md_to_word.py:166-202 | the runs of such text are the inert text's plain run, the match's run, then the runs of the rest |
| Inline.InertRuns | md_to_word.py:200-202 | inert text is one plain run, or none |
| Inline.BoldAfterText | md_to_word.py:175-177 | `**b**` after plain text is one bold run of b |
| Inline.ItalicAfterText | md_to_word.py:180-182 | `*b*` after plain text, b non-empty, is one italic run of b |
| Inline.CodeAfterText | md_to_word.py:185-188 | a backticked b after plain text is one 10pt Courier New run of b |
| Inline.LinkAt | md_to_word.py:190-198 | `[label](target)` is a link match ending after `)`, and its run is the label |
| Inline.LinkAfterText | md_to_word.py:190-198 | `[l](u)` after plain text is one link run of l; the target is dropped |
| Render.ListParagraph | md_to_word.py:240-265 | a list paragraph is indented exactly when its level is above 0, by its level |
| Render.QuoteParagraph | md_to_word.py:298-320 | a quote paragraph gets the indents exactly when its style resolved to `Normal` |
| Render.DropMarkerExact | md_to_word.py:219 | a marker followed by whitespace loses both, and the text after them is kept whole |
| Render.HeadingMarkerRemoved | md_to_word.py:219 | one to six `#` and the whitespace after them are removed from heading text |
| Render.HeadingMarkerChanges | md_to_word.py:219 | heading text changes exactly when it starts with one to six `#` followed by whitespace |
| Render.BulletMarkerRemoved | md_to_word.py:256 | a leading `*`, `-` or `+` and the whitespace after it are removed |
| Render.NumberMarkerRemoved | md_to_word.py:257 | leading digits, a dot and the whitespace after them are removed |
| Render.QuoteMarkerOnlyAtStart | md_to_word.py:311 | `>` and whitespace are removed in the first column only; an indented quote keeps its `>` |
| Render.HeadingStyle | md_to_word.py:212-216 | levels 1 to 6 take their heading style when the catalog has it; other levels resolve as `Normal` |
| Render.CodeParagraphsOfLines | md_to_word.py:280-285 | buffered lines joined and split again give one code paragraph per line holding that line, and an empty buffer one empty paragraph |
| Render.CodeFormatting | md_to_word.py:284-296 | a code paragraph is shaded, and its runs 9pt Courier New, exactly when the code style resolved to `Normal` |
| Blocks.TailText | md_to_word.py:387 | the `\s+(.+)$` group is a non-empty suffix of the line after whitespace |
| Blocks.TailTextCases | md_to_word.py:387 | the tail matches exactly when whitespace stands at the position and more than one character is left; the group follows a run of whitespace and starts with a non-blank character, unless the whole tail is blank, when it is the last character alone |
| Blocks.ClassifyFence | md_to_word.py:358-362 | a line is a fence line exactly when its stripped text starts with three backticks; the language is the stripped rest |
| Blocks.ClassifyRule | md_to_word.py:381-384 | a rule line that is no fence is a rule |
| Blocks.ClassifyHeading | md_to_word.py:387-391 | a heading match on a line that is no fence and no rule gives a heading of that level and text |
| Blocks.ClassifyBullet | md_to_word.py:414-423 | a bullet match after every earlier test has failed gives a bullet item |
| Blocks.ClassifyMatches | md_to_word.py:387-420 | each heading and list item was produced by its own regex match |
| Blocks.HeadingLevel | md_to_word.py:387-389 | a heading's level is its count of leading `#`, from 1 to 6, and its text is not empty |
| Blocks.SevenHashesNoHeading | md_to_word.py:387 | seven or more `#` never make a heading |
| Blocks.ListLevel | md_to_word.py:404-419 | a list item's level is its leading whitespace halved |
| Blocks.ListTestsDisjoint | md_to_word.py:404-420 | no line is both a numbered and a bullet item |
| Blocks.RuleBeforeLists | md_to_word.py:381-384 | a rule line such as `---` or `***` is always a rule, never a list item |
| Blocks.HeadingMatchShape | md_to_word.py:387 | one to six `#`, whitespace and text match as a heading of that level with that text |
| Blocks.HeadingLineShape | md_to_word.py:387-391 | one to six `#`, whitespace and text classify as that heading |
| Blocks.BulletMatchShape | md_to_word.py:415 | indent, bullet, whitespace and text match as a bullet item of level indent/2 |
| Blocks.NoHashNoHeading | md_to_word.py:387 | a line not starting with `#` is no heading |
| Blocks.NoDigitNoOrdered | md_to_word.py:404 | a line whose first non-blank character is no digit is no numbered item |
| Blocks.BulletNotEarlier | md_to_word.py:358-401 | a bullet line is no fence, no rule and no quote |
| Blocks.BulletNotNumbered | md_to_word.py:404-412 | a bullet line is no numbered item |
| Blocks.BulletLineShape | md_to_word.py:415-423 | indent, bullet, whitespace and text classify as a bullet item of level indent/2 |
| Blocks.OneParagraphPerLine | md_to_word.py:380-436 | outside a fence, every non-fence line appends exactly one paragraph and keeps the fence closed |
| Blocks.StepEmits | md_to_word.py:380-436 | outside a fence, a line appends the paragraph of its kind and updates the list flag |
| Blocks.BufferedVerbatim | md_to_word.py:374-378 | inside a fence, a line is buffered verbatim and appends nothing |
| Blocks.FenceOpens | md_to_word.py:358-363 | a fence line opens a block with an empty buffer and the text after the backticks as its language |
| Blocks.FenceCloses | md_to_word.py:364-370 | a fence line closes an open block, appends the code paragraphs of the buffer and clears the state |
| Blocks.StepIgnoresListFlag | md_to_word.py:425-431 | `in_list` is written but never read: the paragraphs appended do not depend on it |
| Blocks.FeedOne | md_to_word.py:354-372 | the loop over one line is one pass |
| Blocks.FeedSnoc | md_to_word.py:354-436 | the loop over one more line is one more pass from where it stopped |
| Blocks.ScanSnoc | md_to_word.py:354-436 | the scan of the first i+1 lines is one pass after the scan of the first i |
| Blocks.ScanExtends | md_to_word.py:354-436 | the loop invariant of `process_markdown_lines` is kept by one pass |
| Blocks.FoldAppend | md_to_word.py:354-436 | running the loop over two stretches of lines is running it over each in turn |
| Blocks.FeedAppend | md_to_word.py:354-436 | the converter's loop over two stretches of lines |
| Blocks.FeedWithoutFences | md_to_word.py:380-436 | outside a fence, fence-free lines append one paragraph each, the k-th that of line k's kind |
| Blocks.ScanWithoutFences | md_to_word.py:380-436 | a document with no fence gives one paragraph per line, each that of its line's kind |
| Blocks.FeedInsideFence | md_to_word.py:374-378 | inside a fence, fence-free lines are buffered in order and append nothing |
| Blocks.FenceBody | md_to_word.py:358-378 | after an opening fence, the lines up to the next fence are buffered and nothing is appended |
| Blocks.FencedBlock | md_to_word.py:357-378 | a fenced block appends one code paragraph per line between its fences, and the scan leaves the fence closed |
| Blocks.ScanCloses | md_to_word.py:364-370 | a fence after lines that left a fence open appends the code paragraphs of the buffered lines |
| Blocks.UnterminatedFence | md_to_word.py:374-378 | a fence left open at the end appends nothing for its lines, and the scan ends inside the fence with them buffered |
| Converter.MarkdownToWordConverter.GetStyleOrFallback | md_to_word.py:80-112 | the loop over the variations returns the resolved style name |
| Converter.MarkdownToWordConverter.ParseInlineFormatting | md_to_word.py:154-202 | the loop over the parts adds exactly the runs of the text to the last paragraph |
| Converter.MarkdownToWordConverter.AddStyled | md_to_word.py:221-222 | a paragraph in the style is appended, holding the runs of the text |
| Converter.MarkdownToWordConverter.AddHeading | md_to_word.py:204-222 | appends exactly the heading paragraph: heading style, marker stripped, inline runs |
| Converter.MarkdownToWordConverter.AddParagraph | md_to_word.py:224-238 | appends an empty unstyled paragraph for blank text, otherwise a paragraph of the text's runs in the style the requested `style` resolves to with `Normal` as fallback; the scanner requests `Normal`, which may resolve to a variation such as `normal` |
| Converter.MarkdownToWordConverter.AddListItem | md_to_word.py:240-265 | appends exactly the list paragraph: list style, markers stripped, indent set when nested |
| Converter.MarkdownToWordConverter.AddCodeLine | md_to_word.py:284-296 | the loop over the runs appends the code line, re-fonted and shaded when unstyled |
| Converter.MarkdownToWordConverter.AddCodeBlock | md_to_word.py:267-296 | the loop over the lines appends one code paragraph per line of the code |
| Converter.MarkdownToWordConverter.AddBlockquote | md_to_word.py:298-320 | appends exactly the quote paragraph, indented when the quote style is missing |
| Converter.MarkdownToWordConverter.AddHorizontalRule | md_to_word.py:322-337 | appends one empty paragraph with the rule border |
| Converter.MarkdownToWordConverter.EmitLine | md_to_word.py:380-436 | calls the renderer of the line's kind, appending its paragraph |
| Converter.MarkdownToWordConverter.ProcessLine | md_to_word.py:355-436 | one pass of the loop leaves the state and document as `Step` says |
| Converter.MarkdownToWordConverter.ProcessMarkdownLines | md_to_word.py:339-436 | the whole loop appends the paragraphs of `Convert` and returns whether a fence was left open |
| Scenarios.BoldThenItalic | md_to_word.py:166-202 | `a **b** c *d* e` gives plain, bold, plain, italic and plain runs in order |
| Scenarios.LoneDoubleStar | md_to_word.py:175-177 | a lone `**` becomes an empty bold run |
| Scenarios.LoneMarkers | md_to_word.py:180-188 | a lone `*` or backtick becomes an empty italic or code run |
| Scenarios.BrokenLinkDropped | md_to_word.py:190-198 | `[l](u` with no `)` becomes one run with no text |
| Scenarios.BracketNeverClosed | md_to_word.py:200-202 | a `[` never closed stays plain text, kept whole |
| Scenarios.TitleLine | md_to_word.py:387-391 | `# Title` is a level-1 heading with text `Title` |
| Scenarios.BlankLineKind | md_to_word.py:425-431 | the empty line is blank |
| Scenarios.ProseLine | md_to_word.py:433-436 | a line whose first character opens no block form is a text line |
| Scenarios.TitleDocument | md_to_word.py:339-436 | a title, a blank line and a line with bold and italic give four paragraphs, the third holding five runs |
| Scenarios.FenceAroundTwo | md_to_word.py:357-372 | two code lines between fences give two code paragraphs and the start state again |
| Scenarios.PythonFenceOpen | md_to_word.py:358-363 | after "```python" and two lines, the fence is open with language `python` and both lines buffered |
| Scenarios.FencedPython | md_to_word.py:357-372 | a python fenced block of two lines gives two verbatim code paragraphs |
| Scenarios.UnclosedFence | md_to_word.py:374-378 | "```" and one line with no closing fence append nothing and end inside the fence |

## Left out

- `read_markdown_file`, `load_template`, `convert` and `main` are left out. They do file I/O, console messages and command-line handling. The template is represented only by the set of style names it defines.
- The `mistune` import and the fields `current_list_level` and `in_code_block` at md_to_word.py:39-40 are left out, because the core never uses them.
- Word XML is left out: `OxmlElement`, `qn` and the border and shading attributes. The model keeps the shading, the rule border and the indents as flags on the paragraph.
- `RGBColor` and the underline of links become the `Link` format. `Pt` sizes are kept as point counts (`Mono(9)`, `Mono(10)`).
- The `Inches(...)` indent floats are left out. A list paragraph records its level; an unstyled quote records a flag.
- Text.Strip: covers ASCII blanks only. Python also strips `\x1c`–`\x1f` and Unicode spaces.
- The regex classes `\s` and `\d`, `str.lower` and `str.upper` are ASCII only in the model. Python's handle Unicode.
- Styles.ResolveStyle: python-docx raises `KeyError` when the resolved `Normal` is absent from the template. The model returns `Normal` as the source's last line does.
- Styles.ResolveStyle: the catalog at md_to_word.py:91 holds every style name, character and table styles included, so a name such as `Code` can resolve to a character style. `doc.add_paragraph(style=...)` at md_to_word.py:221, 237, 259, 285 and 313 then raises `ValueError` in python-docx. The model has no style types and appends the paragraph with that style.
- Inline.UnmatchedRun: for an unmatched part that holds a newline, only "never bold" and the unclosed-link case are stated. Such a part can still open and close with `*` or a backquote and so become an italic or code run. The converter never passes text with a newline: every caller gives it one line or a `.+` group.
- Converter.MarkdownToWordConverter.AddCodeBlock: the `language` argument is accepted and not used, as in the source.
- Converter.MarkdownToWordConverter.ProcessMarkdownLines: the source returns nothing. The model also returns the final `in_code_block`, so an unterminated fence can be seen.
- python-docx's `add_run` treatment of tab and newline characters inside run text is not modelled. Run text is kept as given.
