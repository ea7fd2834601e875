/**
 * Inline formatting: the split of a line of text by the pattern
 * `(\*\*.*?\*\*|\*.*?\*|`.*?`|\[.*?\]\(.*?\))` as Python's `re.split` does it,
 * and the classification of each non-empty part into one styled run.
 *
 * The regex is reproduced by a hand scanner: at each position the four
 * alternatives are tried in order, each with its lazy `.*?` (which, like
 * Python's `.`, never crosses a newline); the leftmost position with a match
 * wins, and scanning resumes after the match. No alternative matches fewer
 * than two characters, so there are no empty matches.
 */
module Inline {
  import opened Wrappers
  import opened Text
  import opened Sink

  /** Which alternative of the pattern matched. */
  datatype Kind = BoldSpan | ItalicSpan | CodeSpan | LinkSpan

  /** A match s[p..end] starting at some p; for a link, the label is s[p + 1..labelEnd]. */
  datatype Match = Match(kind: Kind, end: nat, labelEnd: nat)

  /**
   * A lazy `.*?` starting at i followed by the character `c`: the position of
   * the first `c` at or after i, unless a newline comes first.
   */
  function FindChar(s: string, i: nat, c: char): (r: Option<nat>)
    requires i <= |s|
    ensures r.Some? ==> i <= r.value < |s| && s[r.value] == c
    decreases |s| - i
  {
    if i == |s| then None
    else if s[i] == c then Some(i)
    else if s[i] == '\n' then None
    else FindChar(s, i + 1, c)
  }

  /**
   * A lazy `.*?` starting at i followed by `**`: the position of the first
   * `**` at or after i, unless a newline comes first.
   */
  function FindPair(s: string, i: nat): (r: Option<nat>)
    requires i <= |s|
    ensures r.Some? ==> i <= r.value && r.value + 2 <= |s| && s[r.value] == '*' && s[r.value + 1] == '*'
    decreases |s| - i
  {
    if i == |s| then None
    else if s[i] == '*' && i + 1 < |s| && s[i + 1] == '*' then Some(i)
    else if s[i] == '\n' then None
    else FindPair(s, i + 1)
  }

  /** A `](` at k after which the target's `)` is found on the same line. */
  predicate ClosesLinkAt(s: string, k: nat) {
    k + 1 < |s| && s[k] == ']' && s[k + 1] == '(' && FindChar(s, k + 2, ')').Some?
  }

  /** No newline stands in s[i..j]. */
  predicate OneLine(s: string, i: nat, j: nat) {
    forall k :: i <= k < j && k < |s| ==> s[k] != '\n'
  }

  /**
   * The rest of `\[.*?\]\(.*?\)` once the label has begun at i: the lazy
   * label is extended one character at a time until `](` follows it and a
   * `)` closes the target. The result is the position of that `]` and of
   * that `)`.
   */
  function LinkFrom(s: string, i: nat): (r: Option<(nat, nat)>)
    requires i <= |s|
    ensures r.Some? ==> i <= r.value.0 && r.value.0 + 2 <= r.value.1 < |s|
    ensures r.Some? ==> s[r.value.0] == ']' && s[r.value.0 + 1] == '(' && s[r.value.1] == ')'
    decreases |s| - i
  {
    if ClosesLinkAt(s, i) then
      Some((i, FindChar(s, i + 2, ')').value))
    else if i < |s| && s[i] != '\n' then LinkFrom(s, i + 1)
    else None
  }

  /**
   * The lazy label stops at the first `](` from i that a `)` closes on the
   * same line, and the target ends at the first `)` after it; when there is
   * none before the next newline, there is no link.
   */
  lemma {:induction false} LinkFromFirst(s: string, i: nat)
    requires i <= |s|
    ensures LinkFrom(s, i).Some? ==>
      var (x, y) := LinkFrom(s, i).value;
      OneLine(s, i, x) && ClosesLinkAt(s, x) && FindChar(s, x + 2, ')') == Some(y)
      && forall k :: i <= k < x ==> !ClosesLinkAt(s, k)
    ensures LinkFrom(s, i).None? ==> forall k :: i <= k < |s| && OneLine(s, i, k) ==> !ClosesLinkAt(s, k)
    decreases |s| - i
  {
    if !ClosesLinkAt(s, i) && i < |s| && s[i] != '\n' {
      LinkFromFirst(s, i + 1);
    }
  }

  /** `\*\*.*?\*\*` at p: the end of the match. */
  function BoldEnd(s: string, p: nat): (r: Option<nat>)
    requires p <= |s|
    ensures r.Some? ==> p + 4 <= r.value <= |s|
  {
    if p + 1 < |s| && s[p] == '*' && s[p + 1] == '*' && FindPair(s, p + 2).Some? then
      Some(FindPair(s, p + 2).value + 2)
    else None
  }

  /**
   * `\*.*?\*` (c is `*`) or `` `.*?` `` (c is a backquote) at p: the end of
   * the match.
   */
  function DelimitedEnd(s: string, p: nat, c: char): (r: Option<nat>)
    requires p <= |s|
    ensures r.Some? ==> p + 2 <= r.value <= |s|
  {
    if p < |s| && s[p] == c && FindChar(s, p + 1, c).Some? then Some(FindChar(s, p + 1, c).value + 1) else None
  }

  /** `\[.*?\]\(.*?\)` at p: the positions of the `]` and the `)`. */
  function LinkEnds(s: string, p: nat): (r: Option<(nat, nat)>)
    requires p <= |s|
    ensures r.Some? ==> p < r.value.0 && r.value.0 + 2 <= r.value.1 < |s|
    ensures r.Some? ==> s[r.value.0] == ']' && s[r.value.0 + 1] == '(' && s[r.value.1] == ')'
  {
    if p < |s| && s[p] == '[' then LinkFrom(s, p + 1) else None
  }

  /** The match of the pattern at position p, the alternatives tried in order. */
  function MatchAt(s: string, p: nat): (r: Option<Match>)
    requires p <= |s|
    ensures r.Some? ==> p + 2 <= r.value.end <= |s|
  {
    if BoldEnd(s, p).Some? then Some(Match(BoldSpan, BoldEnd(s, p).value, 0))
    else if DelimitedEnd(s, p, '*').Some? then Some(Match(ItalicSpan, DelimitedEnd(s, p, '*').value, 0))
    else if DelimitedEnd(s, p, '`').Some? then Some(Match(CodeSpan, DelimitedEnd(s, p, '`').value, 0))
    else if LinkEnds(s, p).Some? then Some(Match(LinkSpan, LinkEnds(s, p).value.1 + 1, LinkEnds(s, p).value.0))
    else None
  }

  /**
   * `re.split` from scan position p, the current unmatched text having begun
   * at `start`: unmatched text and matches alternate, beginning and ending
   * with (possibly empty) unmatched text.
   */
  function SplitFrom(s: string, start: nat, p: nat): (parts: seq<string>)
    requires start <= p <= |s|
    ensures parts != []
    decreases |s| - p
  {
    if p == |s| then [s[start..]]
    else match MatchAt(s, p)
      case Some(m) => [s[start..p], s[p..m.end]] + SplitFrom(s, m.end, m.end)
      case None => SplitFrom(s, start, p + 1)
  }

  /** Where the k-th part begins in the text, the split having begun at `start`. */
  function Offset(start: nat, parts: seq<string>, k: nat): nat
    requires k <= |parts|
  {
    start + |Concat(parts[..k])|
  }

  /**
   * What a part beginning at o is, the scan having begun at p: a part at an
   * odd index (`odd`) is a whole match of the pattern there; a part at an
   * even index holds no position, from p on, where a match begins.
   */
  predicate PartAt(s: string, p: nat, o: nat, odd: bool, part: string) {
    (odd ==> o <= |s| && MatchAt(s, o).Some? && MatchAt(s, o).value.end == o + |part|)
    && (!odd ==> forall j :: p <= j < |s| && o <= j < o + |part| ==> MatchAt(s, j).None?)
  }

  /** Every part of a split begun at `start` and scanned from p is what `PartAt` says. */
  predicate PartsAt(s: string, start: nat, p: nat, parts: seq<string>) {
    forall k :: 0 <= k < |parts| ==> PartAt(s, p, Offset(start, parts, k), k % 2 == 1, parts[k])
  }

  /**
   * Unmatched text and matches alternate: the parts are odd in number, every
   * part at an odd index is the match the pattern makes at its own offset,
   * and no match begins inside a part at an even index.
   */
  lemma {:induction false} SplitFromAlternates(s: string, start: nat, p: nat)
    requires start <= p <= |s|
    ensures |SplitFrom(s, start, p)| % 2 == 1
    ensures PartsAt(s, start, p, SplitFrom(s, start, p))
    decreases |s| - p
  {
    if p == |s| {
      SplitEnd(s, start);
      EndPartAt(s, start);
    } else if MatchAt(s, p).Some? {
      var e := MatchAt(s, p).value.end;
      SplitFromAlternates(s, e, e);
      HitPartsAt(s, start, p, e, SplitFrom(s, e, e));
    } else {
      SplitMiss(s, start, p, p + 1);
      SplitFromAlternates(s, start, p + 1);
      MissPartsAt(s, start, p, SplitFrom(s, start, p));
    }
  }

  /** The split at the end of the text: its one part is unmatched text, scanned no further. */
  lemma EndPartAt(s: string, start: nat)
    requires start <= |s|
    ensures PartsAt(s, start, |s|, [s[start..]])
  {
    assert [s[start..]][..0] == [];
  }

  /** A position where no match begins can join the scan of every part. */
  lemma MissPartsAt(s: string, start: nat, p: nat, parts: seq<string>)
    requires p < |s| && MatchAt(s, p).None?
    requires PartsAt(s, start, p + 1, parts)
    ensures PartsAt(s, start, p, parts)
  {
    forall k | 0 <= k < |parts|
      ensures PartAt(s, p, Offset(start, parts, k), k % 2 == 1, parts[k])
    {
      assert PartAt(s, p + 1, Offset(start, parts, k), k % 2 == 1, parts[k]);
    }
  }

  /** Every part of a split that finds a match at p, from the parts of the split after the match. */
  lemma HitPartsAt(s: string, start: nat, p: nat, e: nat, rest: seq<string>)
    requires start <= p < |s| && MatchAt(s, p).Some? && MatchAt(s, p).value.end == e
    requires rest == SplitFrom(s, e, e)
    requires PartsAt(s, e, e, rest) && |rest| % 2 == 1
    ensures |SplitFrom(s, start, p)| % 2 == 1
    ensures PartsAt(s, start, p, SplitFrom(s, start, p))
  {
    var parts := [s[start..p], s[p..e]] + rest;
    SplitHit(s, start, p, e, s[start..p], s[p..e]);
    forall k | 0 <= k < |parts|
      ensures PartAt(s, p, Offset(start, parts, k), k % 2 == 1, parts[k])
    {
      HitPartAt(s, start, p, e, s[start..p], s[p..e], rest, k);
    }
  }

  /** The offsets of the parts after a match, which follow the text before it and the match. */
  lemma OffsetAfterPair(start: nat, a: string, b: string, rest: seq<string>, k: nat)
    requires 2 <= k <= |rest| + 2
    ensures Offset(start, [a, b] + rest, k) == Offset(start + |a| + |b|, rest, k - 2)
  {
    assert ([a, b] + rest)[..k] == [a, b] + rest[..k - 2];
    ConcatPair(a, b, rest[..k - 2]);
  }

  /** The parts of a split that finds a match at p are what the split after the match says, and the two before it. */
  lemma HitPartAt(s: string, start: nat, p: nat, e: nat, a: string, b: string, rest: seq<string>, k: nat)
    requires start <= p < |s| && MatchAt(s, p).Some? && MatchAt(s, p).value.end == e
    requires |a| == p - start && |b| == e - p
    requires PartsAt(s, e, e, rest)
    requires k < |rest| + 2
    ensures PartAt(s, p, Offset(start, [a, b] + rest, k), k % 2 == 1, ([a, b] + rest)[k])
  {
    var parts := [a, b] + rest;
    if k == 0 {
      assert parts[..0] == [];
    } else if k == 1 {
      assert parts[..1] == [a];
      assert Concat([a]) == Concat([]) + a;
    } else {
      OffsetAfterPair(start, a, b, rest, k);
      assert parts[k] == rest[k - 2];
      PartAtLater(s, p, e, Offset(e, rest, k - 2), k % 2 == 1, rest[k - 2]);
    }
  }

  /** What a part is, seen from a later scan position no further than the part's own start, holds from an earlier one too. */
  lemma PartAtLater(s: string, p: nat, q: nat, o: nat, odd: bool, part: string)
    requires p <= q <= o
    requires PartAt(s, q, o, odd, part)
    ensures PartAt(s, p, o, odd, part)
  {
  }

  /** `re.split(pattern, text)` */
  function Parts(text: string): seq<string> {
    SplitFrom(text, 0, 0)
  }

  /** `re.match(r'\[(.*?)\]\((.*?)\)', part)`: the label, when the part begins with a link. */
  function LinkLabel(part: string): Option<string> {
    if part != [] && part[0] == '[' then
      match LinkFrom(part, 1)
      case Some(ends) => Some(part[1..ends.0])
      case None => None
    else None
  }

  /** `part.startswith(c)` for a single character `c`. */
  predicate Opens(part: string, c: char) {
    |part| >= 1 && part[0] == c
  }

  /** `part.endswith(c)` for a single character `c`. */
  predicate Closes(part: string, c: char) {
    |part| >= 1 && part[|part| - 1] == c
  }

  /** `part.startswith('**')` */
  predicate OpensBold(part: string) {
    |part| >= 2 && part[0] == '*' && part[1] == '*'
  }

  /** `part.endswith('**')` */
  predicate ClosesBold(part: string) {
    |part| >= 2 && part[|part| - 2] == '*' && part[|part| - 1] == '*'
  }

  /** `'](' in part` */
  predicate HasLinkMiddle(part: string) {
    exists k :: 0 <= k < |part| - 1 && part[k] == ']' && part[k + 1] == '('
  }

  /** The run one non-empty part becomes, tested in the source's order. */
  function Classify(part: string): (r: Run)
    ensures |r.text| <= |part|
  {
    if OpensBold(part) && ClosesBold(part) then Run(Slice(part, 2, 2), Bold)
    else if Opens(part, '*') && Closes(part, '*') && !OpensBold(part) then Run(Slice(part, 1, 1), Italic)
    else if Opens(part, '`') && Closes(part, '`') then Run(Slice(part, 1, 1), Mono(10))
    else if Opens(part, '[') && HasLinkMiddle(part) then
      match LinkLabel(part)
      case Some(name) => Run(name, Link)
      case None => Run([], Plain)   // a run is added but given no text
    else Run(part, Plain)
  }

  /** One run per non-empty part, in order. */
  function RunsOf(parts: seq<string>): seq<Run> {
    if parts == [] then []
    else
      var last := parts[|parts| - 1];
      RunsOf(parts[..|parts| - 1]) + (if last == [] then [] else [Classify(last)])
  }

  /** The runs `parse_inline_formatting` adds for `text`. */
  function Runs(text: string): seq<Run> {
    RunsOf(Parts(text))
  }

  /** The parts laid end to end. */
  function Concat(parts: seq<string>): string {
    if parts == [] then [] else Concat(parts[..|parts| - 1]) + parts[|parts| - 1]
  }

  /** The run texts laid end to end. */
  function TextOf(runs: seq<Run>): string {
    if runs == [] then [] else TextOf(runs[..|runs| - 1]) + runs[|runs| - 1].text
  }

  lemma {:induction false} ConcatAppend(a: seq<string>, b: seq<string>)
    ensures Concat(a + b) == Concat(a) + Concat(b)
    decreases |b|
  {
    if b == [] {
      assert a + b == a;
    } else {
      var init := b[..|b| - 1];
      assert (a + b)[..|a + b| - 1] == a + init;
      ConcatAppend(a, init);
    }
  }

  /** Two parts put before others are laid down first. */
  lemma ConcatPair(a: string, b: string, rest: seq<string>)
    ensures Concat([a, b] + rest) == a + b + Concat(rest)
  {
    ConcatAppend([a, b], rest);
    assert Concat([a, b]) == Concat([a]) + b;
    assert Concat([a]) == Concat([]) + a;
  }

  /** Runs follow the parts in order: the runs of two stretches of parts are the runs of each, one after the other. */
  lemma {:induction false} RunsOfAppend(a: seq<string>, b: seq<string>)
    ensures RunsOf(a + b) == RunsOf(a) + RunsOf(b)
    decreases |b|
  {
    if b == [] {
      assert a + b == a;
    } else {
      var init := b[..|b| - 1];
      assert (a + b)[..|a + b| - 1] == a + init;
      RunsOfAppend(a, init);
    }
  }

  lemma {:induction false} SplitFromCovers(s: string, start: nat, p: nat)
    requires start <= p <= |s|
    ensures Concat(SplitFrom(s, start, p)) == s[start..]
    decreases |s| - p
  {
    if p == |s| {
      SplitEnd(s, start);
      assert Concat([s[start..]]) == Concat([]) + s[start..];
    } else if MatchAt(s, p).Some? {
      var e := MatchAt(s, p).value.end;
      SplitFromCovers(s, e, e);
      CoversHit(s, start, p, e);
    } else {
      SplitMiss(s, start, p, p + 1);
      SplitFromCovers(s, start, p + 1);
    }
  }

  /** Where a match starts, the text before it, the match and the parts after it cover the rest of the text. */
  lemma CoversHit(s: string, start: nat, p: nat, e: nat)
    requires start <= p < |s| && MatchAt(s, p).Some? && MatchAt(s, p).value.end == e
    requires Concat(SplitFrom(s, e, e)) == s[e..]
    ensures Concat(SplitFrom(s, start, p)) == s[start..]
  {
    var before, matched := s[start..p], s[p..e];
    SplitHit(s, start, p, e, before, matched);
    ConcatPair(before, matched, SplitFrom(s, e, e));
    SliceThree(s, start, p, e);
  }

  /** A suffix is cut into three consecutive slices. */
  lemma SliceThree(s: string, i: nat, j: nat, k: nat)
    requires i <= j <= k <= |s|
    ensures s[i..] == s[i..j] + s[j..k] + s[k..]
  {
  }

  /** The parts cover the text exactly once, in order: no gap and no overlap. */
  lemma PartsCover(text: string)
    ensures Concat(Parts(text)) == text
  {
    SplitFromCovers(text, 0, 0);
  }

  lemma {:induction false} RunsBoundedByParts(parts: seq<string>)
    ensures |RunsOf(parts)| <= |Concat(parts)|
    ensures |TextOf(RunsOf(parts))| <= |Concat(parts)|
    decreases |parts|
  {
    if parts != [] {
      var init := parts[..|parts| - 1];
      var last := parts[|parts| - 1];
      RunsBoundedByParts(init);
      assert Concat(parts) == Concat(init) + last;
      if last != [] {
        var rs := RunsOf(init) + [Classify(last)];
        assert RunsOf(parts) == rs;
        assert rs[..|rs| - 1] == RunsOf(init);
        assert TextOf(rs) == TextOf(RunsOf(init)) + Classify(last).text;
        assert |Classify(last).text| <= |last|;
      } else {
        assert RunsOf(parts) == RunsOf(init);
      }
    }
  }

  /**
   * Every run stands for at least one character of the text, and no
   * character is emitted twice: there are at most as many runs, and at most
   * as many characters of run text, as the text has characters.
   */
  lemma RunsBounded(text: string)
    ensures |Runs(text)| <= |text|
    ensures |TextOf(Runs(text))| <= |text|
  {
    PartsCover(text);
    RunsBoundedByParts(Parts(text));
  }

  lemma {:induction false} NoLinkWithoutCloseBracket(s: string, i: nat)
    requires i <= |s|
    requires forall k :: i <= k < |s| ==> s[k] != ']'
    ensures LinkFrom(s, i) == None
    decreases |s| - i
  {
    if i < |s| {
      NoLinkWithoutCloseBracket(s, i + 1);
    }
  }

  /** Scanning past characters that start no alternative keeps the current unmatched text open. */
  lemma {:induction false} SplitSkips(s: string, start: nat, p: nat, q: nat)
    requires start <= p <= q <= |s|
    requires forall k :: p <= k < q ==> s[k] !in {'*', '`', '['}
    ensures SplitFrom(s, start, p) == SplitFrom(s, start, q)
    decreases q - p
  {
    if p < q {
      assert MatchAt(s, p) == None;
      SplitSkips(s, start, p + 1, q);
    }
  }

  /** Text that cannot start a match at any position. */
  ghost predicate Unmarked(s: string) {
    '*' !in s && '`' !in s && ('[' !in s || ']' !in s)
  }

  lemma {:induction false} UnmarkedSplit(s: string, p: nat)
    requires p <= |s| && Unmarked(s)
    ensures SplitFrom(s, 0, p) == [s]
    decreases |s| - p
  {
    if p < |s| {
      if s[p] == '[' {
        NoLinkWithoutCloseBracket(s, p + 1);
      }
      assert MatchAt(s, p) == None;
      UnmarkedSplit(s, p + 1);
    }
  }

  /**
   * Text without `*`, without a backtick, and without a `[`...`]` pair is
   * one plain run holding the whole text; empty text gives no run at all.
   */
  lemma PlainTextOneRun(text: string)
    requires Unmarked(text)
    ensures Runs(text) == if text == [] then [] else [Run(text, Plain)]
  {
    UnmarkedSplit(text, 0);
    assert Parts(text) == [text];
    assert [text][..0] == [];
    assert RunsOf([text]) == RunsOf([]) + (if text == [] then [] else [Classify(text)]);
    if text != [] {
      assert text[0] in text;
      assert Classify(text) == Run(text, Plain);
    }
  }

  /**
   * A lazy search on a slice s[a..b] sees what it sees on s, so long as what
   * it finds lies inside the slice.
   */
  lemma {:induction false} FindCharSlice(s: string, a: nat, b: nat, j: nat, c: char)
    requires a <= j <= b <= |s|
    ensures FindChar(s, j, c) == None ==> FindChar(s[a..b], j - a, c) == None
    ensures FindChar(s, j, c).Some? && FindChar(s, j, c).value < b ==>
              FindChar(s[a..b], j - a, c) == Some(FindChar(s, j, c).value - a)
    decreases |s| - j
  {
    if j < b {
      assert s[a..b][j - a] == s[j];
      if s[j] != c && s[j] != '\n' {
        FindCharSlice(s, a, b, j + 1, c);
      }
    }
  }

  /** Where the label ends at i on s, it ends at i - a on the slice s[a..b]. */
  lemma LinkFromSliceHit(s: string, a: nat, b: nat, i: nat, y: nat)
    requires a <= i && i + 2 <= y < b <= |s|
    requires s[i] == ']' && s[i + 1] == '(' && FindChar(s, i + 2, ')') == Some(y)
    ensures LinkFrom(s[a..b], i - a) == Some((i - a, y - a))
  {
    var t := s[a..b];
    assert t[i - a] == ']' && t[i - a + 1] == '(';
    FindCharSlice(s, a, b, i + 2, ')');
  }

  /** Where the label cannot end at i on s, it cannot end at i - a on the slice s[a..b]. */
  lemma LinkFromSliceMiss(s: string, a: nat, b: nat, i: nat)
    requires a <= i < b <= |s| && s[i] != '\n'
    requires !(i + 1 < |s| && s[i] == ']' && s[i + 1] == '(' && FindChar(s, i + 2, ')').Some?)
    ensures LinkFrom(s[a..b], i - a) == LinkFrom(s[a..b], i - a + 1)
  {
    var t := s[a..b];
    assert t[i - a] == s[i];
    if i + 1 < b {
      assert t[i - a + 1] == s[i + 1];
      FindCharSlice(s, a, b, i + 2, ')');
    }
  }

  /** The link search on a slice s[a..b] sees what it sees on s, so long as what it finds lies inside the slice. */
  lemma {:induction false} LinkFromSlice(s: string, a: nat, b: nat, i: nat, x: nat, y: nat)
    requires a <= i <= b <= |s|
    requires LinkFrom(s, i) == Some((x, y)) && y < b
    ensures LinkFrom(s[a..b], i - a) == Some((x - a, y - a))
    decreases |s| - i
  {
    if i + 1 < |s| && s[i] == ']' && s[i + 1] == '(' && FindChar(s, i + 2, ')').Some? {
      LinkFromSliceHit(s, a, b, i, y);
    } else {
      LinkFromSliceMiss(s, a, b, i);
      LinkFromSlice(s, a, b, i + 1, x, y);
    }
  }

  /** A matched bold part loses two characters at each end. */
  lemma BoldPartRun(s: string, p: nat, e: nat)
    requires p + 4 <= e <= |s| && s[p] == '*' && s[p + 1] == '*' && s[e - 2] == '*' && s[e - 1] == '*'
    ensures Classify(s[p..e]) == Run(s[p + 2..e - 2], Bold)
  {
    var part := s[p..e];
    assert OpensBold(part) && ClosesBold(part);
    SliceOfSlice(s, p, e, 2, |part| - 2);
  }

  /** A bold match opens and closes with `**`. */
  lemma BoldEndFacts(s: string, p: nat, e: nat)
    requires p <= |s| && BoldEnd(s, p) == Some(e)
    ensures s[p] == '*' && s[p + 1] == '*' && s[e - 2] == '*' && s[e - 1] == '*'
  {
  }

  /** A match delimited by c opens and closes with c, and only the empty match has c second. */
  lemma DelimitedEndFacts(s: string, p: nat, c: char, e: nat)
    requires p <= |s| && DelimitedEnd(s, p, c) == Some(e)
    ensures s[p] == c && s[e - 1] == c && (e == p + 2 || s[p + 1] != c)
  {
  }

  /** A matched italic part loses one character at each end; the part `**` is an empty bold run. */
  lemma ItalicPartRun(s: string, p: nat, e: nat)
    requires p + 2 <= e <= |s| && s[p] == '*' && s[e - 1] == '*'
    requires e == p + 2 || s[p + 1] != '*'
    ensures e == p + 2 ==> Classify(s[p..e]) == Run([], Bold)
    ensures e > p + 2 ==> Classify(s[p..e]) == Run(s[p + 1..e - 1], Italic)
  {
    var part := s[p..e];
    if e == p + 2 {
      assert OpensBold(part) && ClosesBold(part);
    } else {
      assert Opens(part, '*') && Closes(part, '*') && !OpensBold(part);
      SliceOfSlice(s, p, e, 1, |part| - 1);
    }
  }

  /** A matched code part loses one backtick at each end and is set in 10pt Courier New. */
  lemma CodePartRun(s: string, p: nat, e: nat)
    requires p + 2 <= e <= |s| && s[p] == '`' && s[e - 1] == '`'
    ensures Classify(s[p..e]) == Run(s[p + 1..e - 1], Mono(10))
  {
    var part := s[p..e];
    assert !Opens(part, '*') && Opens(part, '`') && Closes(part, '`');
    SliceOfSlice(s, p, e, 1, |part| - 1);
  }

  /** A part that is one whole link becomes a link run of its label. */
  lemma LinkPart(part: string, x: nat)
    requires part != [] && part[0] == '[' && LinkFrom(part, 1) == Some((x, |part| - 1))
    ensures Classify(part) == Run(part[1..x], Link)
  {
    assert HasLinkMiddle(part) by {
      assert part[x] == ']' && part[x + 1] == '(';
    }
    assert !Opens(part, '*') && !Opens(part, '`') && Opens(part, '[');
  }

  lemma LinkPartAt(s: string, p: nat, x: nat, y: nat)
    requires p < x < y < |s| && s[p] == '['
    requires LinkFrom(s[p..y + 1], 1) == Some((x - p, y - p))
    ensures Classify(s[p..y + 1]) == Run(s[p + 1..x], Link)
  {
    var part := s[p..y + 1];
    assert part[1..x - p] == s[p + 1..x] by {
      SliceOfSlice(s, p, y + 1, 1, x - p);
    }
    LinkPart(part, x - p);
  }

  /** A matched link part keeps only its label. */
  lemma LinkPartRun(s: string, p: nat, x: nat, y: nat)
    requires p < |s| && s[p] == '[' && LinkFrom(s, p + 1) == Some((x, y))
    ensures Classify(s[p..y + 1]) == Run(s[p + 1..x], Link)
  {
    LinkFromSlice(s, p, y + 1, p + 1, x, y);
    LinkPartAt(s, p, x, y);
  }

  /**
   * What a matched part becomes: its text with the delimiters removed -- two
   * characters from each end of bold, one from each end of italic and code,
   * and for a link only the label (the target is dropped). An italic match
   * of `**` itself is classified as an empty bold run.
   */
  lemma MatchRun(s: string, p: nat)
    requires p <= |s| && MatchAt(s, p).Some?
    ensures var m := MatchAt(s, p).value; var part := s[p..m.end];
      && (m.kind == BoldSpan ==> Classify(part) == Run(s[p + 2..m.end - 2], Bold))
      && (m.kind == ItalicSpan && m.end == p + 2 ==> Classify(part) == Run([], Bold))
      && (m.kind == ItalicSpan && m.end > p + 2 ==> Classify(part) == Run(s[p + 1..m.end - 1], Italic))
      && (m.kind == CodeSpan ==> Classify(part) == Run(s[p + 1..m.end - 1], Mono(10)))
      && (m.kind == LinkSpan ==> Classify(part) == Run(s[p + 1..m.labelEnd], Link))
  {
    BoldMatchRun(s, p);
    ItalicMatchRun(s, p);
    CodeMatchRun(s, p);
    LinkMatchRun(s, p);
  }

  /** A bold match becomes a bold run of what lies between the `**` pairs. */
  lemma BoldMatchRun(s: string, p: nat)
    requires p <= |s| && MatchAt(s, p).Some?
    ensures var m := MatchAt(s, p).value;
      m.kind == BoldSpan ==> Classify(s[p..m.end]) == Run(s[p + 2..m.end - 2], Bold)
  {
    var m := MatchAt(s, p).value;
    if m.kind == BoldSpan {
      assert BoldEnd(s, p) == Some(m.end);
      BoldEndFacts(s, p, m.end);
      BoldPartRun(s, p, m.end);
    }
  }

  /** An italic match becomes an italic run of its inside, or an empty bold run when it is `**`. */
  lemma ItalicMatchRun(s: string, p: nat)
    requires p <= |s| && MatchAt(s, p).Some?
    ensures var m := MatchAt(s, p).value;
      && (m.kind == ItalicSpan && m.end == p + 2 ==> Classify(s[p..m.end]) == Run([], Bold))
      && (m.kind == ItalicSpan && m.end > p + 2 ==> Classify(s[p..m.end]) == Run(s[p + 1..m.end - 1], Italic))
  {
    var m := MatchAt(s, p).value;
    if m.kind == ItalicSpan {
      assert DelimitedEnd(s, p, '*') == Some(m.end);
      DelimitedEndFacts(s, p, '*', m.end);
      ItalicPartRun(s, p, m.end);
    }
  }

  /** A code match becomes a 10pt Courier New run of its inside. */
  lemma CodeMatchRun(s: string, p: nat)
    requires p <= |s| && MatchAt(s, p).Some?
    ensures var m := MatchAt(s, p).value;
      m.kind == CodeSpan ==> Classify(s[p..m.end]) == Run(s[p + 1..m.end - 1], Mono(10))
  {
    var m := MatchAt(s, p).value;
    if m.kind == CodeSpan {
      assert DelimitedEnd(s, p, '`') == Some(m.end);
      DelimitedEndFacts(s, p, '`', m.end);
      CodePartRun(s, p, m.end);
    }
  }

  /** A link match becomes a link run of its label. */
  lemma LinkMatchRun(s: string, p: nat)
    requires p <= |s| && MatchAt(s, p).Some?
    ensures var m := MatchAt(s, p).value;
      m.kind == LinkSpan ==> Classify(s[p..m.end]) == Run(s[p + 1..m.labelEnd], Link)
  {
    var m := MatchAt(s, p).value;
    if m.kind == LinkSpan {
      assert LinkEnds(s, p) == Some((m.labelEnd, m.end - 1));
      LinkPartRun(s, p, m.labelEnd, m.end - 1);
    }
  }

  // ---------------------------------------------------------------------
  // Splitting text that begins with a match

  /** Text in which none of the alternatives can start. */
  predicate Inert(s: string) {
    forall k :: 0 <= k < |s| ==> s[k] !in {'*', '`', '['}
  }

  /** The run of a stretch of unmatched text: none when it is empty, one plain run otherwise. */
  function PlainRuns(s: string): (r: seq<Run>)
    ensures |r| <= 1 && TextOf(r) == s
  {
    if s == [] then [] else
      assert [Run(s, Plain)][..0] == [];
      [Run(s, Plain)]
  }

  /** Searches that start past a prefix see only what follows it. */
  lemma {:induction false} FindCharShift(x: string, y: string, i: nat, c: char)
    requires i <= |y|
    ensures FindChar(x + y, |x| + i, c) ==
      if FindChar(y, i, c).Some? then Some(|x| + FindChar(y, i, c).value) else None
    decreases |y| - i
  {
    if i < |y| {
      assert (x + y)[|x| + i] == y[i];
      FindCharShift(x, y, i + 1, c);
    }
  }

  lemma {:induction false} FindPairShift(x: string, y: string, i: nat)
    requires i <= |y|
    ensures FindPair(x + y, |x| + i) ==
      if FindPair(y, i).Some? then Some(|x| + FindPair(y, i).value) else None
    decreases |y| - i
  {
    if i < |y| {
      assert (x + y)[|x| + i] == y[i];
      if i + 1 < |y| {
        assert (x + y)[|x| + i + 1] == y[i + 1];
      }
      FindPairShift(x, y, i + 1);
    }
  }

  lemma {:induction false} LinkFromShift(x: string, y: string, i: nat)
    requires i <= |y|
    ensures LinkFrom(x + y, |x| + i) ==
      if LinkFrom(y, i).Some? then Some((|x| + LinkFrom(y, i).value.0, |x| + LinkFrom(y, i).value.1)) else None
    decreases |y| - i
  {
    if i < |y| {
      assert (x + y)[|x| + i] == y[i];
      if i + 1 < |y| {
        assert (x + y)[|x| + i + 1] == y[i + 1];
        FindCharShift(x, y, i + 2, ')');
      }
      LinkFromShift(x, y, i + 1);
    }
  }

  lemma BoldEndShift(x: string, y: string, p: nat)
    requires p <= |y|
    ensures BoldEnd(x + y, |x| + p) == if BoldEnd(y, p).Some? then Some(|x| + BoldEnd(y, p).value) else None
  {
    if p + 1 < |y| {
      assert (x + y)[|x| + p] == y[p] && (x + y)[|x| + p + 1] == y[p + 1];
      FindPairShift(x, y, p + 2);
    }
  }

  lemma DelimitedEndShift(x: string, y: string, p: nat, c: char)
    requires p <= |y|
    ensures DelimitedEnd(x + y, |x| + p, c) ==
      if DelimitedEnd(y, p, c).Some? then Some(|x| + DelimitedEnd(y, p, c).value) else None
  {
    if p < |y| {
      assert (x + y)[|x| + p] == y[p];
      FindCharShift(x, y, p + 1, c);
    }
  }

  lemma LinkEndsShift(x: string, y: string, p: nat)
    requires p <= |y|
    ensures LinkEnds(x + y, |x| + p) ==
      if LinkEnds(y, p).Some? then Some((|x| + LinkEnds(y, p).value.0, |x| + LinkEnds(y, p).value.1)) else None
  {
    if p < |y| {
      assert (x + y)[|x| + p] == y[p];
      LinkFromShift(x, y, p + 1);
    }
  }

  /** A match past a prefix is the match in what follows it, moved by the prefix's length. */
  lemma MatchAtShift(x: string, y: string, p: nat)
    requires p <= |y|
    ensures MatchAt(x + y, |x| + p).Some? <==> MatchAt(y, p).Some?
    ensures MatchAt(y, p).Some? ==> MatchAt(x + y, |x| + p).value.end == |x| + MatchAt(y, p).value.end
  {
    BoldEndShift(x, y, p);
    DelimitedEndShift(x, y, p, '*');
    DelimitedEndShift(x, y, p, '`');
    LinkEndsShift(x, y, p);
  }

  /** One step of the split where a match starts: the text before it and the match become parts. */
  lemma SplitHit(s: string, start: nat, p: nat, e: nat, before: string, matched: string)
    requires start <= p < |s| && MatchAt(s, p).Some? && MatchAt(s, p).value.end == e
    requires before == s[start..p] && matched == s[p..e]
    ensures SplitFrom(s, start, p) == [before, matched] + SplitFrom(s, e, e)
  {
  }

  /** The split at the end of the text: the unmatched text left is the last part. */
  lemma SplitEnd(s: string, start: nat)
    requires start <= |s|
    ensures SplitFrom(s, start, |s|) == [s[start..]]
  {
  }

  /** One step of the split where no match starts: the scan moves on. */
  lemma SplitMiss(s: string, start: nat, p: nat, q: nat)
    requires start <= p < |s| && MatchAt(s, p).None? && q == p + 1
    ensures SplitFrom(s, start, p) == SplitFrom(s, start, q)
  {
  }

  /** A slice past a prefix is the slice of what follows it. */
  lemma SliceShift(x: string, y: string, i: nat, j: nat)
    requires i <= j <= |y|
    ensures (x + y)[|x| + i..|x| + j] == y[i..j]
  {
  }

  /** Where no match starts in what follows a prefix, none starts at the same place past the prefix. */
  lemma SplitMissShift(x: string, y: string, start: nat, p: nat, q: nat)
    requires start <= p < |y| && MatchAt(y, p).None? && q == p + 1
    ensures SplitFrom(x + y, |x| + start, |x| + p) == SplitFrom(x + y, |x| + start, |x| + q)
  {
    MatchAtShift(x, y, p);
    assert MatchAt(x + y, |x| + p).None?;
    SplitMiss(x + y, |x| + start, |x| + p, |x| + q);
  }

  /** Where a match starts in what follows a prefix, the same match starts past the prefix. */
  lemma SplitHitShift(x: string, y: string, start: nat, p: nat, e: nat)
    requires start <= p < |y| && MatchAt(y, p).Some? && MatchAt(y, p).value.end == e
    ensures SplitFrom(x + y, |x| + start, |x| + p) == [y[start..p], y[p..e]] + SplitFrom(x + y, |x| + e, |x| + e)
  {
    MatchAtShift(x, y, p);
    SliceShift(x, y, start, p);
    SliceShift(x, y, p, e);
    SplitHit(x + y, |x| + start, |x| + p, |x| + e, y[start..p], y[p..e]);
  }

  /** The split past a prefix is the split of what follows it. */
  lemma {:induction false} SplitShift(x: string, y: string, start: nat, p: nat)
    requires start <= p <= |y|
    ensures SplitFrom(x + y, |x| + start, |x| + p) == SplitFrom(y, start, p)
    decreases |y| - p
  {
    var s := x + y;
    var d := |x|;
    if p == |y| {
      SliceShift(x, y, start, |y|);
      SplitEnd(y, start);
      SplitEnd(s, d + start);
      assert |s| == d + p;
      assert s[d + start..] == s[d + start..d + p] && y[start..] == y[start..p];
    } else if MatchAt(y, p).Some? {
      var e := MatchAt(y, p).value.end;
      SplitShift(x, y, e, e);
      SplitHit(y, start, p, e, y[start..p], y[p..e]);
      SplitHitShift(x, y, start, p, e);
    } else {
      var q := p + 1;
      SplitShift(x, y, start, q);
      SplitMiss(y, start, p, q);
      SplitMissShift(x, y, start, p, q);
    }
  }

  /**
   * Text that begins with inert text followed by a match splits into the
   * inert text, the matched part, and the split of the rest.
   */
  lemma PartsAfterMatch(a: string, m: string, c: string)
    requires Inert(a)
    requires MatchAt(a + m + c, |a|).Some? && MatchAt(a + m + c, |a|).value.end == |a| + |m|
    ensures Parts(a + m + c) == [a, m] + Parts(c)
  {
    var s := a + m + c;
    var e := |a| + |m|;
    forall k | 0 <= k < |a| ensures s[k] !in {'*', '`', '['} {
      assert s[k] == a[k];
    }
    SplitSkips(s, 0, 0, |a|);
    assert SplitFrom(s, 0, |a|) == [s[0..|a|], s[|a|..e]] + SplitFrom(s, e, e);
    assert s[0..|a|] == a && s[|a|..e] == m;
    PartsShift(a + m, c);
  }

  /** Splitting resumed right after a prefix is splitting what follows it. */
  lemma PartsShift(x: string, y: string)
    ensures SplitFrom(x + y, |x|, |x|) == Parts(y)
  {
    SplitShift(x, y, 0, 0);
  }

  /** The runs of such text: the plain run of the inert text, the run of the match, then the runs of the rest. */
  lemma RunsAfterMatch(a: string, m: string, c: string)
    requires Inert(a)
    requires MatchAt(a + m + c, |a|).Some? && MatchAt(a + m + c, |a|).value.end == |a| + |m|
    ensures Runs(a + m + c) == PlainRuns(a) + [Classify(m)] + Runs(c)
  {
    PartsAfterMatch(a, m, c);
    RunsOfAppend([a, m], Parts(c));
    assert [a, m][..1] == [a] && [a][..0] == [];
    if a != [] {
      assert a[0] !in {'*', '`', '['};
      assert Classify(a) == Run(a, Plain);
    }
    assert RunsOf([a]) == PlainRuns(a);
    assert m != [];
    assert RunsOf([a, m]) == PlainRuns(a) + [Classify(m)];
  }

  /** Inert text is one plain run, or none when empty. */
  lemma InertRuns(a: string)
    requires Inert(a)
    ensures Runs(a) == PlainRuns(a)
  {
    PlainTextOneRun(a);
  }

  /** The lazy search runs over text holding neither the target nor a newline. */
  lemma {:induction false} FindCharOver(s: string, i: nat, j: nat, c: char)
    requires i <= j < |s| && s[j] == c
    requires forall k :: i <= k < j ==> s[k] != c && s[k] != '\n'
    ensures FindChar(s, i, c) == Some(j)
    decreases j - i
  {
    if i < j {
      FindCharOver(s, i + 1, j, c);
    }
  }

  lemma {:induction false} FindPairOver(s: string, i: nat, j: nat)
    requires i <= j && j + 1 < |s| && s[j] == '*' && s[j + 1] == '*'
    requires forall k :: i <= k < j ==> s[k] != '*' && s[k] != '\n'
    ensures FindPair(s, i) == Some(j)
    decreases j - i
  {
    if i < j {
      FindPairOver(s, i + 1, j);
    }
  }

  /** `**b**` after inert text, with no `*` or newline inside, is one bold run of b. */
  lemma BoldAfterText(a: string, b: string, c: string)
    requires Inert(a) && '*' !in b && '\n' !in b
    ensures Runs(a + ("**" + b + "**") + c) == PlainRuns(a) + [Run(b, Bold)] + Runs(c)
  {
    var m := "**" + b + "**";
    var s := a + m + c;
    var p := |a|;
    var e := p + |m|;
    assert s[p] == '*' && s[p + 1] == '*' && s[e - 2] == '*' && s[e - 1] == '*';
    forall k | p + 2 <= k < e - 2 ensures s[k] != '*' && s[k] != '\n' {
      assert s[k] == b[k - p - 2];
    }
    FindPairOver(s, p + 2, e - 2);
    BoldPartRun(s, p, e);
    assert s[p..e] == m && s[p + 2..e - 2] == b;
    assert Classify(m) == Run(b, Bold);
    RunsAfterMatch(a, m, c);
  }

  /** `*b*` after inert text, b non-empty with no `*` or newline, is one italic run of b. */
  lemma ItalicAfterText(a: string, b: string, c: string)
    requires Inert(a) && b != [] && '*' !in b && '\n' !in b
    ensures Runs(a + ("*" + b + "*") + c) == PlainRuns(a) + [Run(b, Italic)] + Runs(c)
  {
    var m := "*" + b + "*";
    var s := a + m + c;
    var p := |a|;
    var e := p + |m|;
    assert s[p] == '*' && s[e - 1] == '*' && s[p + 1] == b[0];
    assert b[0] in b;
    forall k | p + 1 <= k < e - 1 ensures s[k] != '*' && s[k] != '\n' {
      assert s[k] == b[k - p - 1];
    }
    FindCharOver(s, p + 1, e - 1, '*');
    ItalicPartRun(s, p, e);
    assert s[p..e] == m && s[p + 1..e - 1] == b;
    assert Classify(m) == Run(b, Italic);
    RunsAfterMatch(a, m, c);
  }

  /** `` `b` `` after inert text, with no backtick or newline inside, is one 10pt Courier New run of b. */
  lemma CodeAfterText(a: string, b: string, c: string)
    requires Inert(a) && '`' !in b && '\n' !in b
    ensures Runs(a + ("`" + b + "`") + c) == PlainRuns(a) + [Run(b, Mono(10))] + Runs(c)
  {
    var m := "`" + b + "`";
    var s := a + m + c;
    var p := |a|;
    var e := p + |m|;
    assert s[p] == '`' && s[e - 1] == '`';
    forall k | p + 1 <= k < e - 1 ensures s[k] != '`' && s[k] != '\n' {
      assert s[k] == b[k - p - 1];
    }
    FindCharOver(s, p + 1, e - 1, '`');
    CodePartRun(s, p, e);
    assert s[p..e] == m && s[p + 1..e - 1] == b;
    assert Classify(m) == Run(b, Mono(10));
    RunsAfterMatch(a, m, c);
  }

  /** The lazy label search runs over text holding neither `]` nor a newline. */
  lemma {:induction false} LinkFromOver(s: string, i: nat, j: nat)
    requires i <= j <= |s|
    requires forall k :: i <= k < j ==> s[k] != ']' && s[k] != '\n'
    ensures LinkFrom(s, i) == LinkFrom(s, j)
    decreases j - i
  {
    if i < j {
      LinkFromOver(s, i + 1, j);
    }
  }

  /** Where the brackets, the parentheses, the label and the target of a written link lie. */
  lemma LinkLayout(a: string, l: string, u: string, c: string)
    requires ']' !in l && '\n' !in l && ')' !in u && '\n' !in u
    ensures var m := "[" + l + "](" + u + ")"; var s := a + m + c;
      var p := |a|; var x := p + 1 + |l|; var y := x + 2 + |u|;
      && y < |s| && s[p] == '[' && s[x] == ']' && s[x + 1] == '(' && s[y] == ')'
      && (forall k :: p + 1 <= k < x ==> s[k] != ']' && s[k] != '\n')
      && (forall k :: x + 2 <= k < y ==> s[k] != ')' && s[k] != '\n')
      && s[p..y + 1] == m && s[p + 1..x] == l
  {
    var m := "[" + l + "](" + u + ")";
    var s := a + m + c;
    var p := |a|;
    var x := p + 1 + |l|;
    var y := x + 2 + |u|;
    assert s[p] == '[' && s[x] == ']' && s[x + 1] == '(' && s[y] == ')';
    forall k | p + 1 <= k < x ensures s[k] != ']' && s[k] != '\n' {
      assert s[k] == l[k - p - 1];
    }
    forall k | x + 2 <= k < y ensures s[k] != ')' && s[k] != '\n' {
      assert s[k] == u[k - x - 2];
    }
    assert s[p..y + 1] == m;
    assert s[p + 1..x] == l;
  }

  /**
   * A `[` at p, then a label free of `]` and newlines up to the `](` at x,
   * then a target free of `)` and newlines up to the `)` at y: the pattern
   * matches a link there, ending after y, whose run is the label.
   */
  lemma LinkAt(s: string, p: nat, x: nat, y: nat)
    requires p < x && x + 2 <= y < |s|
    requires s[p] == '[' && s[x] == ']' && s[x + 1] == '(' && s[y] == ')'
    requires forall k :: p + 1 <= k < x ==> s[k] != ']' && s[k] != '\n'
    requires forall k :: x + 2 <= k < y ==> s[k] != ')' && s[k] != '\n'
    ensures MatchAt(s, p).Some? && MatchAt(s, p).value.end == y + 1
    ensures Classify(s[p..y + 1]) == Run(s[p + 1..x], Link)
  {
    LinkFromOver(s, p + 1, x);
    FindCharOver(s, x + 2, y, ')');
    assert LinkFrom(s, p + 1) == Some((x, y));
    LinkPartRun(s, p, x, y);
  }

  /**
   * `[l](u)` after inert text, with no `]` or newline in the label and no
   * `)` or newline in the target, is one link run of the label alone.
   */
  lemma LinkAfterText(a: string, l: string, u: string, c: string)
    requires Inert(a) && ']' !in l && '\n' !in l && ')' !in u && '\n' !in u
    ensures Runs(a + ("[" + l + "](" + u + ")") + c) == PlainRuns(a) + [Run(l, Link)] + Runs(c)
  {
    var m := "[" + l + "](" + u + ")";
    var p := |a|;
    var x := p + 1 + |l|;
    var y := x + 2 + |u|;
    LinkLayout(a, l, u, c);
    LinkAt(a + m + c, p, x, y);
    assert Classify(m) == Run(l, Link);
    RunsAfterMatch(a, m, c);
  }

  // ---------------------------------------------------------------------
  // Unmatched parts
  // ---------------------------------------------------------------------

  /** A search finds c when c stands at j and no newline comes before it. */
  lemma {:induction false} FindCharReaches(s: string, i: nat, j: nat, c: char)
    requires i <= j < |s| && s[j] == c
    requires forall k :: i <= k < j ==> s[k] != '\n'
    ensures FindChar(s, i, c).Some?
    decreases j - i
  {
    if s[i] != c && i < j {
      FindCharReaches(s, i + 1, j, c);
    }
  }

  /** The position a search finds is the first c, and no newline comes before it. */
  lemma {:induction false} FindCharFirst(s: string, i: nat, c: char)
    requires i <= |s| && FindChar(s, i, c).Some?
    ensures forall k :: i <= k < FindChar(s, i, c).value ==> s[k] != c && s[k] != '\n'
    decreases |s| - i
  {
    if s[i] != c {
      FindCharFirst(s, i + 1, c);
    }
  }

  /** A link the lazy label finds in a slice is found, moved by the slice's start, in the whole text. */
  lemma LinkFromUnslice(s: string, o: nat, part: string)
    requires o + |part| <= |s| && part == s[o..o + |part|] && 1 <= |part|
    requires LinkFrom(part, 1).Some?
    ensures LinkFrom(s, o + 1).Some?
  {
    var (x, y) := LinkFrom(part, 1).value;
    LinkFromFirst(part, 1);
    ClosesLinkUnslice(s, o, part, x);
    OneLineUnslice(s, o, part, x);
    LinkFromFirst(s, o + 1);
  }

  /** A `](` that a `)` closes in a slice is one in the whole text. */
  lemma ClosesLinkUnslice(s: string, o: nat, part: string, x: nat)
    requires o + |part| <= |s| && part == s[o..o + |part|]
    requires ClosesLinkAt(part, x)
    ensures ClosesLinkAt(s, o + x)
  {
    var y := FindChar(part, x + 2, ')').value;
    FindCharFirst(part, x + 2, ')');
    assert forall k :: x <= k <= y ==> s[o + k] == part[k];
    FindCharOver(s, o + x + 2, o + y, ')');
  }

  /** A slice without a newline leaves none in the whole text. */
  lemma OneLineUnslice(s: string, o: nat, part: string, x: nat)
    requires o + |part| <= |s| && part == s[o..o + |part|] && x <= |part|
    requires OneLine(part, 1, x)
    ensures OneLine(s, o + 1, o + x)
  {
    assert forall k :: 1 <= k < x ==> s[o + k] == part[k];
  }

  /**
   * The run a one-line part where no match begins should give: a lone `*`
   * or backquote keeps its format and loses its text, a `[` with a `](` that
   * no link completes gives a run with no text, and anything else is plain
   * text as written.
   */
  function StrayRun(part: string): Run {
    if part == "*" then Run([], Italic)
    else if part == "`" then Run([], Mono(10))
    else if Opens(part, '[') && HasLinkMiddle(part) then Run([], Plain)
    else Run(part, Plain)
  }

  /**
   * The run of a part where no match of the pattern begins. Such a part is
   * never bold, and a part opening a link it cannot close gives an empty
   * plain run. On one line it is a plain run of itself, except a lone `*`
   * or backquote, which gives an empty italic or code run.
   */
  lemma UnmatchedRun(s: string, o: nat, part: string)
    requires o + |part| <= |s| && part == s[o..o + |part|] && part != []
    requires MatchAt(s, o).None?
    ensures Classify(part).format != Bold
    ensures Opens(part, '[') && HasLinkMiddle(part) ==> Classify(part) == Run([], Plain)
    ensures '\n' !in part ==> Classify(part) == StrayRun(part)
  {
    var n := |part|;
    assert s[o] == part[0];
    if OpensBold(part) {
      assert false;
    } else if Opens(part, '[') && LinkFrom(part, 1).Some? {
      LinkFromUnslice(s, o, part);
      assert false;
    } else if '\n' !in part && n >= 2 && Opens(part, '*') && Closes(part, '*') {
      AllOneLine(s, o, part);
      FindCharReaches(s, o + 1, o + n - 1, '*');
      assert false;
    } else if '\n' !in part && n >= 2 && Opens(part, '`') && Closes(part, '`') {
      AllOneLine(s, o, part);
      FindCharReaches(s, o + 1, o + n - 1, '`');
      assert false;
    }
  }

  /** A part holding no newline puts none in the text where it sits, and its last character stands there too. */
  lemma AllOneLine(s: string, o: nat, part: string)
    requires o + |part| <= |s| && part == s[o..o + |part|] && |part| >= 2 && '\n' !in part
    ensures forall k :: o + 1 <= k < o + |part| - 1 ==> s[k] != '\n'
    ensures s[o + |part| - 1] == part[|part| - 1]
  {
    forall k | o + 1 <= k < o + |part| - 1
      ensures s[k] != '\n'
    {
      assert s[k] == part[k - o];
    }
  }

  /** The k-th part sits in the text at its offset. */
  lemma PartSlice(parts: seq<string>, k: nat)
    requires k < |parts|
    ensures |Concat(parts[..k])| + |parts[k]| <= |Concat(parts)|
    ensures parts[k] == Concat(parts)[|Concat(parts[..k])|..|Concat(parts[..k])| + |parts[k]|]
  {
    assert parts == parts[..k + 1] + parts[k + 1..];
    ConcatAppend(parts[..k + 1], parts[k + 1..]);
    assert parts[..k + 1][..k] == parts[..k];
    assert Concat(parts[..k + 1]) == Concat(parts[..k]) + parts[k];
  }

  /**
   * The run of every non-empty unmatched part of the split, the complement
   * of `MatchRun`: never bold, an empty plain run for a link left unclosed,
   * and on one line the part itself as plain text unless it is a lone `*`
   * or backquote.
   */
  lemma UnmatchedPartRun(s: string, k: nat)
    requires k < |Parts(s)| && k % 2 == 0 && Parts(s)[k] != []
    ensures var part := Parts(s)[k];
      && Classify(part).format != Bold
      && (Opens(part, '[') && HasLinkMiddle(part) ==> Classify(part) == Run([], Plain))
      && ('\n' !in part ==> Classify(part) == StrayRun(part))
  {
    var parts := Parts(s);
    SplitFromAlternates(s, 0, 0);
    PartsCover(s);
    PartSlice(parts, k);
    var o := Offset(0, parts, k);
    assert PartAt(s, 0, o, false, parts[k]);
    assert MatchAt(s, o).None?;
    UnmatchedRun(s, o, parts[k]);
  }
}
