/** A stock optional value. */
module Wrappers {
  datatype Option<T> = None | Some(value: T)
}

/**
 * The few Python `str` operations the converter relies on, over ASCII:
 * `strip`, `startswith`/`endswith`, `in`, `replace`, `lower`/`upper`,
 * `split`/`join` on one separator character, and the slice `s[a:-b]`.
 */
module Text {

  /** Characters Python's `str.strip()` and the regex class `\s` treat as blank (ASCII only). */
  const Whitespace: set<char> := {' ', '\t', '\n', '\r', '\U{000B}', '\U{000C}'}

  /** The regex class `\d` (ASCII only). */
  const Digits: set<char> := {'0', '1', '2', '3', '4', '5', '6', '7', '8', '9'}

  /** Length of the longest prefix of `s` whose characters all lie in `cs`. */
  function Span(s: string, cs: set<char>): (n: nat)
    ensures n <= |s|
  {
    if s == [] || s[0] !in cs then 0 else 1 + Span(s[1..], cs)
  }

  /** The span is a prefix of `cs` characters that no further `cs` character extends. */
  lemma {:induction false} SpanMaximal(s: string, cs: set<char>)
    ensures forall k :: 0 <= k < Span(s, cs) ==> s[k] in cs
    ensures Span(s, cs) < |s| ==> s[Span(s, cs)] !in cs
  {
    if s != [] && s[0] in cs {
      SpanMaximal(s[1..], cs);
    }
  }

  /** Span finds exactly the run of `cs` characters that ends where the first other character stands. */
  lemma SpanIs(s: string, cs: set<char>, n: nat)
    requires n <= |s| && (forall k :: 0 <= k < n ==> s[k] in cs) && (n == |s| || s[n] !in cs)
    ensures Span(s, cs) == n
  {
    SpanMaximal(s, cs);
  }

  /** `s.lstrip()` */
  function TrimStart(s: string): string {
    s[Span(s, Whitespace)..]
  }

  /** `s.rstrip()` */
  function TrimEnd(s: string): (r: string)
    ensures |r| <= |s|
  {
    if s == [] || s[|s| - 1] !in Whitespace then s else TrimEnd(s[..|s| - 1])
  }

  /** `rstrip` keeps a prefix, ends on a non-blank character, and removes only blanks. */
  lemma {:induction false} TrimEndKeepsPrefix(s: string)
    ensures TrimEnd(s) == s[..|TrimEnd(s)|]
    ensures TrimEnd(s) == [] || TrimEnd(s)[|TrimEnd(s)| - 1] !in Whitespace
    ensures forall k :: |TrimEnd(s)| <= k < |s| ==> s[k] in Whitespace
  {
    if s != [] && s[|s| - 1] in Whitespace {
      TrimEndKeepsPrefix(s[..|s| - 1]);
    }
  }

  /** `s.strip()`: what remains once blanks are removed from both ends. */
  function Strip(s: string): (r: string)
    ensures |r| <= |s|
  {
    TrimEnd(TrimStart(s))
  }

  /**
   * Stripping gives the empty string exactly when every character is blank;
   * otherwise the result begins and ends with non-blank characters of `s`.
   */
  lemma StripFacts(s: string)
    ensures Strip(s) == [] <==> forall k :: 0 <= k < |s| ==> s[k] in Whitespace
    ensures Strip(s) != [] ==> Strip(s)[0] !in Whitespace && Strip(s)[|Strip(s)| - 1] !in Whitespace
    ensures forall c :: c in Strip(s) ==> c in s
  {
    var n := Span(s, Whitespace);
    var t := TrimStart(s);
    SpanMaximal(s, Whitespace);
    TrimEndKeepsPrefix(t);
    var r := TrimEnd(t);
    assert forall c :: c in r ==> c in t;
    if r == [] {
      assert n == |s|;
    } else {
      assert r[0] == t[0] == s[n];
    }
  }

  /** Stripping a string that starts with a non-blank character keeps that character first. */
  lemma StripKeepsFirst(s: string)
    requires s != [] && s[0] !in Whitespace
    ensures Strip(s) != [] && Strip(s)[0] == s[0]
  {
    assert Span(s, Whitespace) == 0;
    assert TrimStart(s) == s;
    TrimEndKeepsPrefix(s);
  }

  /** Stripping a string with no blank at either end leaves it as it is. */
  lemma StripUnpadded(s: string)
    requires s != [] && s[0] !in Whitespace && s[|s| - 1] !in Whitespace
    ensures Strip(s) == s
  {
    assert Span(s, Whitespace) == 0;
    assert TrimStart(s) == s;
  }

  /**
   * When blanks fill `s[..n]` and `s[n]`, `s[m]` are not blank, stripping
   * starts at `n` and keeps everything up to `m` at least.
   */
  lemma StripBetween(s: string, n: nat, m: nat)
    requires n <= m < |s|
    requires forall k :: 0 <= k < n ==> s[k] in Whitespace
    requires s[n] !in Whitespace && s[m] !in Whitespace
    ensures m - n < |Strip(s)| && n + |Strip(s)| <= |s| && Strip(s) == s[n..n + |Strip(s)|]
  {
    SpanIs(s, Whitespace, n);
    var t := s[n..];
    TrimEndKeepsPrefix(t);
    assert t[m - n] == s[m];
  }

  /** `s.startswith(p)` */
  predicate StartsWith(s: string, p: string) {
    |p| <= |s| && s[..|p|] == p
  }

  /** `s.replace(c, '')` */
  function RemoveAll(s: string, c: char): (r: string)
    ensures c !in r
    ensures |r| <= |s|
  {
    if s == [] then []
    else if s[0] == c then RemoveAll(s[1..], c)
    else [s[0]] + RemoveAll(s[1..], c)
  }

  /** `s.replace(c, d)` */
  function ReplaceAll(s: string, c: char, d: char): (r: string)
    ensures |r| == |s|
  {
    seq(|s|, k requires 0 <= k < |s| => if s[k] == c then d else s[k])
  }

  function LowerChar(c: char): char {
    if 'A' <= c <= 'Z' then (c as int + 32) as char else c
  }

  function UpperChar(c: char): char {
    if 'a' <= c <= 'z' then (c as int - 32) as char else c
  }

  /** `s.lower()` */
  function Lower(s: string): (r: string)
    ensures |r| == |s|
  {
    seq(|s|, k requires 0 <= k < |s| => LowerChar(s[k]))
  }

  /** `s.upper()` */
  function Upper(s: string): (r: string)
    ensures |r| == |s|
  {
    seq(|s|, k requires 0 <= k < |s| => UpperChar(s[k]))
  }

  /** Python's `s[front:-back]` for `back >= 1`: empty once the two ends cross. */
  function Slice(s: string, front: nat, back: nat): string {
    if front + back <= |s| then s[front..|s| - back] else []
  }

  /** `s.split(c)`: the pieces between occurrences of `c`, at least one of them. */
  function Split(s: string, c: char): (r: seq<string>)
    ensures |r| >= 1
    ensures forall k :: 0 <= k < |r| ==> c !in r[k]
  {
    if s == [] then [[]]
    else
      var rest := Split(s[1..], c);
      if s[0] == c then [[]] + rest else [[s[0]] + rest[0]] + rest[1..]
  }

  /** `c.join(pieces)` */
  function Join(pieces: seq<string>, c: char): string {
    if pieces == [] then []
    else if |pieces| == 1 then pieces[0]
    else pieces[0] + [c] + Join(pieces[1..], c)
  }

  /** Joining the pieces of a split gives back the original string. */
  lemma {:induction false} JoinSplit(s: string, c: char)
    ensures Join(Split(s, c), c) == s
  {
    if s != [] {
      var rest := Split(s[1..], c);
      JoinSplit(s[1..], c);
      if s[0] == c {
        assert Split(s, c) == [[]] + rest;
        assert ([[]] + rest)[1..] == rest;
      } else {
        var r := [[s[0]] + rest[0]] + rest[1..];
        assert Split(s, c) == r;
        if |rest| == 1 {
          assert Join(rest, c) == rest[0];
        } else {
          assert Join(rest, c) == rest[0] + [c] + Join(rest[1..], c);
          assert r[1..] == rest[1..];
        }
      }
    }
  }

  /** Splitting a join gives back the pieces, when no piece holds the separator. */
  lemma {:induction false} SplitJoin(pieces: seq<string>, c: char)
    requires |pieces| >= 1
    requires forall k :: 0 <= k < |pieces| ==> c !in pieces[k]
    ensures Split(Join(pieces, c), c) == pieces
    decreases |pieces|, |pieces[0]|
  {
    var p := pieces[0];
    if p == [] {
      if |pieces| > 1 {
        var tail := pieces[1..];
        SplitJoin(tail, c);
        var s := Join(pieces, c);
        assert s == [c] + Join(tail, c);
        assert s[1..] == Join(tail, c);
        assert Split(s, c) == [[]] + tail;
      }
    } else {
      var shorter := [p[1..]] + pieces[1..];
      assert forall k :: 1 <= k < |shorter| ==> shorter[k] == pieces[k];
      SplitJoin(shorter, c);
      var s := Join(pieces, c);
      if |pieces| == 1 {
        assert s == p;
        assert Join(shorter, c) == p[1..];
      } else {
        assert s == p + [c] + Join(pieces[1..], c);
        assert Join(shorter, c) == p[1..] + [c] + Join(pieces[1..], c);
      }
      assert s[0] == p[0] && s[1..] == Join(shorter, c);
      assert p[0] != c by { assert p[0] in pieces[0]; }
      var rest := Split(s[1..], c);
      assert rest == shorter;
      assert Split(s, c) == [[p[0]] + p[1..]] + pieces[1..];
      assert [p[0]] + p[1..] == p;
    }
  }

  /** A slice of a slice is a slice of the original. */
  lemma SliceOfSlice<T>(s: seq<T>, a: nat, b: nat, i: nat, j: nat)
    requires a <= b <= |s| && i <= j <= b - a
    ensures s[a..b][i..j] == s[a + i..a + j]
  {
    assert |s[a..b][i..j]| == |s[a + i..a + j]|;
    forall k | 0 <= k < j - i ensures s[a..b][i..j][k] == s[a + i..a + j][k] {
    }
  }

  function DigitChar(d: nat): char
    requires d < 10
  {
    ('0' as int + d) as char
  }

  /** Python's `str(n)` for a natural number. */
  function Decimal(n: nat): (r: string)
    ensures 1 <= |r|
    ensures n >= 10 ==> |r| >= 2
  {
    if n < 10 then [DigitChar(n)] else Decimal(n / 10) + [DigitChar(n % 10)]
  }
}
