/**
 * Style resolution: the converter's fixed table from markdown role to
 * preferred Word style name, and the lookup of a name against the style
 * catalog of the target document, with its chain of fallbacks.
 */
module Styles {
  import opened Wrappers
  import opened Text

  /** Markdown role -> preferred Word style name. */
  const StyleMap: map<string, string> := map[
    "h1" := "Heading 1",
    "h2" := "Heading 2",
    "h3" := "Heading 3",
    "h4" := "Heading 4",
    "h5" := "Heading 5",
    "h6" := "Heading 6",
    "body" := "Body Text",
    "paragraph" := "Normal",
    "bullet" := "List Bullet",
    "numbered" := "List Number",
    "code_block" := "Code",
    "quote" := "Quote",
    "intense_quote" := "Intense Quote"
  ]

  /** `style_map.get(key, 'Normal')` */
  function PreferredStyle(key: string): string {
    if key in StyleMap then StyleMap[key] else "Normal"
  }

  /** The role key `f'h{level}'` of a heading. */
  function HeadingKey(level: nat): string {
    "h" + Decimal(level)
  }

  /** Levels 1 to 6 name their own heading style; any other level falls back to Normal. */
  lemma HeadingStyleNames(level: nat)
    ensures 1 <= level <= 6 ==> PreferredStyle(HeadingKey(level)) == "Heading " + [DigitChar(level)]
    ensures (level == 0 || level > 6) ==> PreferredStyle(HeadingKey(level)) == "Normal"
  {
    var key := HeadingKey(level);
    if level >= 10 {
      assert |key| >= 3 && key[0] == 'h';
      assert forall k :: k in StyleMap ==> |k| == 2 || k[0] != 'h';
    } else {
      assert key == ['h', DigitChar(level)];
    }
  }

  /** The spellings tried, in order, when the preferred name is missing. */
  function Variations(name: string): seq<string> {
    [RemoveAll(name, ' '), ReplaceAll(name, ' ', '_'), Lower(name), Upper(name)]
  }

  /** The first candidate that the catalog holds, if any. */
  function FirstPresent(candidates: seq<string>, styles: set<string>): (r: Option<string>)
    ensures forall k :: 0 <= k < |candidates| && candidates[k] in styles &&
                        (forall j :: 0 <= j < k ==> candidates[j] !in styles)
                        ==> r == Some(candidates[k])
    ensures (forall k :: 0 <= k < |candidates| ==> candidates[k] !in styles) ==> r == None
  {
    if candidates == [] then None
    else if candidates[0] in styles then Some(candidates[0])
    else FirstPresent(candidates[1..], styles)
  }

  /**
   * `get_style_or_fallback`: the preferred name if the catalog has it, else
   * the first variation it has, else the fallback if it has that, else Normal.
   */
  function ResolveStyle(styles: set<string>, preferred: string, fallback: string): (r: string)
    ensures r in styles || r == "Normal"
    ensures preferred in styles ==> r == preferred
  {
    if preferred in styles then preferred
    else match FirstPresent(Variations(preferred), styles)
      case Some(v) => v
      case None => if fallback in styles then fallback else "Normal"
  }

  /** The whole fallback chain, step by step, as the source orders it. */
  lemma ResolveCascade(styles: set<string>, preferred: string, fallback: string)
    ensures ResolveStyle(styles, preferred, fallback) ==
      if preferred in styles then preferred
      else if RemoveAll(preferred, ' ') in styles then RemoveAll(preferred, ' ')
      else if ReplaceAll(preferred, ' ', '_') in styles then ReplaceAll(preferred, ' ', '_')
      else if Lower(preferred) in styles then Lower(preferred)
      else if Upper(preferred) in styles then Upper(preferred)
      else if fallback in styles then fallback
      else "Normal"
  {
    var v := Variations(preferred);
    if preferred !in styles {
      if v[0] in styles {
      } else if v[1] in styles {
      } else if v[2] in styles {
      } else if v[3] in styles {
      } else {
        assert forall k :: 0 <= k < |v| ==> v[k] !in styles;
      }
    }
  }

  /** The result is always one of the names the resolver was asked about, or Normal. */
  lemma ResolveFromCandidates(styles: set<string>, preferred: string, fallback: string)
    ensures ResolveStyle(styles, preferred, fallback) in [preferred] + Variations(preferred) + [fallback, "Normal"]
  {
    ResolveCascade(styles, preferred, fallback);
  }

  /** A catalog with none of the names resolves everything to Normal (no template). */
  lemma ResolveWithoutCandidates(styles: set<string>, preferred: string, fallback: string)
    requires forall n :: n in [preferred] + Variations(preferred) + [fallback] ==> n !in styles
    ensures ResolveStyle(styles, preferred, fallback) == "Normal"
  {
    ResolveCascade(styles, preferred, fallback);
  }

  /** Resolving a name the catalog holds gives the name back, so resolution is idempotent. */
  lemma ResolveIdempotent(styles: set<string>, preferred: string, fallback: string)
    requires ResolveStyle(styles, preferred, fallback) in styles
    ensures ResolveStyle(styles, ResolveStyle(styles, preferred, fallback), fallback) ==
            ResolveStyle(styles, preferred, fallback)
  {
  }
}
