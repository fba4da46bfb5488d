/**
 * `extract_section` of app.py: one case-insensitive regular-expression search
 *
 *   (K1|...|Kn):([\s\S]*?)(?=(?:<stop label>|...):|$)
 *
 * written out as string functions. The search is leftmost, the alternatives
 * are tried in order, the lazy group stops at the first position where the
 * lookahead succeeds, and the captured text is stripped.
 */
module SectionExtractor {
  import opened Wrappers
  import opened PyText

  /** The boundary labels of the lookahead, in the order the pattern lists them. */
  const StopLabels: seq<string> := [
    "Impacts",
    "Results",
    "Areas_of Scientific Progress",
    "Knowledge Gaps",
    "Areas_of Consensus or Disagreement",
    "Actionable Insights to Mission Planners"
  ]

  /** `name` occurs at position `i` of `s`, compared case-insensitively, and is followed by ':'. */
  predicate LabelAt(s: string, i: nat, name: string) {
    && i + |name| < |s|
    && s[i + |name|] == ':'
    && forall k :: 0 <= k < |name| ==> Lower(s[i + k]) == Lower(name[k])
  }

  ghost predicate LabelAtAny(s: string, i: nat, names: seq<string>) {
    exists w :: w in names && LabelAt(s, i, w)
  }

  /** None of `names` contains ':' (true of every label the endpoint uses). */
  ghost predicate ColonFree(names: seq<string>) {
    forall w :: w in names ==> ':' !in w
  }

  /** The first alternative of `names`, in order, that matches at `i`: how the regex tries `K1|...|Kn`. */
  function FirstAlternative(s: string, i: nat, names: seq<string>): (r: Option<string>)
    ensures r.Some? <==> LabelAtAny(s, i, names)
    ensures r.Some? ==> r.value in names && LabelAt(s, i, r.value)
  {
    if names == [] then None
    else if LabelAt(s, i, names[0]) then Some(names[0])
    else FirstAlternative(s, i, names[1..])
  }

  /** The alternative returned is the first one of `names`, in order, that matches at `i`. */
  lemma {:induction false} FirstAlternativeInOrder(s: string, i: nat, names: seq<string>)
    requires FirstAlternative(s, i, names).Some?
    ensures exists k :: 0 <= k < |names| && names[k] == FirstAlternative(s, i, names).value
                        && forall m :: 0 <= m < k ==> !LabelAt(s, i, names[m])
  {
    if !LabelAt(s, i, names[0]) {
      FirstAlternativeInOrder(s, i, names[1..]);
      var k :| 0 <= k < |names[1..]| && names[1..][k] == FirstAlternative(s, i, names[1..]).value
               && forall m :: 0 <= m < k ==> !LabelAt(s, i, names[1..][m]);
      assert forall m :: 0 < m <= k ==> names[m] == names[1..][m - 1];
      assert names[k + 1] == FirstAlternative(s, i, names).value;
    } else {
      assert names[0] == FirstAlternative(s, i, names).value;
    }
  }

  /**
   * `re.search` for the opening `(K1|...|Kn):` from position `from` on: the
   * leftmost position where some alternative matches, with that alternative.
   * (The rest of the pattern always succeeds, since `$` matches at the end.)
   */
  function Search(s: string, names: seq<string>, from: nat): (r: Option<(nat, string)>)
    requires from <= |s|
    decreases |s| - from
    ensures r.None? <==> forall p: nat, w :: from <= p && w in names ==> !LabelAt(s, p, w)
    ensures r.Some? ==> from <= r.value.0 && r.value.1 in names && LabelAt(s, r.value.0, r.value.1)
    ensures r.Some? ==> forall q: nat, w :: from <= q < r.value.0 && w in names ==> !LabelAt(s, q, w)
  {
    if from == |s| then None
    else match FirstAlternative(s, from, names)
      case Some(w) => Some((from, w))
      case None => Search(s, names, from + 1)
  }

  /** Where `$` without MULTILINE matches: at the end of `s`, or just before a final newline. */
  predicate EndAnchorAt(s: string, e: nat) {
    e == |s| || (e + 1 == |s| && s[e] == '\n')
  }

  /** Where the lazy `([\s\S]*?)` started at `j` stops: the first position where the lookahead holds. */
  function SectionEnd(s: string, j: nat): (e: nat)
    requires j <= |s|
    decreases |s| - j
    ensures j <= e <= |s|
    ensures EndAnchorAt(s, e) || LabelAtAny(s, e, StopLabels)
    ensures forall q: nat, w :: j <= q < e && w in StopLabels ==> !LabelAt(s, q, w)
    ensures forall q: nat :: j <= q < e ==> !EndAnchorAt(s, q)
  {
    if EndAnchorAt(s, j) || FirstAlternative(s, j, StopLabels).Some? then j
    else SectionEnd(s, j + 1)
  }

  /**
   * The alternatives of the group `'|'.join(keywords)`: the keywords themselves,
   * except that joining no keywords gives the empty pattern, one alternative
   * that matches the empty string.
   */
  function Alternatives(keywords: seq<string>): (alts: seq<string>)
    ensures alts != []
    ensures keywords != [] ==> alts == keywords
    ensures keywords == [] ==> alts == [""]
  {
    if keywords == [] then [""] else keywords
  }

  /**
   * `extract_section(summary, keywords)`: the stripped text after the colon of
   * the leftmost `keyword:` up to the next stop label with its colon, or None.
   */
  function ExtractSection(summary: string, keywords: seq<string>): (r: Option<string>)
    ensures r.None? <==> forall p: nat, w :: w in Alternatives(keywords) ==> !LabelAt(summary, p, w)
    ensures r.Some? ==> IsTrimmed(r.value)
  {
    match Search(summary, Alternatives(keywords), 0)
    case None => None
    case Some((p, w)) =>
      var start := p + |w| + 1;
      Some(Strip(summary[start..SectionEnd(summary, start)]))
  }

  /**
   * With no keywords the pattern opens with `():`, which matches at any ':' of
   * the summary, so a section is found exactly when the summary holds a colon.
   */
  lemma NoKeywordsMatchAnyColon(s: string)
    ensures ExtractSection(s, []).None? <==> ':' !in s
  {
    if ':' in s {
      var p :| 0 <= p < |s| && s[p] == ':';
      assert LabelAt(s, p, "");
    }
  }

  /** `e` is the first position from `j` on where a stop label with its colon begins, or the end of `s`. */
  ghost predicate FirstStopOrEnd(s: string, j: nat, e: nat) {
    && j <= e <= |s|
    && (e == |s| || LabelAtAny(s, e, StopLabels))
    && forall q: nat, w :: j <= q < e && w in StopLabels ==> !LabelAt(s, q, w)
  }

  /**
   * Two colon-free labels that both match at the same position have the same
   * length, so at most one alternative can match there and the order of the
   * alternatives does not change the captured text.
   */
  lemma SameLengthAtSamePosition(s: string, i: nat, v: string, w: string)
    requires ':' !in v && ':' !in w
    requires LabelAt(s, i, v) && LabelAt(s, i, w)
    ensures |v| == |w|
  {
    if |v| < |w| {
      ColonInLongerLabel(s, i, v, w);
    } else if |w| < |v| {
      ColonInLongerLabel(s, i, w, v);
    }
  }

  /** If a shorter label matches with its colon where a longer one also matches, the longer one holds a ':'. */
  lemma ColonInLongerLabel(s: string, i: nat, v: string, w: string)
    requires LabelAt(s, i, v) && LabelAt(s, i, w) && |v| < |w|
    ensures ':' in w
  {
    assert Lower(s[i + |v|]) == Lower(w[|v|]);
    assert w[|v|] == ':';
  }

  /** The search finds the leftmost colon-terminated keyword, with the length of the one stated. */
  lemma SearchFindsLeftmost(s: string, keywords: seq<string>, p: nat, w: string)
    requires ColonFree(keywords)
    requires w in keywords && LabelAt(s, p, w)
    requires forall q: nat, v :: q < p && v in keywords ==> !LabelAt(s, q, v)
    ensures Search(s, keywords, 0).Some?
    ensures Search(s, keywords, 0).value.0 == p && |Search(s, keywords, 0).value.1| == |w|
  {
    var (p', w') := Search(s, keywords, 0).value;
    SameLengthAtSamePosition(s, p, w, w');
  }

  /** The lazy group's end and "first stop label or end of text" capture the same stripped text. */
  lemma SectionEndAgrees(s: string, j: nat, e: nat)
    requires FirstStopOrEnd(s, j, e)
    ensures Strip(s[j..SectionEnd(s, j)]) == Strip(s[j..e])
  {
    var e' := SectionEnd(s, j);
    if e' < e {
      assert !LabelAtAny(s, e', StopLabels);
      // `$` stopped the group just before a final newline, and `strip()` removes that newline.
      assert e' + 1 == |s| && s[e'] == '\n';
      assert e == |s|;
      assert s[j..e] == s[j..e'] + ['\n'];
      StripDropsTrailingSpace(s[j..e'], '\n');
    }
  }

  /**
   * What `extract_section` returns, stated without the search: if the leftmost
   * colon-terminated keyword is `w` at `p`, the result is the stripped text from
   * just after its colon up to the first stop label with its colon, or the end.
   */
  lemma ExtractSectionSpec(s: string, keywords: seq<string>, p: nat, w: string, e: nat)
    requires ColonFree(keywords)
    requires w in keywords && LabelAt(s, p, w)
    requires forall q: nat, v :: q < p && v in keywords ==> !LabelAt(s, q, v)
    requires FirstStopOrEnd(s, p + |w| + 1, e)
    ensures ExtractSection(s, keywords) == Some(Strip(s[p + |w| + 1..e]))
  {
    assert Alternatives(keywords) == keywords;
    SearchFindsLeftmost(s, keywords, p, w);
    SectionEndAgrees(s, p + |w| + 1, e);
  }

  /**
   * The extracted text is a slice of the summary that starts after the
   * keyword's colon and holds no stop label followed by a colon.
   */
  lemma SectionExcludesStopLabels(s: string, keywords: seq<string>)
    requires ExtractSection(s, keywords).Some?
    ensures exists a, b :: 0 < a <= b <= |s| && ExtractSection(s, keywords).value == s[a..b]
    ensures forall q: nat, w :: w in StopLabels ==> !LabelAt(ExtractSection(s, keywords).value, q, w)
  {
    var (p, w) := Search(s, Alternatives(keywords), 0).value;
    var j := p + |w| + 1;
    var e := SectionEnd(s, j);
    assert ExtractSection(s, keywords).value == Strip(s[j..e]);
    StrippedSliceHasNoStop(s, j, e);
  }

  /** Stripping a stretch of `s` that holds no stop label leaves a slice of `s` with none either. */
  lemma StrippedSliceHasNoStop(s: string, j: nat, e: nat)
    requires 0 < j <= e <= |s|
    requires forall q: nat, w :: j <= q < e && w in StopLabels ==> !LabelAt(s, q, w)
    ensures exists a, b :: j <= a <= b <= e && Strip(s[j..e]) == s[a..b]
    ensures forall q: nat, w :: w in StopLabels ==> !LabelAt(Strip(s[j..e]), q, w)
  {
    var t := s[j..e];
    var r := Strip(t);
    var a := j + LeadingSpace(t);
    assert r == t[LeadingSpace(t)..LeadingSpace(t) + |r|];
    assert forall k :: 0 <= k < |r| ==> r[k] == s[a + k];
    assert r == s[a..a + |r|];
    forall q: nat, v | v in StopLabels
      ensures !LabelAt(r, q, v)
    {
      if LabelAt(r, q, v) {
        SliceLabel(s, a, a + |r|, q, v);
      }
    }
  }

  /** A label found in the slice `s[a..b]` is a label of `s` itself. */
  lemma SliceLabel(s: string, a: nat, b: nat, q: nat, v: string)
    requires a <= b <= |s|
    requires LabelAt(s[a..b], q, v)
    ensures LabelAt(s, a + q, v) && a + q + |v| < b
  {
    var t := s[a..b];
    forall k | 0 <= k < |v|
      ensures Lower(s[a + q + k]) == Lower(v[k])
    {
      assert t[q + k] == s[a + q + k];
    }
    assert t[q + |v|] == s[a + q + |v|];
  }
}
