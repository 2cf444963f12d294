/**
 * The document rewriter at the end of readme2tex's `render`: every span the
 * scanner found is replaced by the markup of its image, working from the last
 * span to the first so that earlier offsets stay valid.
 *
 * The `<img>` tag itself (URL, alignment, size, cache-busting token) is an
 * abstract string per span; only the centering wrapper of block spans and the
 * splicing are modelled.
 */
module Rewriter {
  import opened Scanner

  const CenterOpen: string := "<p align=\"center\">"
  const CenterClose: string := "</p>"

  /** Where the image starts inside its markup. */
  function Lead(sp: Span): nat {
    if sp.isBlock then |CenterOpen| else 0
  }

  /** The replacement text of a span: its image, wrapped in a centering
      paragraph when the span is a block. */
  function Markup(sp: Span, img: string): string {
    if sp.isBlock then CenterOpen + img + CenterClose else img
  }

  /** The image sits unchanged inside its markup, between the opening and
      closing tags of the centering paragraph for a block span and alone
      for an inline one. */
  lemma MarkupWraps(sp: Span, img: string)
    ensures var r := Markup(sp, img);
            && |r| == Lead(sp) + |img| + (if sp.isBlock then |CenterClose| else 0)
            && r[Lead(sp)..Lead(sp) + |img|] == img
            && r[..Lead(sp)] == (if sp.isBlock then CenterOpen else "")
            && r[Lead(sp) + |img|..] == (if sp.isBlock then CenterClose else "")
  {
  }

  /** The rewriter's input: spans in document order that do not overlap and
      lie inside the content, one replacement (an image, or its markup) per
      span. */
  predicate Fits(content: string, spans: seq<Span>, reps: seq<string>) {
    && Ordered(spans)
    && |reps| == |spans|
    && (forall i :: 0 <= i < |spans| ==> spans[i].end <= |content|)
  }

  /** The markup of every span, in order. */
  function Markups(spans: seq<Span>, imgs: seq<string>): (ms: seq<string>)
    requires |imgs| == |spans|
    ensures |ms| == |spans|
  {
    seq(|spans|, k requires 0 <= k < |spans| => Markup(spans[k], imgs[k]))
  }

  /** The sort key of the rewriter, `(start, end)`, compared as Python
      compares tuples. */
  predicate KeyBefore(a: Span, b: Span) {
    a.start < b.start || (a.start == b.start && a.end < b.end)
  }

  /** Spans in scanner order are already strictly sorted by `(start, end)`,
      so sorting them changes nothing and reversing the sorted list visits
      them from the last to the first. */
  lemma OrderedIsSorted(spans: seq<Span>)
    requires Ordered(spans)
    ensures forall i, j :: 0 <= i < j < |spans| ==> KeyBefore(spans[i], spans[j])
  {
    forall i, j | 0 <= i < j < |spans|
      ensures KeyBefore(spans[i], spans[j])
    {
      assert spans[i].start < spans[i].end <= spans[j].start;
    }
  }

  /** Where the untouched text before span `i` ends: its start, or the end
      of the content after the last span. */
  function Cut(content: string, spans: seq<Span>, i: nat): nat
    requires i <= |spans|
  {
    if i < |spans| then spans[i].start else |content|
  }

  /** The document read left to right from offset `c`, with spans `i..` in
      place of their markup: the untouched gap, the markup of span `i`, and
      the rest after its end. */
  function Interleave(content: string, spans: seq<Span>, ms: seq<string>, i: nat, c: nat): string
    requires Fits(content, spans, ms) && i <= |spans| && c <= Cut(content, spans, i)
    decreases |spans| - i
  {
    if i == |spans| then content[c..]
    else content[c..spans[i].start] + ms[i] + Interleave(content, spans, ms, i + 1, spans[i].end)
  }

  /** How much longer the markup of spans `i..j` is than the text it
      replaces (negative when shorter). */
  function Growth(spans: seq<Span>, ms: seq<string>, i: nat, j: nat): int
    requires |ms| == |spans| && j <= |spans|
    decreases j - i
  {
    if j <= i then 0
    else |ms[i]| - (spans[i].end - spans[i].start) + Growth(spans, ms, i + 1, j)
  }

  /** Starting the left-to-right reading earlier only prepends untouched
      text. */
  lemma InterleaveShift(content: string, spans: seq<Span>, ms: seq<string>, i: nat, c: nat)
    requires Fits(content, spans, ms) && i <= |spans| && c <= Cut(content, spans, i)
    ensures Interleave(content, spans, ms, i, c)
            == content[c..Cut(content, spans, i)] + Interleave(content, spans, ms, i, Cut(content, spans, i))
  {
    if i < |spans| {
      assert content[c..spans[i].start] == content[c..spans[i].start] + content[spans[i].start..spans[i].start];
    } else {
      assert content[c..] == content[c..|content|] + content[|content|..];
    }
  }

  /** The rewriting loop of `render`: the spans, taken in descending
      `(start, end)` order, are each replaced by their markup in the text
      rewritten so far. The result is the left-to-right interleaving of
      untouched gaps and markups. */
  method MakeReplacements(content: string, equations: seq<Span>, imgs: seq<string>) returns (rewritten: string)
    requires Fits(content, equations, imgs)
    ensures rewritten == Interleave(content, equations, Markups(equations, imgs), 0, 0)
  {
    ghost var ms := Markups(equations, imgs);
    rewritten := content;
    var i := |equations|;
    while i > 0
      invariant 0 <= i <= |equations|
      invariant rewritten == content[..Cut(content, equations, i)] + Interleave(content, equations, ms, i, Cut(content, equations, i))
    {
      i := i - 1;
      var sp := equations[i];
      SpliceStep(content, equations, ms, i, rewritten);
      assert ms[i] == Markup(sp, imgs[i]);
      rewritten := rewritten[..sp.start] + Markup(sp, imgs[i]) + rewritten[sp.end..];
    }
    InterleaveShift(content, equations, ms, 0, 0);
  }

  /** One splice of the loop, replacing span `i` in a text whose spans after
      `i` are already replaced. */
  lemma SpliceStep(content: string, spans: seq<Span>, ms: seq<string>, i: nat, text: string)
    requires Fits(content, spans, ms) && i < |spans|
    requires text == content[..Cut(content, spans, i + 1)] + Interleave(content, spans, ms, i + 1, Cut(content, spans, i + 1))
    ensures spans[i].end <= |text|
    ensures text[..spans[i].start] + ms[i] + text[spans[i].end..]
            == content[..spans[i].start] + Interleave(content, spans, ms, i, spans[i].start)
  {
    var s, e, cut := spans[i].start, spans[i].end, Cut(content, spans, i + 1);
    var m := ms[i];
    var rest := Interleave(content, spans, ms, i + 1, cut);
    var tail := Interleave(content, spans, ms, i + 1, e);
    assert e <= cut;
    InterleaveShift(content, spans, ms, i + 1, e);
    SplitAt(content[..cut], rest, s);
    SplitAt(content[..cut], rest, e);
    assert content[..cut][..s] == content[..s];
    assert content[..cut][e..] == content[e..cut];
    assert Interleave(content, spans, ms, i, s) == content[s..s] + m + tail;
    assert content[s..s] + m + tail == m + tail;
  }

  /** Cutting a concatenation inside its first part. */
  lemma SplitAt(a: string, b: string, k: nat)
    requires k <= |a|
    ensures (a + b)[..k] == a[..k] && (a + b)[k..] == a[k..] + b
  {
  }

  /** Where the untouched text before span `j` begins, reading from offset
      `c` at span `i`. */
  function Prev(spans: seq<Span>, i: nat, c: nat, j: nat): nat
    requires i <= j <= |spans|
  {
    if j == i then c else spans[j - 1].end
  }

  /** The length of the left-to-right reading from offset `c` at span `i`. */
  lemma {:induction false} InterleaveLength(content: string, spans: seq<Span>, ms: seq<string>, i: nat, c: nat)
    requires Fits(content, spans, ms) && i <= |spans| && c <= Cut(content, spans, i)
    ensures |Interleave(content, spans, ms, i, c)| == |content| - c + Growth(spans, ms, i, |spans|)
    decreases |spans| - i
  {
    if i < |spans| {
      InterleaveLength(content, spans, ms, i + 1, spans[i].end);
    }
  }

  /** `m` occurs in `r` at offset `p`. */
  predicate PlacedIn(r: string, p: int, m: string) {
    0 <= p && p + |m| <= |r| && r[p..p + |m|] == m
  }

  /** In the reading from offset `c` at span `i`, the markup of span `j`
      starts at the span's start, shifted by the growth of spans `i..j`. */
  lemma {:induction false} MarkupAt(content: string, spans: seq<Span>, ms: seq<string>, i: nat, c: nat, j: nat)
    requires Fits(content, spans, ms) && i <= j < |spans| && c <= Cut(content, spans, i)
    ensures PlacedIn(Interleave(content, spans, ms, i, c), spans[j].start - c + Growth(spans, ms, i, j), ms[j])
    decreases |spans| - i, 1
  {
    if j == i {
      MarkupFirst(content, spans, ms, i, c);
    } else {
      MarkupLater(content, spans, ms, i, c, j);
    }
  }

  lemma {:induction false} MarkupLater(content: string, spans: seq<Span>, ms: seq<string>, i: nat, c: nat, j: nat)
    requires Fits(content, spans, ms) && i < j < |spans| && c <= Cut(content, spans, i)
    ensures PlacedIn(Interleave(content, spans, ms, i, c), spans[j].start - c + Growth(spans, ms, i, j), ms[j])
    decreases |spans| - i, 0
  {
    MarkupAt(content, spans, ms, i + 1, spans[i].end, j);
    PlacedAfterMarkup(content, spans, ms, i, c, spans[j].start - spans[i].end + Growth(spans, ms, i + 1, j), ms[j]);
    GrowthStep(spans, ms, i, j);
  }

  lemma GrowthStep(spans: seq<Span>, ms: seq<string>, i: nat, j: nat)
    requires |ms| == |spans| && i < j <= |spans|
    ensures Growth(spans, ms, i, j) == |ms[i]| - (spans[i].end - spans[i].start) + Growth(spans, ms, i + 1, j)
  {
  }

  /** What is placed in the reading from the end of span `i` is placed in
      the reading from offset `c` at span `i`, after the gap and the markup
      of span `i`. */
  lemma PlacedAfterMarkup(content: string, spans: seq<Span>, ms: seq<string>, i: nat, c: nat, q: int, m: string)
    requires Fits(content, spans, ms) && i < |spans| && c <= Cut(content, spans, i)
    requires PlacedIn(Interleave(content, spans, ms, i + 1, spans[i].end), q, m)
    ensures PlacedIn(Interleave(content, spans, ms, i, c), spans[i].start - c + |ms[i]| + q, m)
  {
    var r' := Interleave(content, spans, ms, i + 1, spans[i].end);
    AfterMarkupSlice(content, spans, ms, i, c, q, q + |m|);
    ShiftPlaced(Interleave(content, spans, ms, i, c), r', spans[i].start - c + |ms[i]|, q, m);
  }

  /** What is placed in a stretch of `r'` is placed in `r` where that
      stretch is copied. */
  lemma ShiftPlaced(r: string, r': string, base: int, q: int, m: string)
    requires PlacedIn(r', q, m) && 0 <= base && base + (q + |m|) <= |r|
    requires r[base + q..base + (q + |m|)] == r'[q..q + |m|]
    ensures PlacedIn(r, base + q, m)
  {
  }

  /** The markup of span `i` follows the gap before it. */
  lemma MarkupFirst(content: string, spans: seq<Span>, ms: seq<string>, i: nat, c: nat)
    requires Fits(content, spans, ms) && i < |spans| && c <= Cut(content, spans, i)
    ensures PlacedIn(Interleave(content, spans, ms, i, c), spans[i].start - c + Growth(spans, ms, i, i), ms[i])
  {
    var g := content[c..spans[i].start];
    var m := ms[i];
    var r' := Interleave(content, spans, ms, i + 1, spans[i].end);
    assert Growth(spans, ms, i, i) == 0;
    assert Interleave(content, spans, ms, i, c) == g + m + r';
    assert (g + m + r')[|g|..|g| + |m|] == m;
  }

  /** A stretch of the reading from the end of span `i`, seen inside the
      reading from offset `c` at span `i`. */
  lemma AfterMarkupSlice(content: string, spans: seq<Span>, ms: seq<string>, i: nat, c: nat, a: int, b: int)
    requires Fits(content, spans, ms) && i < |spans| && c <= Cut(content, spans, i)
    requires 0 <= a <= b <= |Interleave(content, spans, ms, i + 1, spans[i].end)|
    ensures var base := spans[i].start - c + |ms[i]|;
            base + b <= |Interleave(content, spans, ms, i, c)|
            && Interleave(content, spans, ms, i, c)[base + a..base + b] == Interleave(content, spans, ms, i + 1, spans[i].end)[a..b]
  {
    var g := content[c..spans[i].start];
    var m := ms[i];
    var r' := Interleave(content, spans, ms, i + 1, spans[i].end);
    assert Interleave(content, spans, ms, i, c) == (g + m) + r';
    assert ((g + m) + r')[|g + m| + a..|g + m| + b] == r'[a..b];
  }

  /** In the reading from offset `c` at span `i`, an untouched character `k`
      before span `j` sits at `k`, shifted by the growth of spans `i..j`. */
  lemma {:induction false} GapAt(content: string, spans: seq<Span>, ms: seq<string>, i: nat, c: nat, j: nat, k: nat)
    requires Fits(content, spans, ms) && i <= j <= |spans| && c <= Cut(content, spans, i)
    requires Prev(spans, i, c, j) <= k < Cut(content, spans, j)
    ensures CharAt(Interleave(content, spans, ms, i, c), k - c + Growth(spans, ms, i, j), content[k])
    decreases |spans| - i, 1
  {
    if j == i {
      GapFirst(content, spans, ms, i, c, k);
    } else {
      GapLater(content, spans, ms, i, c, j, k);
    }
  }

  /** `r` holds `ch` at offset `p`. */
  predicate CharAt(r: string, p: int, ch: char) {
    0 <= p < |r| && r[p] == ch
  }

  lemma {:induction false} GapLater(content: string, spans: seq<Span>, ms: seq<string>, i: nat, c: nat, j: nat, k: nat)
    requires Fits(content, spans, ms) && i < j <= |spans| && c <= Cut(content, spans, i)
    requires Prev(spans, i, c, j) <= k < Cut(content, spans, j)
    ensures CharAt(Interleave(content, spans, ms, i, c), k - c + Growth(spans, ms, i, j), content[k])
    decreases |spans| - i, 0
  {
    var e := spans[i].end;
    assert Prev(spans, i + 1, e, j) == Prev(spans, i, c, j);
    GapAt(content, spans, ms, i + 1, e, j, k);
    AfterMarkup(content, spans, ms, i, c, k - e + Growth(spans, ms, i + 1, j));
    GrowthStep(spans, ms, i, j);
  }


  /** The reading from offset `c` at span `i` starts with the untouched text
      up to span `i`. */
  lemma GapFirst(content: string, spans: seq<Span>, ms: seq<string>, i: nat, c: nat, k: nat)
    requires Fits(content, spans, ms) && i <= |spans| && c <= k < Cut(content, spans, i)
    ensures k - c < |Interleave(content, spans, ms, i, c)|
    ensures Interleave(content, spans, ms, i, c)[k - c] == content[k]
  {
    if i < |spans| {
      var g := content[c..spans[i].start];
      var rest := ms[i] + Interleave(content, spans, ms, i + 1, spans[i].end);
      assert Interleave(content, spans, ms, i, c) == g + rest;
      assert (g + rest)[k - c] == g[k - c];
    }
  }

  /** After the gap and the markup of span `i` comes the reading from the
      end of span `i`. */
  lemma AfterMarkup(content: string, spans: seq<Span>, ms: seq<string>, i: nat, c: nat, q: int)
    requires Fits(content, spans, ms) && i < |spans| && c <= Cut(content, spans, i)
    requires 0 <= q < |Interleave(content, spans, ms, i + 1, spans[i].end)|
    ensures var p := spans[i].start - c + |ms[i]| + q;
            p < |Interleave(content, spans, ms, i, c)|
            && Interleave(content, spans, ms, i, c)[p] == Interleave(content, spans, ms, i + 1, spans[i].end)[q]
  {
    var g := content[c..spans[i].start];
    var m := ms[i];
    var r' := Interleave(content, spans, ms, i + 1, spans[i].end);
    assert Interleave(content, spans, ms, i, c) == (g + m) + r';
    assert ((g + m) + r')[|g + m| + q] == r'[q];
  }

  /** The rewriter's promise about markup, for the whole document: the
      result is as long as the content plus the growth of all spans, and the
      markup of every span replaces exactly its `[start, end)` range, shifted
      by how much the earlier replacements grew the text. */
  lemma SpliceMarkups(content: string, spans: seq<Span>, ms: seq<string>)
    requires Fits(content, spans, ms)
    ensures |Interleave(content, spans, ms, 0, 0)| == |content| + Growth(spans, ms, 0, |spans|)
    ensures forall j :: 0 <= j < |spans| ==> MarkupPlaced(content, spans, ms, j)
  {
    if |spans| > 0 {
      assert spans[0].end <= |content|;
    }
    InterleaveLength(content, spans, ms, 0, 0);
    forall j | 0 <= j < |spans|
      ensures MarkupPlaced(content, spans, ms, j)
    {
      MarkupAt(content, spans, ms, 0, 0, j);
    }
  }

  /** The markup of span `j` is in the rewritten document at the span's
      start shifted by the growth of the spans before it. */
  predicate MarkupPlaced(content: string, spans: seq<Span>, ms: seq<string>, j: int)
    requires Fits(content, spans, ms) && 0 <= j < |spans|
  {
    PlacedIn(Interleave(content, spans, ms, 0, 0), spans[j].start + Growth(spans, ms, 0, j), ms[j])
  }

  /** The rewriter's promise about the rest of the document: every character
      outside all spans (the `j`-th gap runs from the end of span `j - 1` to
      the start of span `j`) is kept, in order, shifted by the growth of the
      spans before it. */
  lemma SpliceKeepsGaps(content: string, spans: seq<Span>, ms: seq<string>)
    requires Fits(content, spans, ms)
    ensures forall j, k :: InGap(content, spans, j, k) ==> KeptAt(content, spans, ms, j, k)
  {
    if |spans| > 0 {
      assert spans[0].end <= |content|;
    }
    forall j, k | InGap(content, spans, j, k)
      ensures KeptAt(content, spans, ms, j, k)
    {
      GapAt(content, spans, ms, 0, 0, j, k);
    }
  }

  /** Character `k` of the content lies in the `j`-th gap: after span
      `j - 1` (or at the beginning) and before span `j` (or the end). */
  predicate InGap(content: string, spans: seq<Span>, j: int, k: int) {
    0 <= j <= |spans| && Prev(spans, 0, 0, j) <= k < Cut(content, spans, j)
  }

  /** Character `k` of the `j`-th gap is in the rewritten document at its
      own offset shifted by the growth of the spans before it. */
  predicate KeptAt(content: string, spans: seq<Span>, ms: seq<string>, j: int, k: int)
    requires Fits(content, spans, ms) && InGap(content, spans, j, k)
  {
    CharAt(Interleave(content, spans, ms, 0, 0), k + Growth(spans, ms, 0, j), content[k])
  }

  /** Each span is inline and its image is its own text. */
  predicate SelfImages(content: string, spans: seq<Span>, imgs: seq<string>)
    requires Fits(content, spans, imgs)
  {
    forall i :: 0 <= i < |spans| ==> !spans[i].isBlock && imgs[i] == content[spans[i].start..spans[i].end]
  }

  /** Replacing every inline span by its own text gives back the document. */
  lemma SelfImagesRoundTrip(content: string, spans: seq<Span>, imgs: seq<string>)
    requires Fits(content, spans, imgs) && SelfImages(content, spans, imgs)
    ensures Interleave(content, spans, Markups(spans, imgs), 0, 0) == content
  {
    var ms := Markups(spans, imgs);
    assert forall i :: 0 <= i < |spans| ==> ms[i] == Markup(spans[i], imgs[i]) == imgs[i];
    if |spans| > 0 {
      assert spans[0].end <= |content|;
    }
    VerbatimRoundTrip(content, spans, ms, 0, 0);
  }

  /** Every replacement is the text of its own span. */
  predicate Verbatim(content: string, spans: seq<Span>, ms: seq<string>)
    requires Fits(content, spans, ms)
  {
    forall i :: 0 <= i < |spans| ==> ms[i] == content[spans[i].start..spans[i].end]
  }

  lemma {:induction false} VerbatimRoundTrip(content: string, spans: seq<Span>, ms: seq<string>, i: nat, c: nat)
    requires Fits(content, spans, ms) && Verbatim(content, spans, ms)
    requires i <= |spans| && c <= Cut(content, spans, i)
    ensures Interleave(content, spans, ms, i, c) == content[c..]
    decreases |spans| - i
  {
    if i < |spans| {
      var s, e := spans[i].start, spans[i].end;
      VerbatimRoundTrip(content, spans, ms, i + 1, e);
      assert ms[i] == content[s..e];
      assert Interleave(content, spans, ms, i, c) == content[c..s] + content[s..e] + content[e..];
      ThreeParts(content, c, s, e);
    }
  }

  lemma ThreeParts(s: string, a: nat, b: nat, c: nat)
    requires a <= b <= c <= |s|
    ensures s[a..] == s[a..b] + s[b..c] + s[c..]
  {
  }
}
