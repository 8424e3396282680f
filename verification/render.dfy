/**
 * `renderInputWithTags`: the read-only projection drawn over the hidden input.
 * Unfocused with a result, it is the result text; otherwise the raw text is
 * split on `/(\[[^\]]+\])/` and every part that looks like `[...]` is drawn
 * as a chip showing the text between the brackets.
 */
module Render {
  import opened Wrappers
  import opened JsString
  import opened Formula

  /** The language of `\[[^\]]+\]`: an opening bracket, one or more characters other than `]`, a closing bracket. */
  predicate IsBracketSpan(t: string) {
    |t| >= 3 && t[0] == '[' && t[|t| - 1] == ']' && forall m :: 0 < m < |t| - 1 ==> t[m] != ']'
  }

  /** The first index at or after `k` holding `]`. */
  function FindClose(s: string, k: nat): (r: Option<nat>)
    requires k <= |s|
    decreases |s| - k
    ensures r.Some? ==> k <= r.value < |s| && s[r.value] == ']' && forall m :: k <= m < r.value ==> s[m] != ']'
    ensures r.None? ==> forall m :: k <= m < |s| ==> s[m] != ']'
  {
    if k == |s| then None
    else if s[k] == ']' then Some(k)
    else FindClose(s, k + 1)
  }

  /**
   * The end (exclusive) of the match of `\[[^\]]+\]` anchored at `q`, if any.
   * The greedy class cannot cross a `]`, so the match ends at the first `]`
   * after the opening bracket and needs one character before it.
   */
  function MatchAt(s: string, q: nat): (r: Option<nat>)
    requires q < |s|
    ensures r.Some? ==> q < r.value <= |s| && IsBracketSpan(s[q..r.value])
    ensures r.None? ==> forall e :: q < e <= |s| ==> !IsBracketSpan(s[q..e])
  {
    if s[q] != '[' || q + 1 >= |s| || s[q + 1] == ']' then None
    else
      match FindClose(s, q + 2)
      case Some(j) => Some(j + 1)
      case None =>
        assert forall e :: q + 3 <= e <= |s| ==> s[q..e][e - q - 1] == s[e - 1];
        None
  }

  /** The concatenation of a sequence of strings. */
  function Concat(parts: seq<string>): string
    decreases |parts|
  {
    if |parts| == 0 then "" else parts[0] + Concat(parts[1..])
  }

  lemma ConcatPair(a: string, b: string, rest: seq<string>)
    ensures Concat([a, b] + rest) == a + b + Concat(rest)
  {
    assert ([a, b] + rest)[1..] == [b] + rest;
    assert ([b] + rest)[1..] == rest;
  }

  /**
   * The JavaScript `split` loop for a regular expression with one capturing
   * group around the whole pattern: `p` is the start of the pending piece,
   * `q` the next position tried. The pieces alternate between unmatched text
   * and matched spans, and together they spell `s[p..]`.
   */
  function SplitFrom(s: string, p: nat, q: nat): (parts: seq<string>)
    requires p <= q <= |s|
    decreases |s| - q
    ensures |parts| % 2 == 1
    ensures Concat(parts) == s[p..]
    ensures forall i :: 0 <= i < |parts| && i % 2 == 1 ==> IsBracketSpan(parts[i])
  {
    if q == |s| then
      assert Concat([s[p..]]) == s[p..] + Concat([]);
      [s[p..]]
    else
      match MatchAt(s, q)
      case Some(e) =>
        var rest := SplitFrom(s, e, e);
        ConcatPair(s[p..q], s[q..e], rest);
        assert s[p..] == s[p..q] + s[q..e] + s[e..];
        var parts := [s[p..q], s[q..e]] + rest;
        assert forall i :: 2 <= i < |parts| ==> parts[i] == rest[i - 2];
        parts
      case None => SplitFrom(s, p, q + 1)
  }

  /** `s.split(/(\[[^\]]+\])/)`. */
  function SplitSpans(s: string): (parts: seq<string>)
    ensures |parts| % 2 == 1
    ensures Concat(parts) == s
    ensures forall i :: 0 <= i < |parts| && i % 2 == 1 ==> IsBracketSpan(parts[i])
  {
    SplitFrom(s, 0, 0)
  }

  /** No bracket span of `s` starts at a position in `[p, q)`. */
  ghost predicate NoSpanStartsIn(s: string, p: nat, q: nat) {
    forall j, e :: p <= j < q && j < e <= |s| ==> !IsBracketSpan(s[j..e])
  }

  /** `t` contains no bracket span anywhere. */
  ghost predicate SpanFree(t: string) {
    forall a, b :: 0 <= a < b <= |t| ==> !IsBracketSpan(t[a..b])
  }

  /**
   * The leftmost-match rule of the split: no bracket span starts at a
   * position of an unmatched piece, reading on into the text after it.
   */
  ghost predicate GapsStartNoSpan(parts: seq<string>) {
    forall i :: 0 <= i < |parts| && i % 2 == 0 ==> NoSpanStartsIn(Concat(parts[i..]), 0, |parts[i]|)
  }

  lemma NoSpanAt(s: string, p: nat, q: nat, j: int, e: int)
    requires p <= q <= |s| && NoSpanStartsIn(s, p, q)
    requires p <= j < q && j < e <= |s|
    ensures !IsBracketSpan(s[j..e])
  {
  }

  /** Dropping the text before `p` keeps the positions at which no span starts. */
  lemma ShiftNoSpan(s: string, p: nat, q: nat)
    requires p <= q <= |s| && NoSpanStartsIn(s, p, q)
    ensures NoSpanStartsIn(s[p..], 0, q - p)
  {
    forall j, e | 0 <= j < q - p && j < e <= |s| - p ensures !IsBracketSpan(s[p..][j..e]) {
      NoSpanAt(s, p, q, p + j, p + e);
      assert forall k :: 0 <= k < e - j ==> s[p..][j..e][k] == s[p + j..p + e][k];
      assert s[p..][j..e] == s[p + j..p + e];
    }
  }

  /** A piece at whose positions no span starts, even reading on into what follows, contains no span. */
  lemma GapIsSpanFree(gap: string, tail: string)
    requires NoSpanStartsIn(gap + tail, 0, |gap|)
    ensures SpanFree(gap)
  {
    forall a, b | 0 <= a < b <= |gap| ensures !IsBracketSpan(gap[a..b]) {
      NoSpanAt(gap + tail, 0, |gap|, a, b);
      assert forall k :: 0 <= k < b - a ==> gap[a..b][k] == (gap + tail)[a..b][k];
      assert gap[a..b] == (gap + tail)[a..b];
    }
  }

  /**
   * The split takes the leftmost match: when none starts between `p` and
   * `q`, none starts inside an unmatched piece of `SplitFrom(s, p, q)`.
   */
  lemma {:induction false} SplitFromLeftmost(s: string, p: nat, q: nat)
    requires p <= q <= |s| && NoSpanStartsIn(s, p, q)
    decreases |s| - q
    ensures GapsStartNoSpan(SplitFrom(s, p, q))
  {
    ShiftNoSpan(s, p, q);
    if q == |s| {
      var parts := [s[p..]];
      assert SplitFrom(s, p, q) == parts;
      assert parts[0..] == parts;
    } else {
      match MatchAt(s, q)
      case Some(e) =>
        var rest := SplitFrom(s, e, e);
        SplitFromLeftmost(s, e, e);
        assert SplitFrom(s, p, q) == [s[p..q], s[q..e]] + rest;
        PrependGap(s[p..q], s[q..e], rest);
      case None =>
        SplitFromLeftmost(s, p, q + 1);
        assert SplitFrom(s, p, q) == SplitFrom(s, p, q + 1);
    }
  }

  /** An unmatched piece at which no span starts, followed by a matched piece, keeps the leftmost-match rule. */
  lemma PrependGap(gap: string, span: string, rest: seq<string>)
    requires NoSpanStartsIn(Concat([gap, span] + rest), 0, |gap|)
    requires GapsStartNoSpan(rest)
    ensures GapsStartNoSpan([gap, span] + rest)
  {
    var parts := [gap, span] + rest;
    forall i | 0 <= i < |parts| && i % 2 == 0 ensures NoSpanStartsIn(Concat(parts[i..]), 0, |parts[i]|) {
      if i == 0 {
        assert parts[0..] == parts;
      } else {
        assert parts[i..] == rest[i - 2..];
        assert parts[i] == rest[i - 2];
      }
    }
  }

  /**
   * The split takes every span at the leftmost position it can start: none
   * starts inside an unmatched piece, so no unmatched piece contains one.
   */
  lemma SplitSpansMissesNone(s: string)
    ensures GapsStartNoSpan(SplitSpans(s))
    ensures forall i :: 0 <= i < |SplitSpans(s)| && i % 2 == 0 ==> SpanFree(SplitSpans(s)[i])
  {
    SplitFromLeftmost(s, 0, 0);
    assert SplitSpans(s) == SplitFrom(s, 0, 0);
    var parts := SplitSpans(s);
    forall i | 0 <= i < |parts| && i % 2 == 0 ensures SpanFree(parts[i]) {
      assert parts[i..][0] == parts[i] && parts[i..][1..] == parts[i + 1..];
      assert Concat(parts[i..]) == parts[i] + Concat(parts[i + 1..]);
      GapIsSpanFree(parts[i], Concat(parts[i + 1..]));
    }
  }

  /**
   * The match starts at the first `[` it can: `[a[b]` is one span with
   * name `a[b`, not the text `[a` followed by the span `[b]`.
   */
  lemma LeftmostSpanWins(s: string)
    requires s == "[a[b]"
    ensures SplitSpans(s) == ["", "[a[b]", ""]
  {
    assert s[0] == '[' && s[1] != ']' && s[2] != ']' && s[3] != ']' && s[4] == ']';
    assert FindClose(s, 2) == Some(4);
    assert MatchAt(s, 0) == Some(5);
    assert SplitFrom(s, 5, 5) == [""];
    assert SplitFrom(s, 0, 0) == [s[0..0], s[0..5]] + SplitFrom(s, 5, 5);
    assert s[0..0] == "" && s[0..5] == "[a[b]";
    assert SplitSpans(s) == SplitFrom(s, 0, 0);
  }

  /** One drawn piece: a chip showing a tag name, or literal text. */
  datatype Segment = Chip(name: string) | Plain(text: string)

  /** The raw text a segment stands for. */
  function SegmentText(seg: Segment): string {
    match seg
    case Chip(name) => "[" + name + "]"
    case Plain(text) => text
  }

  /** The raw text a sequence of segments stands for. */
  function SegmentsText(segs: seq<Segment>): string
    decreases |segs|
  {
    if |segs| == 0 then "" else SegmentText(segs[0]) + SegmentsText(segs[1..])
  }

  /** The raw text of each segment, piece by piece. */
  function Texts(segs: seq<Segment>): seq<string> {
    seq(|segs|, i requires 0 <= i < |segs| => SegmentText(segs[i]))
  }

  /**
   * The per-part decision of the `map` callback: `startsWith("[")` and
   * `endsWith("]")` make a chip named `part.slice(1, -1)`; anything else is
   * literal text. No text is lost either way.
   */
  function Classify(part: string): (seg: Segment)
    ensures SegmentText(seg) == part
    ensures seg.Chip? <==> |part| > 0 && part[0] == '[' && part[|part| - 1] == ']'
    ensures seg.Chip? ==> |part| >= 2 && seg.name == part[1..|part| - 1]
  {
    if |part| > 0 && part[0] == '[' && part[|part| - 1] == ']' then
      assert part == "[" + part[1..|part| - 1] + "]";
      Chip(Slice(part, 1, -1))
    else
      Plain(part)
  }

  /** `parts.map(...)`: classifies each part, in order. */
  function ClassifyAll(parts: seq<string>): (segs: seq<Segment>)
    decreases |parts|
    ensures |segs| == |parts|
    ensures forall i :: 0 <= i < |parts| ==> segs[i] == Classify(parts[i])
    ensures SegmentsText(segs) == Concat(parts)
  {
    if |parts| == 0 then []
    else
      var rest := ClassifyAll(parts[1..]);
      var segs := [Classify(parts[0])] + rest;
      assert segs[1..] == rest;
      segs
  }

  /** What the editor draws: the committed result, or the raw text as chips and literal text. */
  datatype Projection = ResultView(text: string) | EditView(segments: seq<Segment>)

  /**
   * The projection drawn for a state. While editing it loses no text: the
   * segments spell the raw text exactly, every matched span becomes a
   * chip whose name is non-empty and holds no `]`, each segment is the
   * classification of its own text, and spans are matched leftmost first.
   */
  function RenderInputWithTags(st: State): (r: Projection)
    ensures !st.isFocused && st.displayValue != "" ==> r == ResultView(st.displayValue)
    ensures st.isFocused || st.displayValue == "" ==> r.EditView? && SegmentsText(r.segments) == st.inputValue
    ensures r.EditView? ==> |r.segments| % 2 == 1
    ensures r.EditView? ==> forall i :: 0 <= i < |r.segments| && i % 2 == 1 ==>
              r.segments[i].Chip? && |r.segments[i].name| > 0 && ']' !in r.segments[i].name
    ensures r.EditView? ==> forall i :: 0 <= i < |r.segments| && i % 2 == 0 ==> SpanFree(SegmentText(r.segments[i]))
    ensures r.EditView? ==> forall i :: 0 <= i < |r.segments| ==> r.segments[i] == Classify(SegmentText(r.segments[i]))
    ensures r.EditView? ==> GapsStartNoSpan(Texts(r.segments))
  {
    if !st.isFocused && st.displayValue != "" then
      ResultView(st.displayValue)
    else
      var segs := ClassifyAll(SplitSpans(st.inputValue));
      ChipsAndPlainPieces(st.inputValue, segs);
      EditView(segs)
  }

  /** The captured pieces become named chips, and the other pieces hide no span. */
  lemma ChipsAndPlainPieces(text: string, segs: seq<Segment>)
    requires segs == ClassifyAll(SplitSpans(text))
    ensures forall i :: 0 <= i < |segs| && i % 2 == 1 ==> segs[i].Chip? && |segs[i].name| > 0 && ']' !in segs[i].name
    ensures forall i :: 0 <= i < |segs| && i % 2 == 0 ==> SpanFree(SegmentText(segs[i]))
    ensures forall i :: 0 <= i < |segs| ==> segs[i] == Classify(SegmentText(segs[i]))
    ensures GapsStartNoSpan(Texts(segs))
  {
    var parts := SplitSpans(text);
    forall i | 0 <= i < |segs| && i % 2 == 1
      ensures segs[i].Chip? && |segs[i].name| > 0 && ']' !in segs[i].name
    {
      assert IsBracketSpan(parts[i]);
      assert forall m :: 0 <= m < |segs[i].name| ==> segs[i].name[m] == parts[i][m + 1];
    }
    SplitSpansMissesNone(text);
    forall i | 0 <= i < |segs| && i % 2 == 0 ensures SpanFree(SegmentText(segs[i])) {
      assert SegmentText(Classify(parts[i])) == parts[i];
    }
    forall i | 0 <= i < |segs| ensures segs[i] == Classify(SegmentText(segs[i])) {
      assert SegmentText(Classify(parts[i])) == parts[i];
    }
    assert Texts(segs) == parts by {
      forall i | 0 <= i < |segs| ensures Texts(segs)[i] == parts[i] {
        assert SegmentText(Classify(parts[i])) == parts[i];
      }
    }
  }
}
