/**
 * The JavaScript string primitives the formula widget relies on, each with the
 * semantics the ECMAScript standard gives it: indexing, `slice`, `lastIndexOf`,
 * `includes`, `toLowerCase` (ASCII letters only), `trim`, `split(sep)[0]`, and
 * `replace` with a global pattern that matches one literal string.
 */
module JsString {
  import opened Wrappers

  /** `t` has an occurrence of `p` starting at index `i`. */
  predicate OccursAt(t: string, p: string, i: int) {
    0 <= i && i + |p| <= |t| && t[i..i + |p|] == p
  }

  /** `p` occurs nowhere in `t`. */
  ghost predicate Free(t: string, p: string) {
    forall i :: !OccursAt(t, p, i)
  }

  /** Moving one character to the right in `t` is dropping its head. */
  lemma OccursShift(t: string, p: string, i: nat)
    requires |t| > 0
    ensures OccursAt(t[1..], p, i) <==> OccursAt(t, p, i + 1)
  {
    if i + 1 + |p| <= |t| {
      assert t[1..][i..i + |p|] == t[i + 1..i + 1 + |p|];
    }
  }

  /** An occurrence inside a suffix of `t` is an occurrence in `t`. */
  lemma OccursInSuffix(t: string, k: nat, p: string, i: nat)
    requires k <= |t|
    requires OccursAt(t[k..], p, i)
    ensures OccursAt(t, p, k + i)
  {
    assert t[k..][i..i + |p|] == t[k + i..k + i + |p|];
  }

  // ---------------------------------------------------------------------------
  // Indexing and slicing
  // ---------------------------------------------------------------------------

  /** `s[i]` in JavaScript: `undefined` for any index outside the string, negative ones included. */
  function CharAt(s: string, i: int): Option<char> {
    if 0 <= i < |s| then Some(s[i]) else None
  }

  /** How `slice` resolves one bound: a negative bound counts from the end; the result is clamped to `[0, len]`. */
  function SliceBound(len: nat, k: int): (r: nat)
    ensures r <= len
    ensures 0 <= k <= len ==> r == k
    ensures k < 0 && k + len >= 0 ==> r == len + k
  {
    if k < 0 then (if len + k < 0 then 0 else len + k)
    else if k > len then len
    else k
  }

  /** `s.slice(start, end)`. */
  function Slice(s: string, start: int, end: int): (r: string)
    ensures |r| <= |s|
    ensures 0 <= start <= end <= |s| ==> r == s[start..end]
    ensures start == 0 && end < 0 && end + |s| >= 0 ==> r == s[..|s| + end]
    ensures start == 1 && end == -1 && |s| >= 2 ==> r == s[1..|s| - 1]
  {
    var from := SliceBound(|s|, start);
    var to := SliceBound(|s|, end);
    if from < to then s[from..to] else ""
  }

  /** `s.slice(start)`. */
  function SliceFrom(s: string, start: int): (r: string)
    ensures 0 <= start <= |s| ==> r == s[start..]
  {
    Slice(s, start, |s|)
  }

  // ---------------------------------------------------------------------------
  // Searching
  // ---------------------------------------------------------------------------

  /** The greatest index `<= k` holding `c`, or -1. */
  function FindBackward(s: string, c: char, k: int): (r: int)
    requires -1 <= k < |s|
    decreases k + 1
    ensures -1 <= r <= k
    ensures r >= 0 ==> s[r] == c
    ensures forall j :: r < j <= k ==> s[j] != c
  {
    if k < 0 then -1
    else if s[k] == c then k
    else FindBackward(s, c, k - 1)
  }

  /**
   * `s.lastIndexOf(c, position)` for a one-character search string: the
   * position is clamped to `[0, |s|]` and the greatest match not after it is
   * returned, or -1 when there is none.
   */
  function LastIndexOf(s: string, c: char, position: int): (r: int)
    ensures -1 <= r < |s|
    ensures r >= 0 ==> s[r] == c && r <= if position < 0 then 0 else position
    ensures forall j :: r < j < |s| && j <= position ==> s[j] != c
    ensures position < 0 && |s| > 0 && s[0] == c ==> r == 0
  {
    if |s| == 0 then -1
    else
      var top := if position < 0 then 0 else if position >= |s| then |s| - 1 else position;
      FindBackward(s, c, top)
  }

  /** `hay.includes(needle)`: some occurrence of `needle` exists (the empty string occurs everywhere). */
  function Includes(hay: string, needle: string): (r: bool)
    decreases |hay|
    ensures r <==> exists i :: OccursAt(hay, needle, i)
  {
    if needle <= hay then
      assert OccursAt(hay, needle, 0);
      true
    else if |hay| == 0 then
      false
    else
      var r := Includes(hay[1..], needle);
      forall i | OccursAt(hay[1..], needle, i) ensures OccursAt(hay, needle, i + 1) {
        OccursShift(hay, needle, i);
      }
      forall i | OccursAt(hay, needle, i) ensures OccursAt(hay[1..], needle, i - 1) {
        assert i != 0;
        OccursShift(hay, needle, i - 1);
      }
      r
  }

  // ---------------------------------------------------------------------------
  // Case and white space
  // ---------------------------------------------------------------------------

  /** `toLowerCase` on one character, restricted to the ASCII letters. */
  function LowerChar(c: char): (r: char)
    ensures 'A' <= c <= 'Z' ==> r as int == c as int + 32
    ensures !('A' <= c <= 'Z') ==> r == c
  {
    if 'A' <= c <= 'Z' then (c as int + 32) as char else c
  }

  /** `toLowerCase`, character by character. */
  function Lower(s: string): (r: string)
    ensures |r| == |s|
    ensures forall i :: 0 <= i < |s| ==> r[i] == LowerChar(s[i])
  {
    seq(|s|, i requires 0 <= i < |s| => LowerChar(s[i]))
  }

  /** The characters `trim` removes: the WhiteSpace and LineTerminator code points of ECMAScript. */
  predicate IsJsWhitespace(c: char) {
    || c == '\t' || c == '\n' || c == '\U{000B}' || c == '\U{000C}' || c == '\r'
    || c == ' ' || c == '\U{00A0}' || c == '\U{1680}'
    || ('\U{2000}' <= c <= '\U{200A}')
    || c == '\U{2028}' || c == '\U{2029}' || c == '\U{202F}' || c == '\U{205F}'
    || c == '\U{3000}' || c == '\U{FEFF}'
  }

  predicate AllWhitespace(t: string) {
    forall k :: 0 <= k < |t| ==> IsJsWhitespace(t[k])
  }

  /** White space joined to white space is white space. */
  lemma WhitespaceAround(a: string, b: string, c: string)
    requires AllWhitespace(a) && AllWhitespace(b) && AllWhitespace(c)
    ensures AllWhitespace(a + b + c)
  {
    var t := a + b + c;
    forall k | 0 <= k < |t| ensures IsJsWhitespace(t[k]) {
      if k < |a| {
        assert t[k] == a[k];
      } else if k < |a| + |b| {
        assert t[k] == b[k - |a|];
      } else {
        assert t[k] == c[k - |a| - |b|];
      }
    }
  }

  /** Drops leading white space. */
  function TrimStart(s: string): (r: string)
    decreases |s|
    ensures |r| <= |s| && r == s[|s| - |r|..]
    ensures AllWhitespace(s[..|s| - |r|])
    ensures |r| > 0 ==> !IsJsWhitespace(r[0])
  {
    if |s| > 0 && IsJsWhitespace(s[0]) then
      var r := TrimStart(s[1..]);
      var dropped := s[1..][..|s| - 1 - |r|];
      assert s[..|s| - |r|] == [s[0]] + dropped;
      WhitespaceAround([s[0]], dropped, []);
      r
    else
      s
  }

  /** Drops trailing white space. */
  function TrimEnd(s: string): (r: string)
    decreases |s|
    ensures |r| <= |s| && r == s[..|r|]
    ensures AllWhitespace(s[|r|..])
    ensures |r| > 0 ==> !IsJsWhitespace(r[|r| - 1])
  {
    if |s| > 0 && IsJsWhitespace(s[|s| - 1]) then
      var r := TrimEnd(s[..|s| - 1]);
      assert s[|r|..] == s[..|s| - 1][|r|..] + [s[|s| - 1]];
      r
    else
      s
  }

  /** `s.trim()`: the infix of `s` left after removing white space from both ends. */
  function Trim(s: string): (r: string)
    ensures exists i :: OccursAt(s, r, i) && AllWhitespace(s[..i]) && AllWhitespace(s[i + |r|..])
    ensures |r| > 0 ==> !IsJsWhitespace(r[0]) && !IsJsWhitespace(r[|r| - 1])
  {
    var t := TrimStart(s);
    var r := TrimEnd(t);
    TrimBothEnds(s, t, r);
    r
  }

  /** White space dropped from the front of `s` and then from the back of the rest leaves an infix between white space. */
  lemma TrimBothEnds(s: string, t: string, r: string)
    requires |t| <= |s| && t == s[|s| - |t|..] && AllWhitespace(s[..|s| - |t|])
    requires |t| > 0 ==> !IsJsWhitespace(t[0])
    requires |r| <= |t| && r == t[..|r|] && AllWhitespace(t[|r|..])
    requires |r| > 0 ==> !IsJsWhitespace(r[|r| - 1])
    ensures exists i :: OccursAt(s, r, i) && AllWhitespace(s[..i]) && AllWhitespace(s[i + |r|..])
    ensures |r| > 0 ==> !IsJsWhitespace(r[0]) && !IsJsWhitespace(r[|r| - 1])
  {
    var i := |s| - |t|;
    PrefixOfSuffix(s, t, r);
    assert OccursAt(s, r, i) && AllWhitespace(s[..i]) && AllWhitespace(s[i + |r|..]);
  }

  /** A prefix `r` of a suffix `t` of `s` occurs in `s` where `t` starts, and the rest of `t` ends `s`. */
  lemma PrefixOfSuffix(s: string, t: string, r: string)
    requires |t| <= |s| && t == s[|s| - |t|..]
    requires |r| <= |t| && r == t[..|r|]
    ensures OccursAt(s, r, |s| - |t|)
    ensures s[|s| - |t| + |r|..] == t[|r|..]
    ensures |r| > 0 ==> r[0] == t[0]
  {
  }

  /** `s.split(sep)[0]` for a one-character separator: the text before the first `sep`, or all of `s`. */
  function BeforeFirst(s: string, sep: char): (r: string)
    decreases |s|
    ensures r <= s
    ensures sep !in r
    ensures |r| < |s| ==> s[|r|] == sep
  {
    if |s| == 0 || s[0] == sep then ""
    else [s[0]] + BeforeFirst(s[1..], sep)
  }

  /** Without the separator, `split(sep)[0]` is the whole string. */
  lemma BeforeAbsentSeparator(s: string, sep: char)
    requires sep !in s
    ensures BeforeFirst(s, sep) == s
  {
  }

  /** A string that neither starts nor ends with white space is its own `trim`. */
  lemma TrimUnpadded(s: string)
    requires |s| > 0 && !IsJsWhitespace(s[0]) && !IsJsWhitespace(s[|s| - 1])
    ensures Trim(s) == s
  {
    assert TrimStart(s) == s;
    assert TrimEnd(s) == s;
  }

  // ---------------------------------------------------------------------------
  // Replace-all of a literal pattern
  // ---------------------------------------------------------------------------

  /**
   * `s.replace(new RegExp(pat, "g"), rep)` when `pat` holds no regular-expression
   * metacharacter and `rep` no `$` pattern: every leftmost, non-overlapping
   * occurrence of `pat`, scanning left to right, becomes `rep`.
   */
  function ReplaceAll(s: string, pat: string, rep: string): string
    requires |pat| > 0
    decreases |s|
  {
    if |s| < |pat| then s
    else if pat <= s then rep + ReplaceAll(s[|pat|..], pat, rep)
    else [s[0]] + ReplaceAll(s[1..], pat, rep)
  }

  /** A text without an occurrence of the pattern comes back unchanged. */
  lemma {:induction false} ReplaceAllWithoutPattern(s: string, pat: string, rep: string)
    requires |pat| > 0 && Free(s, pat)
    ensures ReplaceAll(s, pat, rep) == s
    decreases |s|
  {
    if |s| >= |pat| {
      assert !OccursAt(s, pat, 0);
      FreeTail(s, pat);
      ReplaceAllWithoutPattern(s[1..], pat, rep);
      assert s == [s[0]] + s[1..];
    }
  }

  /** The scan step that copies a head character which does not start the pattern. */
  lemma ReplaceAllCopiesHead(s: string, pat: string, rep: string)
    requires |pat| > 0 && |s| >= |pat| && !(pat <= s)
    ensures ReplaceAll(s, pat, rep) == [s[0]] + ReplaceAll(s[1..], pat, rep)
  {
  }

  lemma FreeTail(s: string, pat: string)
    requires |s| > 0
    ensures Free(s, pat) ==> Free(s[1..], pat)
  {
    if Free(s, pat) {
      forall i | 0 <= i ensures !OccursAt(s[1..], pat, i) {
        OccursShift(s, pat, i);
      }
    }
  }

  /** `rep` can never help form an occurrence of `p`: it is non-empty and shares no character with `p`. */
  predicate Safe(rep: string, p: string) {
    |rep| > 0 && forall i :: 0 <= i < |rep| ==> rep[i] !in p
  }

  /**
   * A prefix of a replace-all result that consists only of characters of `p`
   * cannot contain any part of a replacement when the replacement is safe for
   * `p`, so it is copied verbatim from the input.
   */
  lemma {:induction false} UntouchedPrefix(t: string, q: string, rep: string, p: string, k: nat)
    requires |q| > 0 && Safe(rep, p)
    requires k <= |ReplaceAll(t, q, rep)|
    requires forall j :: 0 <= j < k ==> ReplaceAll(t, q, rep)[j] in p
    ensures k <= |t| && t[..k] == ReplaceAll(t, q, rep)[..k]
    decreases |t|
  {
    var r := ReplaceAll(t, q, rep);
    if k > 0 {
      assert r[0] in p;
      assert rep[0] !in p;
    }
    if k == 0 || |t| < |q| {
    } else if q <= t {
      assert false;
    } else {
      var r' := ReplaceAll(t[1..], q, rep);
      assert r == [t[0]] + r';
      forall j | 0 <= j < k - 1 ensures r'[j] in p {
        assert r'[j] == r[j + 1];
      }
      UntouchedPrefix(t[1..], q, rep, p, k - 1);
      assert t[..k] == [t[0]] + t[1..][..k - 1];
    }
  }

  /** A safe replacement prepended to a `p`-free text leaves it `p`-free. */
  lemma SafePrefixKeepsFree(rep: string, r': string, p: string)
    requires |p| > 0 && Safe(rep, p) && Free(r', p)
    ensures Free(rep + r', p)
  {
    var r := rep + r';
    forall i ensures !OccursAt(r, p, i) {
      if 0 <= i < |rep| {
        assert r[i] == rep[i];
        assert rep[i] !in p;
        assert r[i] != p[0];
      } else if |rep| <= i && OccursAt(r, p, i) {
        assert r[i..i + |p|] == r'[i - |rep|..i - |rep| + |p|];
        assert OccursAt(r', p, i - |rep|);
      }
    }
  }

  /**
   * After replacing every occurrence of `q` by a safe `rep`, the pattern `p`
   * is absent, provided it was absent before or is `q` itself.
   */
  lemma {:induction false} ReplaceAllLeavesPatternFree(s: string, q: string, rep: string, p: string)
    requires |q| > 0 && |p| > 0 && Safe(rep, p)
    requires p == q || Free(s, p)
    ensures Free(ReplaceAll(s, q, rep), p)
    decreases |s|
  {
    if |s| < |q| {
    } else if q <= s {
      var tail := s[|q|..];
      if p != q {
        forall i | 0 <= i ensures !OccursAt(tail, p, i) {
          if OccursAt(tail, p, i) { OccursInSuffix(s, |q|, p, i); }
        }
      }
      ReplaceAllLeavesPatternFree(tail, q, rep, p);
      SafePrefixKeepsFree(rep, ReplaceAll(tail, q, rep), p);
    } else {
      FreeTail(s, p);
      ReplaceAllLeavesPatternFree(s[1..], q, rep, p);
      HeadKeepsFree(s, q, rep, p);
    }
  }

  /** The step of the scan that copies a character that does not start `q` keeps `p` absent. */
  lemma HeadKeepsFree(s: string, q: string, rep: string, p: string)
    requires |q| > 0 && |p| > 0 && Safe(rep, p)
    requires p == q || Free(s, p)
    requires |s| >= |q| && !(q <= s)
    requires Free(ReplaceAll(s[1..], q, rep), p)
    ensures Free(ReplaceAll(s, q, rep), p)
  {
    var r' := ReplaceAll(s[1..], q, rep);
    var r := ReplaceAll(s, q, rep);
    assert r == [s[0]] + r';
    assert !OccursAt(s, p, 0);
    if OccursAt(r, p, 0) {
      HeadOccurrence(s, q, rep, p);
    }
    ConsKeepsFree(s[0], r', p);
  }

  /** Prepending one character creates no occurrence except possibly one at the very start. */
  lemma ConsKeepsFree(c: char, t: string, p: string)
    requires Free(t, p) && !OccursAt([c] + t, p, 0)
    ensures Free([c] + t, p)
  {
    var r := [c] + t;
    forall i | i >= 1 && OccursAt(r, p, i) ensures false {
      assert r[i..i + |p|] == t[i - 1..i - 1 + |p|];
      assert OccursAt(t, p, i - 1);
    }
  }

  /** An occurrence of `p` at the very start of the result was copied from the start of `s`. */
  lemma HeadOccurrence(s: string, q: string, rep: string, p: string)
    requires |q| > 0 && |p| > 0 && Safe(rep, p)
    requires |s| >= |q| && !(q <= s)
    requires OccursAt(ReplaceAll(s, q, rep), p, 0)
    ensures OccursAt(s, p, 0)
  {
    var r' := ReplaceAll(s[1..], q, rep);
    var r := ReplaceAll(s, q, rep);
    ReplaceAllCopiesHead(s, q, rep);
    TailOfHeadOccurrence(s[0], r', p);
    UntouchedPrefix(s[1..], q, rep, p, |p| - 1);
    HeadAgrees(s, r', p);
  }

  /** After the first character of an occurrence at the head, the next `|p| - 1` characters all belong to `p`. */
  lemma TailOfHeadOccurrence(c: char, t: string, p: string)
    requires OccursAt([c] + t, p, 0)
    ensures |p| - 1 <= |t| && forall j :: 0 <= j < |p| - 1 ==> t[j] in p
  {
    var r := [c] + t;
    assert r[..|p|] == p;
    forall j | 0 <= j < |p| - 1 ensures t[j] in p {
      assert t[j] == r[..|p|][j + 1] == p[j + 1];
    }
  }

  /** If `[s[0]] + t` starts with `p` and `t` agrees with `s[1..]` on the next `|p| - 1` characters, `s` starts with `p`. */
  lemma HeadAgrees(s: string, t: string, p: string)
    requires |s| > 0 && |p| > 0 && OccursAt([s[0]] + t, p, 0)
    requires |p| - 1 <= |s| - 1 && |p| - 1 <= |t| && s[1..][..|p| - 1] == t[..|p| - 1]
    ensures OccursAt(s, p, 0)
  {
    var r := [s[0]] + t;
    assert r[..|p|] == [s[0]] + t[..|p| - 1];
    assert s[..|p|] == [s[0]] + s[1..][..|p| - 1];
  }
}
