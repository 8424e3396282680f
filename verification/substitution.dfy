/**
 * The first step of `calculateResult`: every registered tag, in registration
 * order, has each `[name]` occurrence in the formula replaced by its value.
 * Names are assumed free of regular-expression metacharacters and values free
 * of `$` patterns, so each step is a literal replace-all.
 */
module Substitution {
  import opened JsString
  import opened Formula

  /** The text a tag occupies in the formula, and the pattern its substitution looks for. */
  function TagPattern(name: string): (p: string)
    ensures |p| == |name| + 2 && p[0] == '[' && p[|p| - 1] == ']' && p[1..|p| - 1] == name
  {
    "[" + name + "]"
  }

  /** A name that cannot contain or close a bracket span. */
  predicate BracketFree(name: string) {
    '[' !in name && ']' !in name
  }

  /**
   * `tags.forEach(tag => formula = formula.replace(/\[name\]/g, value))`: a
   * left fold over the registry.
   */
  function Substitute(formula: string, tags: seq<Tag>): string
    decreases |tags|
  {
    if |tags| == 0 then formula
    else Substitute(ReplaceAll(formula, TagPattern(tags[0].name), tags[0].value), tags[1..])
  }

  /** A formula holding no registered pattern is returned unchanged. */
  lemma {:induction false} SubstituteWithoutPatterns(formula: string, tags: seq<Tag>)
    requires forall i :: 0 <= i < |tags| ==> Free(formula, TagPattern(tags[i].name))
    ensures Substitute(formula, tags) == formula
    decreases |tags|
  {
    if |tags| > 0 {
      ReplaceAllWithoutPattern(formula, TagPattern(tags[0].name), tags[0].value);
      assert forall i :: 1 <= i < |tags| ==> tags[1..][i - 1] == tags[i];
      SubstituteWithoutPatterns(formula, tags[1..]);
    }
  }

  /** The fold's first step: the first tag's replace-all, then the rest of the registry. */
  lemma SubstituteStep(formula: string, tags: seq<Tag>)
    requires |tags| > 0
    ensures Substitute(formula, tags) == Substitute(ReplaceAll(formula, TagPattern(tags[0].name), tags[0].value), tags[1..])
  {
  }

  /** Registering one more tag adds one more replace-all step at the end of the fold. */
  lemma {:induction false} SubstituteAppend(formula: string, tags: seq<Tag>, t: Tag)
    ensures Substitute(formula, tags + [t]) == ReplaceAll(Substitute(formula, tags), TagPattern(t.name), t.value)
    decreases |tags|
  {
    if |tags| == 0 {
      assert Substitute(formula, [t]) == Substitute(ReplaceAll(formula, TagPattern(t.name), t.value), []);
    } else {
      var next := ReplaceAll(formula, TagPattern(tags[0].name), tags[0].value);
      assert (tags + [t])[1..] == tags[1..] + [t];
      SubstituteAppend(next, tags[1..], t);
    }
  }

  // ---------------------------------------------------------------------------
  // A registered span becomes its value
  // ---------------------------------------------------------------------------

  /** The first `[name]` after text free of it is replaced by `rep`, exactly once. */
  lemma {:induction false} ReplaceAllSpanAfterFree(x: string, n: string, y: string, rep: string)
    requires BracketFree(n) && Free(x, TagPattern(n))
    ensures ReplaceAll(x + TagPattern(n) + y, TagPattern(n), rep)
         == x + rep + ReplaceAll(y, TagPattern(n), rep)
    decreases |x|
  {
    var p := TagPattern(n);
    var s := x + p + y;
    if |x| == 0 {
      assert s == p + y;
      assert p <= s;
      assert s[|p|..] == y;
    } else {
      NoSpanAtFreeHead(x, n, y);
      ReplaceAllCopiesHead(s, p, rep);
      FreeTail(x, p);
      assert s[1..] == x[1..] + p + y;
      ReplaceAllSpanAfterFree(x[1..], n, y, rep);
      assert [s[0]] + (x[1..] + rep + ReplaceAll(y, p, rep)) == x + rep + ReplaceAll(y, p, rep);
    }
  }

  /**
   * `[name]` cannot start at the head of non-empty text free of it followed
   * by `[name]`: it would lie inside that text, or need a `[` inside the name.
   */
  lemma NoSpanAtFreeHead(x: string, n: string, y: string)
    requires BracketFree(n) && Free(x, TagPattern(n)) && |x| > 0
    ensures !(TagPattern(n) <= x + TagPattern(n) + y)
  {
    var p := TagPattern(n);
    var s := x + p + y;
    if |x| >= |p| {
      assert x[0..|p|] == s[0..|p|];
      assert !OccursAt(x, p, 0);
    } else {
      assert s[|x|] == '[';
      assert p[|x|] != '[' by {
        if |x| < |p| - 1 {
          assert p[|x|] == p[1..|p| - 1][|x| - 1];
        }
      }
    }
  }

  /**
   * A formula whose first `[name]` belongs to the first registered tag has
   * that occurrence turned into the tag's value before later tags are tried.
   */
  lemma FirstTagSpanBecomesValue(x: string, t: Tag, y: string, rest: seq<Tag>)
    requires BracketFree(t.name) && Free(x, TagPattern(t.name))
    ensures Substitute(x + TagPattern(t.name) + y, [t] + rest)
         == Substitute(x + t.value + ReplaceAll(y, TagPattern(t.name), t.value), rest)
  {
    ReplaceAllSpanAfterFree(x, t.name, y, t.value);
    assert ([t] + rest)[1..] == rest;
  }

  // ---------------------------------------------------------------------------
  // Spans with no registered tag survive
  // ---------------------------------------------------------------------------

  /** A stretch that holds no character starting the pattern is copied through unchanged. */
  lemma {:induction false} PassThrough(t: string, q: string, rep: string, k: nat)
    requires |q| > 0 && k <= |t|
    requires forall j :: 0 <= j < k ==> t[j] != q[0]
    ensures ReplaceAll(t, q, rep) == t[..k] + ReplaceAll(t[k..], q, rep)
    decreases k
  {
    if k == 0 {
      assert t[..0] == [] && t[0..] == t;
    } else if |t| < |q| {
      assert ReplaceAll(t[k..], q, rep) == t[k..];
      assert t == t[..k] + t[k..];
    } else {
      assert t[0] != q[0];
      ReplaceAllCopiesHead(t, q, rep);
      PassThrough(t[1..], q, rep, k - 1);
      assert t[1..][k - 1..] == t[k..];
      ConsSlices(t, k, ReplaceAll(t[k..], q, rep));
    }
  }

  /** Splitting off the head character commutes with taking a prefix of length `k`. */
  lemma ConsSlices(t: string, k: nat, x: string)
    requires 0 < k <= |t|
    ensures [t[0]] + (t[1..][..k - 1] + x) == t[..k] + x
  {
    assert t[..k] == [t[0]] + t[1..][..k - 1];
  }

  /** Two bracket spans of different bracket-free names that both start in `s` cannot overlap. */
  lemma SpansDoNotOverlap(s: string, m: string, n: string, i: nat)
    requires BracketFree(m) && BracketFree(n) && m != n
    requires OccursAt(s, TagPattern(m), 0) && OccursAt(s, TagPattern(n), i)
    ensures i >= |TagPattern(m)|
  {
    var p, q := TagPattern(m), TagPattern(n);
    HeadSpansAgree(s, m, n, i);
    assert s[..|p|] == p && s[i..i + |q|] == q;
    assert s[i] == '[';
    assert forall k :: 1 <= k <= |m| ==> s[k] == m[k - 1];
    assert s[|m| + 1] == ']';
  }

  /** Two bracket spans of bracket-free names that both start at the head of `s` have the same name. */
  lemma HeadSpansAgree(s: string, m: string, n: string, i: nat)
    requires BracketFree(m) && BracketFree(n)
    requires OccursAt(s, TagPattern(m), 0) && OccursAt(s, TagPattern(n), i)
    ensures i == 0 ==> m == n
  {
    if i == 0 {
      var p, q := TagPattern(m), TagPattern(n);
      assert s[..|p|] == p && s[..|q|] == q;
      assert forall k :: 1 <= k <= |m| ==> s[k] == m[k - 1];
      assert forall k :: 1 <= k <= |n| ==> s[k] == n[k - 1];
      assert s[|m| + 1] == ']' && s[|n| + 1] == ']';
      assert |m| == |n|;
      assert forall k :: 0 <= k < |m| ==> m[k] == s[k + 1] == n[k];
    }
  }

  /** Replacing one tag's spans keeps at least one span of any other bracket-free name. */
  lemma {:induction false} ReplaceAllKeepsOtherSpan(s: string, m: string, rep: string, n: string, i: nat)
    requires BracketFree(m) && BracketFree(n) && m != n
    requires OccursAt(s, TagPattern(n), i)
    ensures exists j :: OccursAt(ReplaceAll(s, TagPattern(m), rep), TagPattern(n), j)
    decreases |s|
  {
    var q, p := TagPattern(m), TagPattern(n);
    if |s| < |q| {
      assert OccursAt(ReplaceAll(s, q, rep), p, i);
    } else if q <= s {
      assert OccursAt(s, q, 0);
      SpansDoNotOverlap(s, m, n, i);
      var tail := s[|q|..];
      assert tail[i - |q|..i - |q| + |p|] == s[i..i + |p|];
      ReplaceAllKeepsOtherSpan(tail, m, rep, n, i - |q|);
      var j :| OccursAt(ReplaceAll(tail, q, rep), p, j);
      ReplacedHead(s, q, rep, p, j);
    } else if i >= 1 {
      OccursShift(s, p, i - 1);
      ReplaceAllKeepsOtherSpan(s[1..], m, rep, n, i - 1);
      var j :| OccursAt(ReplaceAll(s[1..], q, rep), p, j);
      CopiedHead(s, q, rep, p, j);
    } else {
      SpanAtHeadKept(s, m, rep, n);
    }
  }

  /** An occurrence after a replaced head stays an occurrence, shifted by the replacement. */
  lemma ReplacedHead(s: string, q: string, rep: string, p: string, j: nat)
    requires |q| > 0 && |s| >= |q| && q <= s
    requires OccursAt(ReplaceAll(s[|q|..], q, rep), p, j)
    ensures OccursAt(ReplaceAll(s, q, rep), p, |rep| + j)
  {
    var x := ReplaceAll(s[|q|..], q, rep);
    var r := ReplaceAll(s, q, rep);
    assert r == rep + x;
    OccursAfter(rep, x, p, j);
  }

  /** An occurrence in `x` is one in `w + x`, shifted by `|w|`. */
  lemma OccursAfter(w: string, x: string, p: string, j: nat)
    requires OccursAt(x, p, j)
    ensures OccursAt(w + x, p, |w| + j)
  {
    assert (w + x)[|w| + j..|w| + j + |p|] == x[j..j + |p|];
  }

  /** An occurrence after a copied head character stays an occurrence, shifted by one. */
  lemma CopiedHead(s: string, q: string, rep: string, p: string, j: nat)
    requires |q| > 0 && |s| >= |q| && !(q <= s)
    requires OccursAt(ReplaceAll(s[1..], q, rep), p, j)
    ensures OccursAt(ReplaceAll(s, q, rep), p, 1 + j)
  {
    var r := ReplaceAll(s, q, rep);
    assert r == [s[0]] + ReplaceAll(s[1..], q, rep);
    assert r[1..] == ReplaceAll(s[1..], q, rep);
    OccursInSuffix(r, 1, p, j);
  }

  /** A span `[n]` at the very start is copied through when `[m]` does not start there. */
  lemma SpanAtHeadKept(s: string, m: string, rep: string, n: string)
    requires BracketFree(n)
    requires OccursAt(s, TagPattern(n), 0) && !(TagPattern(m) <= s) && |s| >= |TagPattern(m)|
    ensures OccursAt(ReplaceAll(s, TagPattern(m), rep), TagPattern(n), 0)
  {
    var q, p := TagPattern(m), TagPattern(n);
    var t := s[1..];
    SpanTailHasNoOpen(s, n);
    PassThrough(t, q, rep, |p| - 1);
    ReplaceAllCopiesHead(s, q, rep);
    HeadKeptBefore(s, p, ReplaceAll(t[|p| - 1..], q, rep));
  }

  /** After the opening bracket of a span `[n]` at the head of `s` comes no `[` until the span ends. */
  lemma SpanTailHasNoOpen(s: string, n: string)
    requires BracketFree(n) && OccursAt(s, TagPattern(n), 0)
    ensures |s| >= |TagPattern(n)| && forall j :: 0 <= j < |TagPattern(n)| - 1 ==> s[1..][j] != '['
  {
    var p := TagPattern(n);
    assert s[..|p|] == p;
    forall j | 0 <= j < |p| - 1 ensures s[1..][j] != '[' {
      assert s[1..][j] == s[..|p|][j + 1] == p[j + 1];
      if j < |n| {
        assert p[j + 1] == n[j];
      }
    }
  }

  /** A head occurrence of `p` in `s` survives when everything after its first `|p|` characters is replaced. */
  lemma HeadKeptBefore(s: string, p: string, x: string)
    requires |p| > 0 && OccursAt(s, p, 0)
    ensures OccursAt([s[0]] + s[1..][..|p| - 1] + x, p, 0)
  {
    var r := [s[0]] + s[1..][..|p| - 1] + x;
    assert s[..|p|] == [s[0]] + s[1..][..|p| - 1];
    assert r[..|p|] == s[..|p|];
  }

  /**
   * A span `[n]` whose bracket-free name no registered tag carries survives
   * substitution, whatever the values are, so evaluation receives it intact.
   */
  lemma {:induction false} UnregisteredSpanSurvives(formula: string, tags: seq<Tag>, n: string, i: nat)
    requires BracketFree(n) && forall k :: 0 <= k < |tags| ==> BracketFree(tags[k].name) && tags[k].name != n
    requires OccursAt(formula, TagPattern(n), i)
    ensures exists j :: OccursAt(Substitute(formula, tags), TagPattern(n), j)
    decreases |tags|
  {
    if |tags| == 0 {
      assert OccursAt(Substitute(formula, tags), TagPattern(n), i);
    } else {
      var t := tags[0];
      var next := ReplaceAll(formula, TagPattern(t.name), t.value);
      assert Substitute(formula, tags) == Substitute(next, tags[1..]);
      ReplaceAllKeepsOtherSpan(formula, t.name, t.value, n, i);
      var j :| OccursAt(next, TagPattern(n), j);
      var rest := tags[1..];
      assert forall k :: 0 <= k < |rest| ==> rest[k] == tags[k + 1];
      UnregisteredSpanSurvives(next, rest, n, j);
    }
  }

  // ---------------------------------------------------------------------------
  // Duplicated names: the first registration decides
  // ---------------------------------------------------------------------------

  /** The names carried by a sequence of tags. */
  function Names(tags: seq<Tag>): set<string> {
    set t | t in tags :: t.name
  }

  /** The registry with every tag dropped whose name is in `seen` or was registered earlier. */
  function FirstOfEachName(tags: seq<Tag>, seen: set<string>): (r: seq<Tag>)
    decreases |tags|
    ensures forall k :: 0 <= k < |r| ==> r[k] in tags
    ensures Names(r) == Names(tags) - seen
    ensures forall k, l :: 0 <= k < l < |r| ==> r[k].name != r[l].name
  {
    if |tags| == 0 then []
    else
      var t := tags[0];
      assert tags == [t] + tags[1..];
      assert Names(tags) == {t.name} + Names(tags[1..]);
      if t.name in seen then FirstOfEachName(tags[1..], seen)
      else
        var rest := FirstOfEachName(tags[1..], seen + {t.name});
        assert Names([t] + rest) == {t.name} + Names(rest);
        assert forall k :: 0 <= k < |rest| ==> rest[k].name in Names(rest);
        [t] + rest
  }

  /**
   * With every value safe for every pattern in play, substituting the whole
   * registry equals substituting only the first tag registered under each
   * name: the first replacement removes every span of that name and no later
   * replacement brings one back. `seen` holds names already substituted away.
   */
  lemma {:induction false} FirstRegisteredWinsFrom(formula: string, tags: seq<Tag>, seen: set<string>)
    requires forall n :: n in seen ==> Free(formula, TagPattern(n))
    requires forall k, n :: 0 <= k < |tags| && n in seen ==> Safe(tags[k].value, TagPattern(n))
    requires forall k, l :: 0 <= k < |tags| && 0 <= l < |tags| ==> Safe(tags[k].value, TagPattern(tags[l].name))
    ensures Substitute(formula, tags) == Substitute(formula, FirstOfEachName(tags, seen))
    decreases |tags|
  {
    if |tags| > 0 {
      var t := tags[0];
      var pat := TagPattern(t.name);
      var next := ReplaceAll(formula, pat, t.value);
      var rest := tags[1..];
      assert forall k :: 0 <= k < |rest| ==> rest[k] == tags[k + 1];
      if t.name in seen {
        ReplaceAllWithoutPattern(formula, pat, t.value);
        FirstRegisteredWinsFrom(formula, rest, seen);
      } else {
        var seen' := seen + {t.name};
        forall n | n in seen' ensures Free(next, TagPattern(n)) {
          ReplaceAllLeavesPatternFree(formula, pat, t.value, TagPattern(n));
        }
        FirstRegisteredWinsFrom(next, rest, seen');
      }
    }
  }

  /** The registry-level statement: duplicates after the first registration of a name have no effect. */
  lemma FirstRegisteredWins(formula: string, tags: seq<Tag>)
    requires forall k, l :: 0 <= k < |tags| && 0 <= l < |tags| ==> Safe(tags[k].value, TagPattern(tags[l].name))
    ensures Substitute(formula, tags) == Substitute(formula, FirstOfEachName(tags, {}))
  {
    FirstRegisteredWinsFrom(formula, tags, {});
  }

  /**
   * Without the safety condition the first registration need not decide: in
   * `[[a]]` the first tag named `a` with value `a` rebuilds a span `[a]`,
   * which the second tag named `a` then replaces, so the whole registry and
   * its first-of-each-name reduct disagree.
   */
  lemma UnsafeValueLetsLaterDuplicateDecide(formula: string, tags: seq<Tag>)
    requires formula == "[[a]]" && tags == [Tag("1", "a", "a"), Tag("2", "a", "b")]
    ensures Substitute(formula, tags) == "b"
    ensures Substitute(formula, FirstOfEachName(tags, {})) == "[a]"
  {
    WholeRegistryGivesValue(formula, tags);
    DuplicateDropped(tags);
    ReductKeepsRebuiltSpan(formula, tags[0]);
  }

  /**
   * Nor does the last registration decide: with the same two tags, a plain
   * `[a]` becomes the first tag's value `a`, which the second tag's pattern
   * no longer matches.
   */
  lemma FirstDuplicateDecidesPlainSpan(formula: string, tags: seq<Tag>)
    requires formula == "[a]" && tags == [Tag("1", "a", "a"), Tag("2", "a", "b")]
    ensures Substitute(formula, tags) == "a"
  {
    assert formula == [] + TagPattern("a") + [];
    FirstTagSpanBecomesValue([], tags[0], [], tags[1..]);
    assert ReplaceAll([], TagPattern("a"), "a") == [];
    assert [] + "a" + [] == "a";
    assert [tags[0]] + tags[1..] == tags;
    SubstituteStep("a", tags[1..]);
    assert tags[1..][1..] == [];
    assert ReplaceAll("a", "[a]", "b") == "a";
  }

  /** Both replacements apply: the second tag sees the span the first one rebuilt. */
  lemma WholeRegistryGivesValue(formula: string, tags: seq<Tag>)
    requires formula == "[[a]]" && tags == [Tag("1", "a", "a"), Tag("2", "a", "b")]
    ensures Substitute(formula, tags) == "b"
  {
    FirstTagRebuildsSpan();
    SecondTagReplacesRebuiltSpan();
    SubstituteStep(formula, tags);
    assert tags[1..] == [Tag("2", "a", "b")];
  }

  /** With only the first tag the rebuilt span is left over. */
  lemma ReductKeepsRebuiltSpan(formula: string, t: Tag)
    requires formula == "[[a]]" && t == Tag("1", "a", "a")
    ensures Substitute(formula, [t]) == "[a]"
  {
    FirstTagRebuildsSpan();
    SubstituteStep(formula, [t]);
    assert [t][1..] == [];
  }

  /** The reduct keeps only the first of the two tags named `a`. */
  lemma DuplicateDropped(tags: seq<Tag>)
    requires tags == [Tag("1", "a", "a"), Tag("2", "a", "b")]
    ensures FirstOfEachName(tags, {}) == [tags[0]]
  {
    var seen: set<string> := {};
    assert seen + {"a"} == {"a"};
    assert tags[1..][1..] == [];
    assert FirstOfEachName(tags[1..], {"a"}) == [];
    assert FirstOfEachName(tags, seen) == [tags[0]] + FirstOfEachName(tags[1..], seen + {"a"});
  }

  /** The first tag turns the inner `[a]` of `[[a]]` into `a`, which forms a new `[a]`. */
  lemma FirstTagRebuildsSpan()
    ensures ReplaceAll("[[a]]", "[a]", "a") == "[a]"
  {
    assert ReplaceAll("]", "[a]", "a") == "]";
    assert "[a]]"[3..] == "]";
    assert ReplaceAll("[a]]", "[a]", "a") == "a]";
    assert "[[a]]"[1..] == "[a]]";
    assert !("[a]" <= "[[a]]");
  }

  /** The second tag replaces the rebuilt span. */
  lemma SecondTagReplacesRebuiltSpan()
    ensures Substitute("[a]", [Tag("2", "a", "b")]) == "b"
  {
    assert "[a]"[3..] == "";
    assert ReplaceAll("[a]", "[a]", "b") == "b";
    assert [Tag("2", "a", "b")][1..] == [];
  }
}
