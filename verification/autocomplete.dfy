/**
 * The suggestion source: the record shape of one autocomplete item and the
 * client-side filter applied to the fetched list.
 */
module Autocomplete {
  import opened Wrappers
  import opened JsString

  /** One suggestion as the endpoint delivers it; `value` is kept as the text `value.toString()` yields. */
  datatype AutocompleteItem = AutocompleteItem(
    name: string,
    category: string,
    value: string,
    id: string,
    description: Option<string>,
    inputs: Option<string>)

  /** The filter's predicate: `query` occurs, ignoring case, in the item's name or in its category. */
  predicate Matches(item: AutocompleteItem, query: string) {
    Includes(Lower(item.name), Lower(query)) || Includes(Lower(item.category), Lower(query))
  }

  /** An item matches exactly when the lower-cased query occurs in its lower-cased name or category. */
  lemma MatchesMeansOccurrence(item: AutocompleteItem, query: string)
    ensures Matches(item, query) <==> (exists i :: OccursAt(Lower(item.name), Lower(query), i))
                                      || (exists i :: OccursAt(Lower(item.category), Lower(query), i))
  {
  }

  /** `a` is `b` with some elements dropped and the order of the rest kept. */
  ghost predicate IsSubsequence<T>(a: seq<T>, b: seq<T>)
    decreases |b|
  {
    if |a| == 0 then true
    else if |b| == 0 then false
    else (a[0] == b[0] && IsSubsequence(a[1..], b[1..])) || IsSubsequence(a, b[1..])
  }

  /**
   * `Array.prototype.filter`: the elements of `s` that `keep` accepts, each
   * as often as it occurs in `s`.
   */
  function Filter<T(!new)>(s: seq<T>, keep: T -> bool): (r: seq<T>)
    decreases |s|
    ensures forall i :: 0 <= i < |r| ==> keep(r[i])
    ensures forall x :: multiset(r)[x] == if keep(x) then multiset(s)[x] else 0
    ensures |r| <= |s|
  {
    if |s| == 0 then []
    else
      var rest := Filter(s[1..], keep);
      assert s == [s[0]] + s[1..];
      assert multiset(s) == multiset([s[0]]) + multiset(s[1..]);
      if keep(s[0]) then
        assert ([s[0]] + rest)[1..] == rest;
        [s[0]] + rest
      else rest
  }

  /** The filter keeps the order of what it keeps. */
  lemma {:induction false} FilterKeepsOrder<T(!new)>(s: seq<T>, keep: T -> bool)
    ensures IsSubsequence(Filter(s, keep), s)
    decreases |s|
  {
    if |s| > 0 {
      FilterKeepsOrder(s[1..], keep);
      var rest := Filter(s[1..], keep);
      if keep(s[0]) {
        assert Filter(s, keep) == [s[0]] + rest;
        assert ([s[0]] + rest)[1..] == rest;
      } else {
        assert Filter(s, keep) == rest;
        SubsequenceOfTail(rest, s);
      }
    }
  }

  /** A subsequence of the tail is a subsequence of the whole. */
  lemma SubsequenceOfTail<T>(a: seq<T>, b: seq<T>)
    requires |b| > 0 && IsSubsequence(a, b[1..])
    ensures IsSubsequence(a, b)
  {
  }

  /** A filter that accepts everything keeps the whole sequence. */
  lemma {:induction false} FilterKeepsAll<T(!new)>(s: seq<T>, keep: T -> bool)
    requires forall i :: 0 <= i < |s| ==> keep(s[i])
    ensures Filter(s, keep) == s
    decreases |s|
  {
    if |s| > 0 {
      FilterKeepsAll(s[1..], keep);
      assert s == [s[0]] + s[1..];
    }
  }

  /**
   * `data.filter(...)` in `fetchAutocompleteSuggestions`: the items that match
   * `query`, in their original order, each as often as it occurs in `data`.
   */
  function FilterSuggestions(data: seq<AutocompleteItem>, query: string): (r: seq<AutocompleteItem>)
    ensures forall i :: 0 <= i < |r| ==> Matches(r[i], query)
    ensures forall i :: 0 <= i < |data| && Matches(data[i], query) ==> data[i] in r
    ensures forall x :: multiset(r)[x] == if Matches(x, query) then multiset(data)[x] else 0
    ensures IsSubsequence(r, data)
    ensures |r| <= |data|
  {
    var keep := item => Matches(item, query);
    var r := Filter(data, keep);
    FilterKeepsOrder(data, keep);
    forall i | 0 <= i < |data| && Matches(data[i], query) ensures data[i] in r {
      assert data[i] in multiset(data);
      assert multiset(r)[data[i]] > 0;
    }
    r
  }

  /** Every string contains the empty string, so an empty query keeps the whole list. */
  lemma EmptyQueryKeepsAll(data: seq<AutocompleteItem>)
    ensures FilterSuggestions(data, "") == data
  {
    forall i | 0 <= i < |data| ensures Matches(data[i], "") {
      assert OccursAt(Lower(data[i].name), Lower(""), 0);
    }
    FilterKeepsAll(data, item => Matches(item, ""));
  }
}
