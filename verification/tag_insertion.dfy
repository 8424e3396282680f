/**
 * `insertTag`: picking a suggestion registers it as a tag and splices `[name]`
 * into the text in place of the current word before the caret.
 */
module TagInsertion {
  import opened JsString
  import opened Formula
  import opened Substitution
  import opened Autocomplete

  /**
   * `insertTag`: registers the picked item as a tag and splices `[name]` into
   * the text in place of the `|currentWord|` characters before the caret,
   * using `slice`, whose negative end counts from the end of the text.
   */
  function InsertTag(st: State, item: AutocompleteItem): (r: State)
    ensures r.tags == st.tags + [Tag(item.id, item.name, item.value)]
    ensures r.displayValue == st.displayValue && r.isFocused == st.isFocused && r.saved == st.saved
    ensures r.cursor == st.cursor - |CurrentWord(st.inputValue)| + |item.name| + 2
  {
    var cw := CurrentWord(st.inputValue);
    var tagText := TagPattern(item.name);
    st.(tags := st.tags + [Tag(item.id, item.name, item.value)],
        inputValue := Slice(st.inputValue, 0, st.cursor - |cw|) + tagText + SliceFrom(st.inputValue, st.cursor),
        cursor := st.cursor - |cw| + |tagText|)
  }

  /**
   * A pick with at least the current word's length of text before the caret
   * replaces the `|currentWord|` characters before the caret by `[name]`, and
   * leaves the caret just after the inserted span.
   */
  lemma InsertTagSplices(st: State, item: AutocompleteItem)
    requires |CurrentWord(st.inputValue)| <= st.cursor <= |st.inputValue|
    ensures var r, text, cw, tag := InsertTag(st, item), st.inputValue, CurrentWord(st.inputValue), TagPattern(item.name);
            && r.inputValue == text[..st.cursor - |cw|] + tag + text[st.cursor..]
            && |r.inputValue| == |text| + |item.name| + 2 - |cw|
            && 0 <= r.cursor - |tag| && r.cursor <= |r.inputValue|
            && r.inputValue[r.cursor - |tag|..r.cursor] == tag
            && r.inputValue[r.cursor - 1] == ']'
  {
    var r, text, cw, tag := InsertTag(st, item), st.inputValue, CurrentWord(st.inputValue), TagPattern(item.name);
    SpliceAtCaret(text, st.cursor, |cw|, tag);
  }

  /** `slice(0, caret - k)` with `k <= caret` keeps the text up to `k` characters before the caret. */
  lemma SpliceAtCaret(text: string, caret: nat, k: nat, tag: string)
    requires k <= caret <= |text|
    ensures var r := Slice(text, 0, caret - k) + tag + SliceFrom(text, caret);
            && r == text[..caret - k] + tag + text[caret..]
            && |r| == |text| + |tag| - k
            && r[caret - k..caret - k + |tag|] == tag
  {
    var r := Slice(text, 0, caret - k) + tag + SliceFrom(text, caret);
    assert r == text[..caret - k] + tag + text[caret..];
    assert r[caret - k..caret - k + |tag|] == tag;
  }

  /**
   * A pick with less text before the caret than the current word's length:
   * `slice` counts the negative end from the end of the text, so the text up
   * to `|text| - |currentWord| + caret` is kept in front of `[name]`, and the
   * caret lands before the start exactly when `caret + |name| + 2 < |currentWord|`.
   */
  lemma InsertTagBeforeWord(st: State, item: AutocompleteItem)
    requires 0 <= st.cursor < |CurrentWord(st.inputValue)|
    ensures var r, text, cw, tag := InsertTag(st, item), st.inputValue, CurrentWord(st.inputValue), TagPattern(item.name);
            && r.inputValue == text[..|text| - |cw| + st.cursor] + tag + text[st.cursor..]
            && r.cursor <= |r.inputValue|
            && (r.cursor >= 0 <==> st.cursor + |item.name| + 2 >= |cw|)
  {
    var r, text, cw, tag := InsertTag(st, item), st.inputValue, CurrentWord(st.inputValue), TagPattern(item.name);
    SpliceBeforeStart(text, st.cursor, |cw|, tag);
  }

  /** `slice(0, caret - k)` with `caret < k` keeps all but the last `k - caret` characters. */
  lemma SpliceBeforeStart(text: string, caret: nat, k: nat, tag: string)
    requires caret < k <= |text|
    ensures var r := Slice(text, 0, caret - k) + tag + SliceFrom(text, caret);
            && r == text[..|text| - k + caret] + tag + text[caret..]
            && |r| == 2 * |text| - k + |tag|
  {
  }

  /**
   * With the caret at the end of the text, the span replaced is exactly the
   * current word, and what precedes the new tag is empty or ends in an operator.
   */
  lemma InsertAtEndReplacesCurrentWord(st: State, item: AutocompleteItem)
    requires st.cursor == |st.inputValue|
    ensures var cw := CurrentWord(st.inputValue);
            var keep := |st.inputValue| - |cw|;
            && InsertTag(st, item).inputValue == st.inputValue[..keep] + TagPattern(item.name)
            && InsertTag(st, item).cursor == |InsertTag(st, item).inputValue|
            && (keep == 0 || IsOperator(st.inputValue[keep - 1]))
  {
    var text, cw := st.inputValue, CurrentWord(st.inputValue);
    InsertTagSplices(st, item);
    SuffixSplit(text, cw, TagPattern(item.name));
    CurrentWordShape(text);
  }

  /** Nothing follows the end of a text. */
  lemma SuffixSplit(text: string, w: string, x: string)
    requires |w| <= |text|
    ensures text[..|text| - |w|] + x + text[|text|..] == text[..|text| - |w|] + x
  {
    assert text[|text|..] == [];
  }

  /** After a pick, the evaluated formula is the old substitution with the new tag's replacement applied last. */
  lemma InsertTagSubstitutesLast(st: State, item: AutocompleteItem)
    ensures var r := InsertTag(st, item);
            Substitute(r.inputValue, r.tags)
            == ReplaceAll(Substitute(r.inputValue, st.tags), TagPattern(item.name), item.value)
  {
    SubstituteAppend(InsertTag(st, item).inputValue, st.tags, Tag(item.id, item.name, item.value));
  }

  /**
   * A pick can move a caret that was inside the text to before its start:
   * picking an item with an empty name while the caret sits at 0 in `abc`.
   */
  lemma PickCanPushCaretBeforeStart(st: State, item: AutocompleteItem)
    requires st.inputValue == "abc" && st.cursor == 0 && item.name == ""
    ensures CursorInBounds(st) && InsertTag(st, item).cursor == -1
  {
    CurrentWordUnique("abc", "abc");
  }
}
