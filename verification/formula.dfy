/**
 * The state of the formula editor and the quantities derived from it on every
 * render: the word under edit and whether suggestions are requested for it.
 */
module Formula {
  import opened Wrappers

  /** A reference inserted into the formula as `[name]`; `value` is the text `value.toString()` yields. */
  datatype Tag = Tag(id: string, name: string, value: string)

  /**
   * Everything the editor keeps between events. `saved` is the last string
   * handed to the formula store's `setFormula`, `None` before the first
   * evaluation. `cursor` is an integer because insertion can compute a
   * negative one.
   */
  datatype State = State(
    inputValue: string,
    displayValue: string,
    tags: seq<Tag>,
    cursor: int,
    isFocused: bool,
    saved: Option<string>)

  /** The state of a freshly mounted editor. */
  function Initial(): State {
    State("", "", [], 0, false, None)
  }

  /** The caret lies inside the raw text. */
  predicate CursorInBounds(st: State) {
    0 <= st.cursor <= |st.inputValue|
  }

  /** The characters of the split pattern `/[-+*\/()^]/`. */
  const Operators: set<char> := {'-', '+', '*', '/', '(', ')', '^'}

  predicate IsOperator(c: char) {
    c in Operators
  }

  /**
   * `text.split(/[-+*\/()^]/).pop() || ""`: the trailing segment of the whole
   * text after its last operator. It does not depend on the cursor.
   */
  function CurrentWord(text: string): (w: string)
    decreases |text|
    ensures |w| <= |text| && w == text[|text| - |w|..]
  {
    if |text| == 0 || IsOperator(text[|text| - 1]) then ""
    else CurrentWord(text[..|text| - 1]) + [text[|text| - 1]]
  }

  /**
   * The current word holds no operator, is the whole text or follows an
   * operator, and is empty exactly when the text is empty or ends in an operator.
   */
  lemma CurrentWordShape(text: string)
    ensures var w := CurrentWord(text);
            && (forall i :: 0 <= i < |w| ==> !IsOperator(w[i]))
            && (|w| < |text| ==> IsOperator(text[|text| - |w| - 1]))
            && (|w| == 0 <==> |text| == 0 || IsOperator(text[|text| - 1]))
  {
    CurrentWordHasNoOperator(text);
    CurrentWordFollowsOperator(text);
  }

  /** No character of the current word is an operator. */
  lemma {:induction false} CurrentWordHasNoOperator(text: string)
    ensures forall i :: 0 <= i < |CurrentWord(text)| ==> !IsOperator(CurrentWord(text)[i])
    decreases |text|
  {
    if |text| > 0 && !IsOperator(text[|text| - 1]) {
      var text' := text[..|text| - 1];
      CurrentWordHasNoOperator(text');
      var w' := CurrentWord(text');
      assert CurrentWord(text) == w' + [text[|text| - 1]];
    }
  }

  /** A current word shorter than the text is preceded by an operator. */
  lemma {:induction false} CurrentWordFollowsOperator(text: string)
    ensures |CurrentWord(text)| < |text| ==> IsOperator(text[|text| - |CurrentWord(text)| - 1])
    decreases |text|
  {
    if |text| > 0 && !IsOperator(text[|text| - 1]) {
      var text' := text[..|text| - 1];
      CurrentWordFollowsOperator(text');
      var w' := CurrentWord(text');
      assert |CurrentWord(text)| == |w'| + 1;
      if |w'| < |text'| {
        assert text[|text| - |w'| - 2] == text'[|text'| - |w'| - 1];
      }
    }
  }

  /**
   * The three properties of `CurrentWord` pin it down: any operator-free suffix
   * that is the whole text or is preceded by an operator is the current word.
   */
  lemma {:induction false} CurrentWordUnique(text: string, w: string)
    requires |w| <= |text| && w == text[|text| - |w|..]
    requires forall i :: 0 <= i < |w| ==> !IsOperator(w[i])
    requires |w| < |text| ==> IsOperator(text[|text| - |w| - 1])
    ensures w == CurrentWord(text)
    decreases |text|
  {
    if |w| > 0 {
      var text', w' := text[..|text| - 1], w[..|w| - 1];
      assert w[|w| - 1] == text[|text| - 1];
      assert w' == text'[|text'| - |w'|..];
      if |w'| < |text'| {
        assert text'[|text'| - |w'| - 1] == text[|text| - |w| - 1];
      }
      assert !IsOperator(text[|text| - 1]);
      CurrentWordUnique(text', w');
      assert w == w' + [text[|text| - 1]];
    }
  }

  /** The `enabled` flag of the suggestion query: a non-empty current word while focused. */
  function QueryEnabled(st: State): (r: bool)
    ensures r <==> st.isFocused && |st.inputValue| > 0 && !IsOperator(st.inputValue[|st.inputValue| - 1])
  {
    CurrentWordShape(st.inputValue);
    |CurrentWord(st.inputValue)| > 0 && st.isFocused
  }
}
