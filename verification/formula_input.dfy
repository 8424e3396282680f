/**
 * The event handlers of the `FormulaInput` component as pure transitions on
 * `State`: typing, Enter and Backspace, picking a suggestion, and focusing.
 * Evaluation of the substituted formula is a parameter, `None` when it throws.
 */
module FormulaInput {
  import opened Wrappers
  import opened JsString
  import opened Formula
  import opened Substitution
  import opened Autocomplete
  import opened TagInsertion

  /** Evaluates substituted formula text to the text of its result, or `None` when evaluation throws. */
  type Evaluator = string -> Option<string>

  // ---------------------------------------------------------------------------
  // Typing
  // ---------------------------------------------------------------------------

  /** `handleInputChange`: adopt the input's text and its caret, `selectionStart || 0`. */
  function HandleInputChange(st: State, value: string, selectionStart: Option<nat>): (r: State)
    ensures r == st.(inputValue := value, cursor := r.cursor)
    ensures selectionStart.Some? ==> r.cursor == selectionStart.value
    ensures selectionStart.None? ==> r.cursor == 0
    ensures (selectionStart.None? || selectionStart.value <= |value|) ==> CursorInBounds(r)
  {
    st.(inputValue := value, cursor := selectionStart.GetOr(0))
  }

  // ---------------------------------------------------------------------------
  // Evaluation
  // ---------------------------------------------------------------------------

  /**
   * `calculateResult`: substitute the registry into the raw text and evaluate
   * it. On success the display shows the result and the store receives
   * `raw = result`; on failure both fall back to the raw text. Either way the
   * editor leaves focus, and the raw text, registry and caret stay as they were.
   */
  function CalculateResult(st: State, eval: Evaluator): (r: State)
    ensures r.inputValue == st.inputValue && r.tags == st.tags && r.cursor == st.cursor
    ensures !r.isFocused && r.saved.Some?
    ensures eval(Substitute(st.inputValue, st.tags)).Some? ==>
              r.displayValue == eval(Substitute(st.inputValue, st.tags)).value
              && r.saved.value == st.inputValue + " = " + r.displayValue
    ensures eval(Substitute(st.inputValue, st.tags)).None? ==>
              r.displayValue == st.inputValue && r.saved.value == st.inputValue
  {
    var formula := Substitute(st.inputValue, st.tags);
    match eval(formula)
    case Some(result) =>
      st.(displayValue := result, saved := Some(st.inputValue + " = " + result), isFocused := false)
    case None =>
      st.(displayValue := st.inputValue, saved := Some(st.inputValue), isFocused := false)
  }

  /**
   * What the store receives always begins with the raw text, never the
   * substituted one, and it is exactly the raw text or the raw text followed
   * by ` = ` and the displayed result.
   */
  lemma SavedFormulaKeepsRawText(st: State, eval: Evaluator)
    ensures var r := CalculateResult(st, eval);
            r.saved.Some? && st.inputValue <= r.saved.value
            && (r.saved.value == st.inputValue + " = " + r.displayValue
                || r.saved.value == r.displayValue == st.inputValue)
  {
  }

  /** `[Price]*2` with `Price` worth `10` evaluates `10*2`, and the store receives the raw text with the result. */
  lemma PriceExample(eval: Evaluator)
    requires eval("10*2") == Some("20")
    ensures var st := State("[Price]*2", "", [Tag("p", "Price", "10")], 9, true, None);
            var r := CalculateResult(st, eval);
            r.displayValue == "20" && r.saved == Some("[Price]*2 = 20") && !r.isFocused
  {
    PriceSubstitution();
    assert "[Price]*2" + " = " + "20" == "[Price]*2 = 20";
  }

  lemma PriceSubstitution()
    ensures Substitute("[Price]*2", [Tag("p", "Price", "10")]) == "10*2"
  {
    var tags := [Tag("p", "Price", "10")];
    assert TagPattern("Price") == "[Price]";
    assert "[Price]" <= "[Price]*2" && "[Price]*2"[7..] == "*2";
    assert ReplaceAll("*2", "[Price]", "10") == "*2";
    assert ReplaceAll("[Price]*2", "[Price]", "10") == "10*2";
    assert tags[1..] == [];
    assert Substitute("[Price]*2", tags) == Substitute("10*2", []);
  }

  // ---------------------------------------------------------------------------
  // Keys
  // ---------------------------------------------------------------------------

  /** The handler's effect on the state, and whether it called `preventDefault`, which suppresses the browser's own edit. */
  datatype KeyOutcome = KeyOutcome(state: State, defaultPrevented: bool)

  /** `open` is the nearest `[` left of the `]` that sits just before the caret. */
  ghost predicate NearestOpen(text: string, cursor: int, open: int) {
    0 <= open < cursor - 1 && cursor <= |text| && text[open] == '['
    && forall k :: open < k < cursor - 1 ==> text[k] != '['
  }

  /**
   * Backspace: with `]` just before the caret the default deletion is always
   * suppressed; if some `[` lies to its left, the text from the nearest such
   * `[` up to the caret is removed and the caret moves to where that `[` was.
   */
  function Backspace(st: State): (r: KeyOutcome)
    ensures r.defaultPrevented <==> CharAt(st.inputValue, st.cursor - 1) == Some(']')
    ensures CharAt(st.inputValue, st.cursor - 1) != Some(']') ==> r.state == st
    ensures (CharAt(st.inputValue, st.cursor - 1) == Some(']')
             && forall k :: 0 <= k < st.cursor - 1 ==> st.inputValue[k] != '[') ==> r.state == st
    ensures forall open :: NearestOpen(st.inputValue, st.cursor, open) && st.inputValue[st.cursor - 1] == ']' ==>
              r.state == st.(inputValue := st.inputValue[..open] + st.inputValue[st.cursor..], cursor := open)
    ensures r.state != st ==>
              var open, text := r.state.cursor, st.inputValue;
              && 0 <= open && open + 2 <= st.cursor <= |text|
              && text[open] == '[' && text[st.cursor - 1] == ']'
              && |r.state.inputValue| == |text| - (st.cursor - open)
              && text == r.state.inputValue[..open] + text[open..st.cursor] + r.state.inputValue[open..]
    ensures CursorInBounds(st) ==> CursorInBounds(r.state)
  {
    var text := st.inputValue;
    var before := st.cursor - 1;
    if CharAt(text, before) == Some(']') then
      var open := LastIndexOf(text, '[', before);
      if open != -1 then
        var text' := Slice(text, 0, open) + SliceFrom(text, st.cursor);
        DeleteSpan(text, open, st.cursor);
        assert forall o :: NearestOpen(text, st.cursor, o) ==> o == open;
        KeyOutcome(st.(inputValue := text', cursor := open), true)
      else
        KeyOutcome(st, true)
    else
      KeyOutcome(st, false)
  }

  /** Cutting `text[open..cursor]` out with two `slice` calls, and how the cut text fits back in. */
  lemma DeleteSpan(text: string, open: nat, cursor: nat)
    requires open < cursor <= |text|
    ensures var t := Slice(text, 0, open) + SliceFrom(text, cursor);
            && t == text[..open] + text[cursor..]
            && |t| == |text| - (cursor - open)
            && text == t[..open] + text[open..cursor] + t[open..]
  {
    var before, span, after := text[..open], text[open..cursor], text[cursor..];
    assert Slice(text, 0, open) == before;
    assert SliceFrom(text, cursor) == after;
    var t := before + after;
    assert t[..open] == before && t[open..] == after;
    assert text == before + span + after;
  }

  /**
   * In `a+[Revenue]+b` the `]` is at index 10, so the caret just after it is
   * 11: Backspace there removes `[Revenue]`. At 10 the handler leaves the
   * state alone and does not suppress the browser's deletion of the `e`.
   */
  lemma RevenueExample()
    ensures var st := State("a+[Revenue]+b", "", [], 11, true, None);
            Backspace(st) == KeyOutcome(st.(inputValue := "a++b", cursor := 2), true)
    ensures var st := State("a+[Revenue]+b", "", [], 10, true, None);
            Backspace(st) == KeyOutcome(st, false)
  {
    var text := "a+[Revenue]+b";
    assert text[10] == ']' && text[9] == 'e' && text[2] == '[';
    assert forall k :: 2 < k < 10 ==> text[k] != '[';
    assert text[..2] + text[11..] == "a++b";
  }

  /** `handleKeyDown`: Enter evaluates, Backspace may delete a whole span, other keys are left to the browser. */
  function HandleKeyDown(st: State, key: string, eval: Evaluator): (r: KeyOutcome)
    ensures r.state.tags == st.tags
    ensures key == "Enter" ==> r.defaultPrevented && !r.state.isFocused && r.state.inputValue == st.inputValue
    ensures key == "Enter" ==> r == KeyOutcome(CalculateResult(st, eval), true)
    ensures key == "Backspace" ==> r == Backspace(st)
    ensures key != "Enter" ==> r.state.displayValue == st.displayValue && r.state.isFocused == st.isFocused
                               && r.state.saved == st.saved
    ensures key != "Enter" && key != "Backspace" ==> r == KeyOutcome(st, false)
    ensures CursorInBounds(st) ==> CursorInBounds(r.state)
  {
    if key == "Enter" then KeyOutcome(CalculateResult(st, eval), true)
    else if key == "Backspace" then Backspace(st)
    else KeyOutcome(st, false)
  }

  // ---------------------------------------------------------------------------
  // Focus
  // ---------------------------------------------------------------------------

  /**
   * `handleFocus`: enter editing with an empty display. Non-empty raw text is
   * kept; empty raw text next to a shown result is refilled with the trimmed
   * text before the result's first `=`.
   */
  function HandleFocus(st: State): (r: State)
    ensures r.isFocused && r.displayValue == ""
    ensures r.tags == st.tags && r.cursor == st.cursor && r.saved == st.saved
    ensures st.inputValue != "" ==> r.inputValue == st.inputValue
    ensures st.inputValue == "" && st.displayValue != "" ==> r.inputValue == Trim(BeforeFirst(st.displayValue, '='))
    ensures st.inputValue == "" && st.displayValue == "" ==> r.inputValue == ""
    ensures CursorInBounds(st) ==> CursorInBounds(r)
  {
    var text :=
      if st.displayValue != "" && st.displayValue != st.inputValue then
        (if st.inputValue != "" then st.inputValue else Trim(BeforeFirst(st.displayValue, '=')))
      else st.inputValue;
    st.(isFocused := true, inputValue := text, displayValue := "")
  }

  /** Committing and then focusing again returns to the same edit: text, registry and caret. */
  lemma CommitThenFocusResumesEditing(st: State, eval: Evaluator)
    requires st.inputValue != ""
    ensures var r := HandleFocus(CalculateResult(st, eval));
            r == st.(isFocused := true, displayValue := "", saved := r.saved) && r.saved.Some?
  {
  }

  /**
   * With empty raw text the edit is not resumed: the registry substitutes
   * nothing, so `return ` is evaluated. A result is shown in place of the
   * text, and focusing refills the editor from that result, since the shown
   * text holds only the result and never the formula. `return ` evaluates to
   * `undefined`, which then becomes the text.
   */
  lemma EmptyCommitRefillsFromResult(st: State, eval: Evaluator)
    requires st.inputValue == ""
    ensures var r := HandleFocus(CalculateResult(st, eval));
            eval("").Some? && eval("").value != "" ==> r.inputValue == Trim(BeforeFirst(eval("").value, '='))
    ensures eval("") == Some("undefined") ==> HandleFocus(CalculateResult(st, eval)).inputValue == "undefined"
  {
    EmptyFormulaUnchanged(st.tags);
    if eval("") == Some("undefined") {
      UndefinedIsItsOwnRefill("undefined");
    }
  }

  /** The registry finds nothing to replace in an empty formula. */
  lemma EmptyFormulaUnchanged(tags: seq<Tag>)
    ensures Substitute("", tags) == ""
  {
    forall i | 0 <= i < |tags| ensures Free("", TagPattern(tags[i].name)) {
    }
    SubstituteWithoutPatterns("", tags);
  }

  /** A result without `=` or surrounding white space is recovered whole by the refill. */
  lemma UndefinedIsItsOwnRefill(u: string)
    requires u == "undefined"
    ensures Trim(BeforeFirst(u, '=')) == u
  {
    assert forall k :: 0 <= k < |u| ==> u[k] != '=';
    BeforeAbsentSeparator(u, '=');
    assert !IsJsWhitespace(u[0]) && !IsJsWhitespace(u[|u| - 1]);
    TrimUnpadded(u);
  }

  // ---------------------------------------------------------------------------
  // Event sequences
  // ---------------------------------------------------------------------------

  /** The events the component listens to. */
  datatype Event =
    | Change(value: string, selectionStart: Option<nat>)
    | KeyDown(key: string)
    | Focus
    | Pick(item: AutocompleteItem)

  /** Dispatches one event to its handler; the key handler's `preventDefault` does not affect the state. */
  function Handle(st: State, ev: Event, eval: Evaluator): (r: State)
    ensures ev.Pick? ==> r.tags == st.tags + [Tag(ev.item.id, ev.item.name, ev.item.value)]
    ensures !ev.Pick? ==> r.tags == st.tags
  {
    match ev
    case Change(value, sel) => HandleInputChange(st, value, sel)
    case KeyDown(key) => HandleKeyDown(st, key, eval).state
    case Focus => HandleFocus(st)
    case Pick(item) => InsertTag(st, item)
  }

  /** The state after a sequence of events. */
  function Run(st: State, evs: seq<Event>, eval: Evaluator): State
    decreases |evs|
  {
    if |evs| == 0 then st else Run(Handle(st, evs[0], eval), evs[1..], eval)
  }

  /** The number of suggestion picks in a sequence of events. */
  function Picks(evs: seq<Event>): nat
    decreases |evs|
  {
    if |evs| == 0 then 0 else (if evs[0].Pick? then 1 else 0) + Picks(evs[1..])
  }

  /**
   * The registry is never pruned: every run keeps the old tags as a prefix
   * and adds exactly one tag per pick, even when the tag's span is later
   * deleted from the text.
   */
  lemma {:induction false} RunOnlyAppendsTags(st: State, evs: seq<Event>, eval: Evaluator)
    ensures st.tags <= Run(st, evs, eval).tags
    ensures |Run(st, evs, eval).tags| == |st.tags| + Picks(evs)
    decreases |evs|
  {
    if |evs| > 0 {
      RunOnlyAppendsTags(Handle(st, evs[0], eval), evs[1..], eval);
    }
  }

  /**
   * The conditions under which an event keeps the caret inside the text: the
   * browser reports a caret within the new text, and a pick does not move the
   * caret before the start.
   */
  predicate KeepsCaret(st: State, ev: Event) {
    match ev
    case Change(value, sel) => sel.None? || sel.value <= |value|
    case Pick(item) => st.cursor + |item.name| + 2 >= |CurrentWord(st.inputValue)|
    case _ => true
  }

  /** Every event of the run keeps the caret, judged in the state it meets. */
  predicate CaretKeepingRun(st: State, evs: seq<Event>, eval: Evaluator)
    decreases |evs|
  {
    |evs| == 0 || (KeepsCaret(st, evs[0]) && CaretKeepingRun(Handle(st, evs[0], eval), evs[1..], eval))
  }

  /** One event that keeps the caret leaves it inside the text. */
  lemma HandleKeepsCursorInBounds(st: State, ev: Event, eval: Evaluator)
    requires CursorInBounds(st) && KeepsCaret(st, ev)
    ensures CursorInBounds(Handle(st, ev, eval))
  {
    if ev.Pick? {
      if st.cursor >= |CurrentWord(st.inputValue)| {
        InsertTagSplices(st, ev.item);
      } else {
        InsertTagBeforeWord(st, ev.item);
      }
    }
  }

  /** Along a run of caret-keeping events, the caret never leaves the text. */
  lemma {:induction false} RunKeepsCursorInBounds(st: State, evs: seq<Event>, eval: Evaluator)
    requires CursorInBounds(st) && CaretKeepingRun(st, evs, eval)
    ensures CursorInBounds(Run(st, evs, eval))
    decreases |evs|
  {
    if |evs| > 0 {
      HandleKeepsCursorInBounds(st, evs[0], eval);
      RunKeepsCursorInBounds(Handle(st, evs[0], eval), evs[1..], eval);
    }
  }

  /**
   * From the freshly mounted editor, a run of caret-keeping events keeps the
   * caret inside the text, and the registry holds exactly one tag per pick.
   */
  lemma FromMount(evs: seq<Event>, eval: Evaluator)
    requires CaretKeepingRun(Initial(), evs, eval)
    ensures CursorInBounds(Run(Initial(), evs, eval))
    ensures |Run(Initial(), evs, eval).tags| == Picks(evs)
  {
    RunKeepsCursorInBounds(Initial(), evs, eval);
    RunOnlyAppendsTags(Initial(), evs, eval);
  }
}
