# Formula input, modelled in Dafny

This project models the formula editor of a small React application. A user
types an arithmetic formula into one text field. Suggestions for the word
being typed come from an autocomplete endpoint. Picking a suggestion puts a
tag `[name]` into the text and registers its value. Pressing Enter replaces
every tag by its value, evaluates the result and hands the formula to a
store. While editing, the text is drawn with every `[...]` span shown as a
chip.

The component's state (`inputValue`, `displayValue`, `tags`,
`cursorPosition`, `isFocused`) and the string last given to the store's
`setFormula` are one immutable `State` value. Every handler is a pure
function from state to state. The model has these modules:

- `Wrappers`: `Option`.
- `JsString`: the JavaScript string primitives the component relies on, with
  their edge cases. These are `s[i]` out of range, `slice` with negative
  bounds, `lastIndexOf` with its clamped start, `includes`, ASCII
  `toLowerCase`, `trim` over the ECMAScript whitespace set, `split(c)[0]`, and
  a global replace of a literal pattern.
- `Autocomplete`: the suggestion record and the client-side filter.
- `Formula`: the state, the current word and the query's `enabled` flag.
- `Substitution`: the substitution loop of `calculateResult`.
- `Render`: `renderInputWithTags`, meaning the regular-expression split and
  the chip classification.
- `TagInsertion`: `insertTag`.
- `FormulaInput`: the remaining handlers, an event dispatcher and runs of
  events.

Behaviour of the code worth knowing, all stated in the model:

- **Duplicate tag names.** The first tag registered under a name decides its
  value, not the last. The first replacement removes every `[name]` span, so
  later tags of the same name find nothing left to replace.
  `Substitution.FirstRegisteredWins` proves this when no value can rebuild a
  pattern. `Substitution.UnsafeValueLetsLaterDuplicateDecide` shows that
  without that condition a later tag can still decide.
- **Which `[` Backspace uses.** Backspace after a `]` removes text back to the
  nearest `[` on its left (`lastIndexOf`), whether or not that `[` opens a
  balanced span.
- **Backspace with no `[`.** With a `]` before the caret and no `[` to its
  left, `preventDefault` has already run, so nothing is deleted.
- **Backspace in `a+[Revenue]+b`.** The `]` is at index 10, so the caret just
  after it is 11. Backspace there gives `a++b` with the caret at 2. At caret
  10 the handler leaves the state alone and lets the browser delete the `e`.
- **Evaluating `[Price]*2`** with `Price` worth 10 evaluates `10*2`, and the
  store receives `[Price]*2 = 20` when the result is 20.
- **Enter on empty text.** `return ` evaluates to `undefined`, which is shown.
  Focusing again refills the empty text from the shown result, so the text
  becomes `undefined`. The refill can only recover the result, never the
  formula, because the shown text holds only the result.

## Model

| member | source | states |
|---|---|---|
| Autocomplete.MatchesMeansOccurrence | src/api/autocomplete.ts:18-19 | An item matches exactly when the lower-cased query occurs in the lower-cased name or the lower-cased category. |
| Autocomplete.Filter | src/api/autocomplete.ts:17 | `filter` keeps only accepted elements, and keeps each accepted element exactly as often as it occurs. |
| Autocomplete.FilterKeepsOrder | src/api/autocomplete.ts:17 | `filter` keeps the original order of what it keeps. |
| Autocomplete.FilterSuggestions | src/api/autocomplete.ts:17-20 | Every kept item matches the query, ignoring case, in its name or its category. Every matching item is kept, each as often as it occurs and in the original order. |
| Autocomplete.EmptyQueryKeepsAll | src/api/autocomplete.ts:17-20 | An empty query keeps the whole fetched list, because every string contains the empty string. |
| JsString.Includes | src/api/autocomplete.ts:18-19 | `includes` is true exactly when the needle occurs at some position of the haystack. |
| JsString.Lower | src/api/autocomplete.ts:18-19 | `toLowerCase` keeps the length and maps each upper-case ASCII letter to its lower-case letter. |
| JsString.Slice | src/components/FormulaInput.tsx:48-50 | Within bounds, `slice` is the ordinary substring. A negative end counts back from the end of the text. |
| JsString.LastIndexOf | src/components/FormulaInput.tsx:46 | The result is -1 or an index of the character no later than the start position. No later occurrence exists up to that position. |
| JsString.Trim | src/components/FormulaInput.tsx:119 | The result occurs in the input with only whitespace before and after it, and it neither starts nor ends with whitespace. |
| JsString.BeforeFirst | src/components/FormulaInput.tsx:119 | `split(c)[0]` is a prefix without `c`, and it is followed by `c` unless it is the whole string. |
| JsString.ReplaceAll | src/components/FormulaInput.tsx:74-75 | The global literal replace. It carries no contract of its own. `Substitution.ReplaceAllSpanAfterFree` states that a `[name]` occurrence becomes the replacement exactly once. `ReplaceAllWithoutPattern` states that absent patterns change nothing, and `ReplaceAllLeavesPatternFree` that none is left behind when the replacement is safe for the pattern. |
| JsString.ReplaceAllWithoutPattern | src/components/FormulaInput.tsx:74-75 | A global replace leaves a string that contains no occurrence of the pattern unchanged. |
| JsString.ReplaceAllLeavesPatternFree | src/components/FormulaInput.tsx:74-75 | After a global replace, the replaced pattern no longer occurs, as long as the replacement text cannot rebuild it. The same holds for any other pattern that was absent before. |
| Formula.CurrentWord | src/components/FormulaInput.tsx:25 | The current word is a suffix of the text. `CurrentWordShape` and `CurrentWordUnique` characterise it fully. |
| Formula.CurrentWordShape | src/components/FormulaInput.tsx:25 | The current word contains no operator. It is the whole text or follows an operator. It is empty exactly when the text is empty or ends in an operator. |
| Formula.CurrentWordUnique | src/components/FormulaInput.tsx:25 | Any suffix with the three properties of `CurrentWordShape` is the current word, so those properties define it. |
| Formula.QueryEnabled | src/components/FormulaInput.tsx:30 | Suggestions are requested exactly when the editor is focused and its text is non-empty and does not end in an operator. |
| Substitution.Substitute | src/components/FormulaInput.tsx:72-76 | The substitution loop, one replace-all per registered tag in registration order. It carries no contract of its own. `Substitution.FirstTagSpanBecomesValue` states that the first tag's `[name]` becomes its value. The rows below state what happens to the other spans. |
| Substitution.ReplaceAllSpanAfterFree | src/components/FormulaInput.tsx:74-75 | For a bracket-free name, the first `[name]` after text free of it becomes the replacement exactly once. The text before it is kept, and the replace continues after it. |
| Substitution.FirstTagSpanBecomesValue | src/components/FormulaInput.tsx:72-76 | The first registered tag's first `[name]` is replaced by the tag's value before any later tag is applied. |
| Substitution.ReplaceAllKeepsOtherSpan | src/components/FormulaInput.tsx:74-75 | Replacing one bracket-free name's spans keeps some span of a different bracket-free name. |
| Substitution.SubstituteWithoutPatterns | src/components/FormulaInput.tsx:72-76 | A formula that contains no registered `[name]` reaches evaluation unchanged. |
| Substitution.SubstituteAppend | src/components/FormulaInput.tsx:73-76 | Registering one more tag adds one more replace-all step at the end of the substitution. |
| Substitution.UnregisteredSpanSurvives | src/components/FormulaInput.tsx:72-76 | A `[name]` span whose name matches no registered tag is still in the formula handed to evaluation, given bracket-free names. |
| Substitution.FirstRegisteredWins | src/components/FormulaInput.tsx:72-76 | If no value can rebuild a pattern, substituting the whole registry gives the same formula as substituting only the first tag registered under each name. |
| Substitution.UnsafeValueLetsLaterDuplicateDecide | src/components/FormulaInput.tsx:72-76 | On `[[a]]` with tags `a:=a` and then `a:=b`, the result is `b`, while the first tag of each name alone gives `[a]`. So with values that rebuild a pattern, the first registration need not decide. |
| Substitution.FirstDuplicateDecidesPlainSpan | src/components/FormulaInput.tsx:72-76 | With the same two tags `a:=a` and then `a:=b`, a plain `[a]` becomes `a`. So the last registration need not decide either. |
| Render.MatchAt | src/components/FormulaInput.tsx:100 | A match of `\[[^\]]+\]` anchored at a position is found exactly when one exists, and what it covers is a bracket span. |
| Render.SplitSpans | src/components/FormulaInput.tsx:100 | The pieces of the split spell the text exactly. There are an odd number of them, and every captured piece is a bracket span. |
| Render.SplitSpansMissesNone | src/components/FormulaInput.tsx:100 | The split takes the leftmost match. No bracket span of the text starts at any position of an uncaptured piece, so no uncaptured piece contains a span either. |
| Render.LeftmostSpanWins | src/components/FormulaInput.tsx:100 | `[a[b]` splits into one span `[a[b]` between two empty pieces, so it becomes one chip named `a[b`, not a chip `b`. |
| Render.Classify | src/components/FormulaInput.tsx:102-112 | A piece becomes a chip exactly when it starts with `[` and ends with `]`. The chip's name is the text between the brackets, and the raw piece can always be recovered. |
| Render.RenderInputWithTags | src/components/FormulaInput.tsx:96-114 | When unfocused with a result, the view shows the result. Otherwise the segments spell the raw text. Every matched span is a chip with a non-empty name containing no `]`, and no plain piece hides a span. Each segment is the chip-or-text decision for its own text. Spans are matched leftmost first: no span starts in a plain piece, even one that runs past its end. |
| TagInsertion.InsertTag | src/components/FormulaInput.tsx:58-69 | A pick appends exactly one tag, carrying the item's id, name and value. It moves the caret by the tag's length minus the current word's length and changes nothing else except the text. |
| TagInsertion.InsertTagSplices | src/components/FormulaInput.tsx:61-64 | With at least a current word's length of text before the caret, `[name]` replaces the characters right before the caret and ends right before the new caret. |
| TagInsertion.InsertTagBeforeWord | src/components/FormulaInput.tsx:61-68 | With less text than that before the caret, the negative slice end keeps text from the far end. The new caret is negative exactly when the caret plus the tag's length is smaller than the current word's length. |
| TagInsertion.InsertAtEndReplacesCurrentWord | src/components/FormulaInput.tsx:58-69 | With the caret at the end of the text, the current word is replaced by `[name]`, the caret ends at the end, and what precedes the tag is empty or ends in an operator. |
| TagInsertion.InsertTagSubstitutesLast | src/components/FormulaInput.tsx:66 | The tag registered by a pick is substituted after every earlier tag. |
| TagInsertion.PickCanPushCaretBeforeStart | src/components/FormulaInput.tsx:68 | In `abc`, picking an empty-named item with the caret at 0 moves the caret to -1. |
| FormulaInput.HandleInputChange | src/components/FormulaInput.tsx:33-36 | Typing adopts the input's text and its caret, or 0 when the browser reports none. Nothing else changes. |
| FormulaInput.CalculateResult | src/components/FormulaInput.tsx:71-88 | After Enter, the editor leaves focus, and the text, registry and caret are kept. On success, the result is shown and `raw = result` is saved. On failure, the raw text is both shown and saved. |
| FormulaInput.SavedFormulaKeepsRawText | src/components/FormulaInput.tsx:80-85 | The saved formula always starts with the raw text, not the substituted text. |
| FormulaInput.PriceExample | src/components/FormulaInput.tsx:71-88 | `[Price]*2` with `Price` worth 10 is evaluated as `10*2`. With an evaluator giving 20, `20` is shown and `[Price]*2 = 20` is saved. |
| FormulaInput.Backspace | src/components/FormulaInput.tsx:42-55 | The default deletion is suppressed exactly when `]` is just before the caret. With a `[` to its left, the text from the nearest `[` to the caret is removed and the caret moves to that `[`. Otherwise the state is unchanged. |
| FormulaInput.RevenueExample | src/components/FormulaInput.tsx:42-55 | In `a+[Revenue]+b`, Backspace at 11 gives `a++b` with the caret at 2. At caret 10 the handler leaves the state alone and does not call `preventDefault`, so the browser deletes the `e`. |
| FormulaInput.HandleKeyDown | src/components/FormulaInput.tsx:38-56 | Enter is always suppressed, and it is exactly `CalculateResult`: it evaluates, keeps the text and leaves focus. Backspace is exactly `Backspace`. Every other key keeps the shown result, the focus and the saved formula. Keys other than Enter and Backspace change nothing and are not suppressed. No key changes the registry, and the caret stays inside the text. |
| FormulaInput.HandleFocus | src/components/FormulaInput.tsx:116-122 | Focusing clears the shown result and sets focus. An empty raw text is recovered from the shown result as the trimmed part before the first `=`. |
| FormulaInput.CommitThenFocusResumesEditing | src/components/FormulaInput.tsx:71-122 | With non-empty raw text, Enter followed by focusing returns to editing the same raw text with the same registry and caret. |
| FormulaInput.EmptyCommitRefillsFromResult | src/components/FormulaInput.tsx:77-88 | With empty raw text, Enter followed by focusing refills the text from the shown result, as the trimmed part before its first `=`. With `undefined` as the result, the text becomes `undefined`. |
| FormulaInput.Handle | src/components/FormulaInput.tsx:141-159 | Only a pick changes the registry, and it appends one tag. |
| FormulaInput.RunOnlyAppendsTags | src/components/FormulaInput.tsx:66 | Over any run of events, the old registry stays a prefix and exactly one tag is added per pick. Tags are never removed, even when their spans are deleted from the text. |
| FormulaInput.HandleKeepsCursorInBounds | src/components/FormulaInput.tsx:33-122 | An event keeps the caret inside the text if the browser reports an in-range caret and a pick does not push the caret before the start. |
| FormulaInput.FromMount | src/components/FormulaInput.tsx:17-21 | From the freshly mounted editor, a run of caret-keeping events keeps the caret inside the text, and the registry holds exactly one tag per pick. |
| FormulaInput.RunKeepsCursorInBounds | src/components/FormulaInput.tsx:33-122 | Over a run of such events, the caret never leaves the text. |

## Left out

- The network fetch (`axios.get`) and React Query's caching and refetching. The model filters a list given as a parameter.
- Evaluating the substituted formula (`new Function`) and turning the result into text. Evaluation is a parameter that returns the result's text, or nothing when evaluation throws.
- Rendering, which is JSX, styling and icons. The `setSelectionRange` effect only mirrors `cursorPosition` into the DOM. The delayed `setIsFocused(false)` on blur is a timer. The suggestion list's visibility condition is layout.
- Console logging, and the rest of the formula store beyond the string given to `setFormula`.
- Substitution.Substitute: tag names are treated as literal text, not as regular expressions, and values are inserted literally. The source builds `\[name\]` as a regular expression, so metacharacters in names or `$` sequences in values would behave differently.
- JsString.Lower: only ASCII letters are lower-cased; full Unicode case mapping is not modelled.
- Tag values are kept as the text `value.toString()` produces. Number formatting is not modelled.
- FormulaInput.CommitThenFocusResumesEditing: it holds only for non-empty raw text. With empty text, focusing refills the text from the shown result instead, as `FormulaInput.EmptyCommitRefillsFromResult` states.
- Text is assumed to lie in the Basic Multilingual Plane, with one `char` standing for one UTF-16 code unit. JavaScript measures `length`, indexes, `slice`, `lastIndexOf` and the caret in code units. Outside that plane every length and caret index differs, and lone surrogates are not represented.
- Formula.CurrentWord: its own contract states only that the word is a suffix of the text. The full characterisation is in `Formula.CurrentWordShape` and `Formula.CurrentWordUnique`.
- Substitution.FirstRegisteredWins: it holds only when every value is non-empty and shares no character with any `[name]` pattern. `Substitution.UnsafeValueLetsLaterDuplicateDecide` shows the claim fails without that condition.
- The model has no claim that evaluation receives no `[` at all. A value can rebuild a span, and an unregistered name survives substitution.
