# Bracket highlighting for a code area, in Dafny

This project models `BracketHighlighter`, the core of a small code-editor demo.
The class keeps a bracket index of the editor's text. The index is a symmetric
map from each matched `[` or `]` to its partner, and it is rebuilt on every
text change. On each caret move, the class clears the previous highlight and
then highlights the pair at the caret with the style classes `{loop, match}`.

Files and modules:

- `bracket_index.dfy`, module `BracketIndex`. This is the index as a pure specification.
  - `Brackets(code)` is a per-character left fold (`Step`, `ScanPrefix`) with a stack of pending `[` offsets.
  - `IndexOf` is Java's `String.indexOf`.
  - `Closes(code, k, j)` is an independent reference definition by nesting depth: the `]` at `j` is the first place after the `[` at `k` where the depth drops below zero.
  - The scan invariant `Inv` is proved for every prefix. The lemmas state symmetry, that keys are brackets, that an open comes before its close, that pairs do not cross, and that the index holds exactly the pairs `Closes` describes (so unmatched brackets are absent).
- `editor.dfy`, module `Editor`. This is the host code area, reduced to what the highlighter uses: the text as `seq<char>`, one style (a set of style classes) per character, the caret, and `getLength`, `getText`, `setStyle`, `insert`, `deleteText` and `moveTo`. An insertion moves a caret at or after its position forward with the text, and a deletion moves a caret after its start back with the text.
- `highlight_spec.dfy`, module `HighlightSpec`. These are the session's operations as functions on values:
  - `Restyle` is the guarded `setStyle`.
  - `ClearPairs` is `clearBracket`'s effect.
  - `Adjust` is the caret adjustment.
  - `Highlight` is `highlightBracket(int)`.
  - The datatype `BracketPair` is the Java class `BracketPair` (BracketHighlighter.java:173-181): the two recorded offsets, `start` then `end`.
  - The lemmas say what a clear and a highlight leave on each character.
- `bracket_highlighter.dfy`, module `Highlighter`. This is class `BracketHighlighter` with the fields `brackets` and `bracketPairs`. It holds the imperative methods: the `while` scan with its stack, the guarded decoration, and the clear loop that removes pairs from the head of the list. Each method is proved against the functions above. The three listeners that the Java constructor registers are the sequential entry points `OnTextInserted`, `OnTextDeleted` and `OnCaretMoved`.
- `scenarios.dfy`, module `Scenarios`. These are lemmas about concrete texts: `a[b[c]d]e`, `[[`, `]]`, `[x]`, and a caret walking through `[a[b]c]`, both on the functions and through the class.

Three details of the code shape the model:

- The recorded `BracketPair` is `(lookup offset, partner)` (BracketHighlighter.java:85); it is not normalized to `(min, max)`. So with the caret just after the `]` of `[x]`, the recorded pair is `(2, 0)` (`CaretEitherSideExample`), and `start < end` is not an invariant.
- A pair is recorded whenever the lookup succeeds, even when neither end passes the in-bounds/still-a-bracket check and so nothing is decorated.
- `clearBracket` only reverts ends that are still in bounds and still hold a bracket. An end that is no longer a bracket keeps whatever style it had. So "after a clear no recorded offset carries `match`" is proved only for the offsets that still hold a bracket (`ClearPairsIdempotent`).

## Model

| member | source | states |
|---|---|---|
| `Highlighter.BracketHighlighter.InitializeBrackets` | src/main/java/in/pratanumandal/demo/BracketHighlighter.java:36-64 | The indexOf-driven scan, with its stack, leaves exactly `Brackets(code)` in the map. The map is cleared first, so the result depends on `code` alone, and rebuilding twice from the same text gives the same map. The pending list is untouched. |
| `BracketIndex.IndexOf` | src/main/java/in/pratanumandal/demo/BracketHighlighter.java:46-47 | The result is -1 exactly when `c` does not occur at or after `from`. Otherwise it is the first offset at or after `from` holding `c`. |
| `BracketIndex.ScanSkipsPlain` | src/main/java/in/pratanumandal/demo/BracketHighlighter.java:45-53 | Characters that are neither `[` nor `]` do not change the scan. So jumping the cursor to the next bracket found by indexOf agrees with a character-by-character scan. |
| `BracketIndex.ScanPrefixInv` | src/main/java/in/pratanumandal/demo/BracketHighlighter.java:42-61 | After every prefix, the following hold. The stack holds increasing, still-unpaired `[` offsets, and the depth above each equals the number of entries above it on the stack. The map is symmetric, and each `[` key is paired with the `]` that closes it. Every pair closed so far is present. No pairs cross. |
| `BracketIndex.Brackets` | src/main/java/in/pratanumandal/demo/BracketHighlighter.java:36-64 | The map `initializeBrackets(code)` leaves, as a left fold of one scan step per character. It is symmetric: every key and its partner are offsets inside the text, the partner is a different key, and it maps back: `brackets[brackets[k]] == k`. |
| `BracketIndex.BracketsKeysAreBrackets` | src/main/java/in/pratanumandal/demo/BracketHighlighter.java:46-58 | Every key holds `[` or `]`. A key holds `[` exactly when its partner lies after it, and then the partner holds `]`. |
| `BracketIndex.BracketsMatchClosing` | src/main/java/in/pratanumandal/demo/BracketHighlighter.java:42-61 | The index pairs a `[` at `k` with a `]` at `j` if and only if `j` is the first offset after `k` where the bracket depth falls below zero (`Closes`). This holds in both directions. |
| `BracketIndex.BracketsNested` | src/main/java/in/pratanumandal/demo/BracketHighlighter.java:51-58 | No crossing: a key strictly inside a pair has its partner strictly inside the same pair. |
| `BracketIndex.BracketsUnmatchedAbsent` | src/main/java/in/pratanumandal/demo/BracketHighlighter.java:55-60 | An offset is in the index if and only if it is a `[` that some `]` closes, or a `]` that closes some `[`. A `]` met with an empty stack and a `[` still pending at the end are absent. |
| `HighlightSpec.Restyle` | src/main/java/in/pratanumandal/demo/BracketHighlighter.java:88-113 | The guarded setStyle. The offset gets the style only if it is below the length and holds `[` or `]`. Every other character keeps its style. |
| `Highlighter.BracketHighlighter.StyleIfBracket` | src/main/java/in/pratanumandal/demo/BracketHighlighter.java:88-98 | The bounds check, the `getText` comparison and the `setStyle` call have the effect of `Restyle` on the code area's styles. The text and the caret do not change. |
| `HighlightSpec.Adjust` | src/main/java/in/pratanumandal/demo/BracketHighlighter.java:76-78 | The lookup offset is one less than the caret exactly when the caret is past 0 and the character before it is `[` or `]`. Otherwise it is the caret. |
| `HighlightSpec.Highlight` | src/main/java/in/pratanumandal/demo/BracketHighlighter.java:71-117 | After a highlight, at most one pair is recorded, and a pair is recorded exactly when the adjusted caret is a key of the index. That pair is `(adjusted caret, its partner)`, in that order. |
| `HighlightSpec.HighlightEffect` | src/main/java/in/pratanumandal/demo/BracketHighlighter.java:83-116 | After a highlight, a bracket at an end of the recorded pair is `{loop, match}`. Every other character has the style that the preceding clear left, which may itself be a stale `{loop, match}`. |
| `HighlightSpec.HighlightFreshIndex` | src/main/java/in/pratanumandal/demo/BracketHighlighter.java:80-116 | When the index was built from the live text, a recorded pair is one `[` and the `]` that closes it, both in bounds, and both ends are decorated `{loop, match}`. |
| `Highlighter.BracketHighlighter.HighlightBracketAt` | src/main/java/in/pratanumandal/demo/BracketHighlighter.java:71-119 | The method clears first, adjusts the caret, looks up the index, decorates under the guard and appends the pair. The new styles and the pair list are `Highlight` of the old ones. The text, the caret and the index do not change, and at most one pair stays recorded. |
| `Highlighter.BracketHighlighter.HighlightBracket` | src/main/java/in/pratanumandal/demo/BracketHighlighter.java:124-126 | The same as `HighlightBracketAt` at the code area's current caret. |
| `Highlighter.BracketHighlighter.ClearBracket` | src/main/java/in/pratanumandal/demo/BracketHighlighter.java:131-168 | The iterator loop leaves the list empty and the styles equal to `ClearPairs` of the old styles and the old list. The text, the caret and the index do not change. On an empty list it changes nothing. |
| `HighlightSpec.ClearPairs` | src/main/java/in/pratanumandal/demo/BracketHighlighter.java:131-166 | The effect of `clearBracket` on the styles: the recorded pairs are taken from the head of the list, start before end, and each end goes through the guarded setStyle with `{loop}`. The length of the style sequence is kept. |
| `HighlightSpec.ClearPairsEffect` | src/main/java/in/pratanumandal/demo/BracketHighlighter.java:131-166 | After a clear, a character is `{loop}` if it is a bracket at an end of some recorded pair. Every other character keeps its style. |
| `HighlightSpec.ClearPairsIdempotent` | src/main/java/in/pratanumandal/demo/BracketHighlighter.java:131-166 | After a clear, no recorded bracket offset carries `match`. Clearing the same pairs again changes nothing. |
| `HighlightSpec.HighlightThenClear` | src/main/java/in/pratanumandal/demo/BracketHighlighter.java:74-166 | After a highlight followed by a clear, every decorated bracket is back to `{loop}`. Every other character is as the first clear left it. |
| `Highlighter.BracketHighlighter.constructor` | src/main/java/in/pratanumandal/demo/BracketHighlighter.java:20-29 | The index is empty and no pair is recorded, whatever the text of the code area is. |
| `Highlighter.BracketHighlighter.OnTextInserted` | src/main/java/in/pratanumandal/demo/BracketHighlighter.java:26-27 | Event order for an insertion: first clear, then insert, then rebuild. Afterwards no pair is recorded, the index is `Brackets` of the new text, a caret at or after `pos` has moved forward by the inserted length (one before `pos` stays), and the styles are the cleared old ones with the inserted run spliced in. |
| `Highlighter.BracketHighlighter.OnTextDeleted` | src/main/java/in/pratanumandal/demo/BracketHighlighter.java:27 | A deletion fires only the text listener: the index is `Brackets` of the new text, the recorded pairs and the remaining styles stay, and the caret shifts back with the text. |
| `Highlighter.BracketHighlighter.OnCaretMoved` | src/main/java/in/pratanumandal/demo/BracketHighlighter.java:28 | A caret move to `pos` results in `Highlight` at `pos`, and the caret is at `pos`. |
| `Scenarios.NestedExample` | src/main/java/in/pratanumandal/demo/BracketHighlighter.java:36-64 | `a[b[c]d]e` indexes exactly 1↔7 and 3↔5. The letters are absent. |
| `Scenarios.UnmatchedExamples` | src/main/java/in/pratanumandal/demo/BracketHighlighter.java:55-60 | `[[` and `]]` both give the empty index. |
| `Scenarios.CaretEitherSideExample` | src/main/java/in/pratanumandal/demo/BracketHighlighter.java:76-85 | In `[x]`, the caret at 1 records `(0, 2)` and the caret at 3 records `(2, 0)`: the same two offsets. |
| `Scenarios.CaretWalkExample` | src/main/java/in/pratanumandal/demo/BracketHighlighter.java:71-166 | In `[a[b]c]`, the caret at 0 highlights 0 and 6. Moving it to 3 reverts 0 and 6 to `{loop}` and highlights 2 and 4. |

## Left out

- The `synchronized` modifiers and the mutual exclusion between listener callbacks. This is concurrency. The entry points are sequential methods, each one atomic.
- Listener registration on the code area. The three callbacks are the entry points `OnTextInserted` (insertion listener, then text listener), `OnTextDeleted` (text listener) and `OnCaretMoved` (caret listener). When an edit moves the caret, the caret listener's callback is a separate `OnCaretMoved` call at the new caret, not part of `Insert` or `Delete`.
- The RichTextFX widget internals: rendering, undo, selection, and how styles follow edits. `setStyle` is modelled as overwriting the style of each character in the range. A style is a set of style classes, not a list.
- `CustomCodeArea` is not part of this model. Its text-insertion listener is assumed to fire before an insertion and not on a deletion. So a deletion (`OnTextDeleted`) only rebuilds the index, and the pairs recorded before it stay, possibly pointing at offsets that moved. If the hook also fires on deletions, a deletion would clear first, as `OnTextInserted` does. Replacing a range of text is not modelled; it is a deletion followed by an insertion.
- Controller.java: the key-typed handler that auto-inserts and skips `]`. It is UI glue over widget calls.
- GUI.java: application, FXML and stylesheet bootstrap.
- `BracketPair.getStart`, `getEnd` and `toString`. They are trivial accessors.
- Java `int` overflow. Offsets are `nat`. Every offset the code computes is below the text's length, which is at most `Integer.MAX_VALUE`, so `index + 1`, `i + 1`, `j + 1` and `pair.start + 1` are at most `Integer.MAX_VALUE` and cannot overflow.
- Text encoding. A Dafny `char` is a Unicode scalar value and cannot be a surrogate, so a Java string with characters outside the Basic Multilingual Plane is not literally a Dafny string. The model's text stands for the sequence of the Java string's UTF-16 code units, with each surrogate unit written as some `char` that is not a bracket. Only under that encoding do the offsets and `getText(i, i + 1)` agree with Java's.
