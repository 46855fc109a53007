/**
 * BracketHighlighter: keeps the bracket index of a code area's text and
 * highlights the pair at the caret.  Each method is proved against the
 * value-level specification in modules BracketIndex and HighlightSpec.
 */
module Highlighter {
  import opened BracketIndex
  import opened Editor
  import opened HighlightSpec

  class BracketHighlighter {
    /** The code area whose text is indexed and whose styles are set. */
    const codeArea: CodeArea
    /** The bracket index: offset of a matched bracket to the offset of its partner. */
    var brackets: map<nat, nat>
    /** The pairs highlighted and not yet cleared. */
    var bracketPairs: seq<BracketPair>

    ghost predicate Valid()
      reads this, codeArea
    {
      codeArea.Valid() && |bracketPairs| <= 1
    }

    /** Starts with an empty index and nothing highlighted; the listeners are the On* methods below. */
    constructor (codeArea: CodeArea)
      requires codeArea.Valid()
      ensures Valid() && this.codeArea == codeArea
      ensures brackets == map[] && bracketPairs == []
    {
      this.codeArea := codeArea;
      this.brackets := map[];
      this.bracketPairs := [];
    }

    /** Rebuilds the index from `code` with one left-to-right scan. */
    method InitializeBrackets(code: string)
      modifies this
      ensures brackets == Brackets(code) && bracketPairs == old(bracketPairs)
    {
      brackets := map[];
      var stack: seq<nat> := [];
      var index: nat := 0;
      while index < |code|
        invariant index <= |code|
        invariant Scan(stack, brackets) == ScanPrefix(code, index)
        invariant bracketPairs == old(bracketPairs)
        decreases |code| - index
      {
        var i := IndexOf(code, Open, index);
        var j := IndexOf(code, Close, index);
        if i == -1 && j == -1 {
          ScanSkipsPlain(code, index, |code|);
          break;
        } else if i != -1 && (i < j || j == -1) {
          ScanSkipsPlain(code, index, i);
          assert ScanPrefix(code, i + 1) == Step(code, i, Scan(stack, brackets));
          stack := stack + [i];
          index := i + 1;
        } else {
          // BracketHighlighter.java tests `j != -1` here; it always holds at this point.
          assert j != -1;
          ScanSkipsPlain(code, index, j);
          assert ScanPrefix(code, j + 1) == Step(code, j, Scan(stack, brackets));
          if |stack| > 0 {
            var k := stack[|stack| - 1];
            stack := stack[..|stack| - 1];
            brackets := brackets[k := j];
            brackets := brackets[j := k];
          }
          index := j + 1;
        }
      }
    }

    /** Sets `style` at `offset` if it is inside the text and holds `[` or `]`. */
    method StyleIfBracket(offset: nat, style: Style)
      requires codeArea.Valid()
      modifies codeArea
      ensures codeArea.Valid() && codeArea.text == old(codeArea.text) && codeArea.caret == old(codeArea.caret)
      ensures codeArea.styles == Restyle(codeArea.text, old(codeArea.styles), offset, style)
    {
      if offset < codeArea.GetLength() {
        var text := codeArea.GetText(offset, offset + 1);
        assert text == [codeArea.text[offset]];
        if text == "[" || text == "]" {
          codeArea.SetStyle(offset, offset + 1, style);
          assert codeArea.styles == old(codeArea.styles)[offset := style];
        }
      }
    }

    /** Clears the highlights at the caret position `newVal`, then highlights the pair found there. */
    method HighlightBracketAt(newVal: nat)
      requires Valid() && newVal <= |codeArea.text|
      modifies this, codeArea
      ensures Valid() && brackets == old(brackets)
      ensures codeArea.text == old(codeArea.text) && codeArea.caret == old(codeArea.caret)
      ensures Session(codeArea.styles, bracketPairs) ==
        Highlight(codeArea.text, old(codeArea.styles), old(bracketPairs), brackets, newVal)
    {
      ClearBracket();
      var prevChar := if newVal > 0 then codeArea.GetText(newVal - 1, newVal) else "";
      assert newVal > 0 ==> prevChar == [codeArea.text[newVal - 1]];
      var at := newVal;
      if prevChar == "[" || prevChar == "]" {
        at := newVal - 1;
      }
      if at in brackets {
        var pair := BracketPair(at, brackets[at]);
        StyleIfBracket(pair.start, Matched);
        StyleIfBracket(pair.end, Matched);
        bracketPairs := bracketPairs + [pair];
      }
    }

    /** Highlights the pair at the code area's current caret. */
    method HighlightBracket()
      requires Valid()
      modifies this, codeArea
      ensures Valid() && brackets == old(brackets)
      ensures codeArea.text == old(codeArea.text) && codeArea.caret == old(codeArea.caret)
      ensures Session(codeArea.styles, bracketPairs) ==
        Highlight(codeArea.text, old(codeArea.styles), old(bracketPairs), brackets, codeArea.caret)
    {
      HighlightBracketAt(codeArea.caret);
    }

    /** Reverts both ends of every recorded pair to {loop} (each only if still a bracket), emptying the list. */
    method ClearBracket()
      requires Valid()
      modifies this, codeArea
      ensures Valid() && bracketPairs == [] && brackets == old(brackets)
      ensures codeArea.text == old(codeArea.text) && codeArea.caret == old(codeArea.caret)
      ensures codeArea.styles == ClearPairs(codeArea.text, old(codeArea.styles), old(bracketPairs))
    {
      while |bracketPairs| > 0
        invariant Valid() && brackets == old(brackets)
        invariant codeArea.text == old(codeArea.text) && codeArea.caret == old(codeArea.caret)
        invariant ClearPairs(codeArea.text, codeArea.styles, bracketPairs) ==
          ClearPairs(codeArea.text, old(codeArea.styles), old(bracketPairs))
        decreases |bracketPairs|
      {
        var pair := bracketPairs[0];
        StyleIfBracket(pair.start, Base);
        StyleIfBracket(pair.end, Base);
        bracketPairs := bracketPairs[1..];
      }
    }

    // -------------------------------------------------------------------------
    // The listeners registered in the constructor, as sequential entry points

    /** Text inserted: the insertion listener clears, then the text listener rebuilds the index. */
    method OnTextInserted(pos: nat, s: string, style: Style)
      requires Valid() && pos <= |codeArea.text|
      modifies this, codeArea
      ensures Valid() && bracketPairs == [] && brackets == Brackets(codeArea.text)
      ensures codeArea.caret == if old(codeArea.caret) < pos then old(codeArea.caret) else old(codeArea.caret) + |s|
      ensures codeArea.text == old(codeArea.text[..pos]) + s + old(codeArea.text[pos..])
      ensures var cleared := ClearPairs(old(codeArea.text), old(codeArea.styles), old(bracketPairs));
        codeArea.styles == cleared[..pos] + seq(|s|, _ => style) + cleared[pos..]
    {
      ClearBracket();
      codeArea.Insert(pos, s, style);
      InitializeBrackets(codeArea.text);
    }

    /**
     * Text deleted: only the text listener fires, so the index is rebuilt
     * from the new text while the recorded pairs and their styles stay.
     */
    method OnTextDeleted(from: nat, to: nat)
      requires Valid() && from <= to <= |codeArea.text|
      modifies this, codeArea
      ensures Valid() && bracketPairs == old(bracketPairs) && brackets == Brackets(codeArea.text)
      ensures codeArea.text == old(codeArea.text[..from]) + old(codeArea.text[to..])
      ensures codeArea.styles == old(codeArea.styles[..from]) + old(codeArea.styles[to..])
      ensures codeArea.caret == if old(codeArea.caret) <= from then old(codeArea.caret)
                                else if old(codeArea.caret) < to then from
                                else old(codeArea.caret) - (to - from)
    {
      codeArea.Delete(from, to);
      InitializeBrackets(codeArea.text);
    }

    /** Caret moved to `pos`: the caret listener highlights there. */
    method OnCaretMoved(pos: nat)
      requires Valid() && pos <= |codeArea.text|
      modifies this, codeArea
      ensures Valid() && brackets == old(brackets) && codeArea.caret == pos
      ensures codeArea.text == old(codeArea.text)
      ensures Session(codeArea.styles, bracketPairs) ==
        Highlight(codeArea.text, old(codeArea.styles), old(bracketPairs), brackets, pos)
    {
      codeArea.MoveTo(pos);
      HighlightBracketAt(pos);
    }
  }
}
