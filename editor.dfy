/**
 * The host buffer that BracketHighlighter decorates (a RichTextFX code area),
 * reduced to what the highlighter uses: the text, one style per character,
 * the caret, and the calls getLength, getText, setStyle, insert, deleteText and moveTo.
 */
module Editor {

  /** The two style classes the highlighter sets: "loop" and "match". */
  datatype StyleClass = Loop | Match

  /** The style of one character: the set of its style classes. */
  type Style = set<StyleClass>

  class CodeArea {
    var text: string
    var styles: seq<Style>
    var caret: nat

    ghost predicate Valid()
      reads this
    {
      |styles| == |text| && caret <= |text|
    }

    constructor (text: string, style: Style)
      ensures Valid() && this.text == text && caret == 0
      ensures styles == seq(|text|, _ => style)
    {
      this.text := text;
      this.styles := seq(|text|, _ => style);
      this.caret := 0;
    }

    function GetLength(): (n: nat)
      reads this
    {
      |text|
    }

    function GetText(from: nat, to: nat): (s: string)
      reads this
      requires from <= to <= |text|
    {
      text[from..to]
    }

    /** Gives every character in [from, to) the style `style`; the text and the caret stay. */
    method SetStyle(from: nat, to: nat, style: Style)
      requires Valid() && from <= to <= |text|
      modifies this
      ensures Valid() && text == old(text) && caret == old(caret)
      ensures |styles| == |old(styles)|
      ensures forall t :: 0 <= t < |styles| ==> styles[t] == if from <= t < to then style else old(styles[t])
    {
      styles := styles[..from] + seq(to - from, _ => style) + styles[to..];
    }

    /**
     * Inserts `s` at `pos`, its characters styled `style`.  A caret at or after
     * `pos` moves forward with the text.
     */
    method Insert(pos: nat, s: string, style: Style)
      requires Valid() && pos <= |text|
      modifies this
      ensures Valid()
      ensures text == old(text[..pos]) + s + old(text[pos..])
      ensures styles == old(styles[..pos]) + seq(|s|, _ => style) + old(styles[pos..])
      ensures caret == if old(caret) < pos then old(caret) else old(caret) + |s|
    {
      text := text[..pos] + s + text[pos..];
      styles := styles[..pos] + seq(|s|, _ => style) + styles[pos..];
      if caret >= pos {
        caret := caret + |s|;
      }
    }

    /**
     * Removes the characters in [from, to) with their styles.  A caret after
     * the removed range shifts back with the text; one inside it lands at `from`.
     */
    method Delete(from: nat, to: nat)
      requires Valid() && from <= to <= |text|
      modifies this
      ensures Valid()
      ensures text == old(text[..from]) + old(text[to..])
      ensures styles == old(styles[..from]) + old(styles[to..])
      ensures caret == if old(caret) <= from then old(caret)
                       else if old(caret) < to then from
                       else old(caret) - (to - from)
    {
      text := text[..from] + text[to..];
      styles := styles[..from] + styles[to..];
      if caret > from {
        caret := if caret < to then from else caret - (to - from);
      }
    }

    method MoveTo(pos: nat)
      requires Valid() && pos <= |text|
      modifies this
      ensures Valid() && caret == pos && text == old(text) && styles == old(styles)
    {
      caret := pos;
    }
  }
}
