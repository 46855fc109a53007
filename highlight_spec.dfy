/**
 * The highlight session of BracketHighlighter as functions on values: what a
 * clear and a caret move do to the styles of the host buffer and to the list
 * of recorded bracket pairs.  The class in module Highlighter is proved
 * against these functions; the lemmas here state what they guarantee.
 */
module HighlightSpec {
  import opened BracketIndex
  import opened Editor

  /** The style of a bracket that is not highlighted: {loop}. */
  const Base: Style := {Loop}
  /** The style of a highlighted bracket: {loop, match}. */
  const Matched: Style := {Loop, Match}

  /** A recorded pair: the offset looked up and its partner in the index, in that order. */
  datatype BracketPair = BracketPair(start: nat, end: nat)

  /** A session's visible state: the styles of the buffer and the recorded pairs. */
  datatype Session = Session(styles: seq<Style>, pairs: seq<BracketPair>)

  /**
   * The guarded setStyle: `offset` gets `style` if it is inside the text and
   * still holds a bracket; every other character keeps its style.
   */
  function Restyle(text: string, styles: seq<Style>, offset: nat, style: Style): (r: seq<Style>)
    requires |styles| == |text|
    ensures |r| == |text|
    ensures forall t :: 0 <= t < |r| ==> r[t] == if t == offset && IsBracket(text[t]) then style else styles[t]
  {
    if offset < |text| && IsBracket(text[offset]) then styles[offset := style] else styles
  }

  /** clearBracket's effect on the styles: both ends of every recorded pair, in order, restyled to {loop}. */
  function ClearPairs(text: string, styles: seq<Style>, pairs: seq<BracketPair>): (r: seq<Style>)
    requires |styles| == |text|
    ensures |r| == |text|
    decreases |pairs|
  {
    if pairs == [] then styles
    else
      var cleared := Restyle(text, Restyle(text, styles, pairs[0].start, Base), pairs[0].end, Base);
      ClearPairs(text, cleared, pairs[1..])
  }

  /** The offsets named by some recorded pair. */
  function Offsets(pairs: seq<BracketPair>): (r: set<nat>)
    ensures forall q :: 0 <= q < |pairs| ==> pairs[q].start in r && pairs[q].end in r
    decreases |pairs|
  {
    if pairs == [] then {} else {pairs[0].start, pairs[0].end} + Offsets(pairs[1..])
  }

  /** The lookup offset for a caret: one back when the character just before the caret is a bracket. */
  function Adjust(text: string, caret: nat): (r: nat)
    requires caret <= |text|
    ensures r <= caret <= r + 1
    ensures r < caret <==> caret > 0 && IsBracket(text[caret - 1])
  {
    if caret > 0 && IsBracket(text[caret - 1]) then caret - 1 else caret
  }

  /**
   * highlightBracket(caret): clear the recorded pairs, look the adjusted caret
   * up in the index and, when it has a partner, decorate both ends (each only
   * if it is still an in-bounds bracket) and record the pair.
   */
  function Highlight(text: string, styles: seq<Style>, pairs: seq<BracketPair>,
                     brackets: map<nat, nat>, caret: nat): (r: Session)
    requires |styles| == |text| && caret <= |text|
    ensures |r.styles| == |text| && |r.pairs| <= 1
    ensures r.pairs == [] <==> Adjust(text, caret) !in brackets
    ensures r.pairs != [] ==>
      r.pairs[0].start == Adjust(text, caret) && r.pairs[0].end == brackets[Adjust(text, caret)]
  {
    var cleared := ClearPairs(text, styles, pairs);
    var at := Adjust(text, caret);
    if at in brackets then
      var pair := BracketPair(at, brackets[at]);
      Session(Restyle(text, Restyle(text, cleared, pair.start, Matched), pair.end, Matched), [pair])
    else
      Session(cleared, [])
  }

  // ---------------------------------------------------------------------------
  // Clearing

  /**
   * After a clear, a bracket at an offset of some recorded pair has style
   * {loop}; every other character keeps its style.
   */
  lemma {:induction false} ClearPairsEffect(text: string, styles: seq<Style>, pairs: seq<BracketPair>)
    requires |styles| == |text|
    ensures forall t :: 0 <= t < |text| ==>
      ClearPairs(text, styles, pairs)[t] == if t in Offsets(pairs) && IsBracket(text[t]) then Base else styles[t]
    decreases |pairs|
  {
    if pairs != [] {
      var cleared := Restyle(text, Restyle(text, styles, pairs[0].start, Base), pairs[0].end, Base);
      ClearPairsEffect(text, cleared, pairs[1..]);
    }
  }

  /** Nothing cleared keeps the "match" class, and clearing twice is clearing once. */
  lemma ClearPairsIdempotent(text: string, styles: seq<Style>, pairs: seq<BracketPair>)
    requires |styles| == |text|
    ensures forall t :: 0 <= t < |text| && t in Offsets(pairs) && IsBracket(text[t]) ==>
      Match !in ClearPairs(text, styles, pairs)[t]
    ensures ClearPairs(text, ClearPairs(text, styles, pairs), pairs) == ClearPairs(text, styles, pairs)
  {
    var once := ClearPairs(text, styles, pairs);
    ClearPairsEffect(text, styles, pairs);
    ClearPairsEffect(text, once, pairs);
  }

  // ---------------------------------------------------------------------------
  // Highlighting

  /**
   * After a highlight, a bracket at an end of the recorded pair has style
   * {loop, match}; every other character has the style the preceding clear
   * left it (which may itself be a stale {loop, match}).
   */
  lemma HighlightEffect(text: string, styles: seq<Style>, pairs: seq<BracketPair>,
                        brackets: map<nat, nat>, caret: nat)
    requires |styles| == |text| && caret <= |text|
    ensures var r := Highlight(text, styles, pairs, brackets, caret);
      forall t :: 0 <= t < |text| ==>
        r.styles[t] == if t in Offsets(r.pairs) && IsBracket(text[t]) then Matched
                       else ClearPairs(text, styles, pairs)[t]
  {
    var r := Highlight(text, styles, pairs, brackets, caret);
    if r.pairs != [] {
      assert Offsets(r.pairs) == {r.pairs[0].start, r.pairs[0].end};
    }
  }

  /**
   * With an index rebuilt from the live text, a recorded pair is one `[` and
   * the `]` that closes it, both inside the text, and both get decorated.
   */
  lemma HighlightFreshIndex(text: string, styles: seq<Style>, pairs: seq<BracketPair>, caret: nat)
    requires |styles| == |text| && caret <= |text|
    ensures var r := Highlight(text, styles, pairs, Brackets(text), caret);
      r.pairs != [] ==>
        var p := r.pairs[0];
        && p.start < |text| && p.end < |text|
        && IsBracket(text[p.start]) && IsBracket(text[p.end]) && text[p.start] != text[p.end]
        && (if p.start < p.end then Closes(text, p.start, p.end) else Closes(text, p.end, p.start))
        && r.styles[p.start] == Matched && r.styles[p.end] == Matched
  {
    var r := Highlight(text, styles, pairs, Brackets(text), caret);
    if r.pairs != [] {
      var m := Brackets(text);
      BracketsKeysAreBrackets(text);
      BracketsMatchClosing(text);
      var p := r.pairs[0];
      assert p.end in m && m[p.end] == p.start;
      HighlightEffect(text, styles, pairs, m, caret);
    }
  }

  /**
   * Highlighting and then clearing puts {loop} back on every decorated
   * bracket and leaves every other character as the first clear left it.
   */
  lemma HighlightThenClear(text: string, styles: seq<Style>, pairs: seq<BracketPair>,
                           brackets: map<nat, nat>, caret: nat)
    requires |styles| == |text| && caret <= |text|
    ensures var r := Highlight(text, styles, pairs, brackets, caret);
      forall t :: 0 <= t < |text| ==>
        ClearPairs(text, r.styles, r.pairs)[t] ==
          if t in Offsets(r.pairs) && IsBracket(text[t]) then Base else ClearPairs(text, styles, pairs)[t]
  {
    var r := Highlight(text, styles, pairs, brackets, caret);
    HighlightEffect(text, styles, pairs, brackets, caret);
    ClearPairsEffect(text, r.styles, r.pairs);
  }
}
