/**
 * Lemmas about concrete texts: the index of small inputs,
 * the caret on either side of a bracket, and a caret walking through nested
 * pairs, both on the functions and through the BracketHighlighter class.
 */
module Scenarios {
  import opened BracketIndex
  import opened Editor
  import opened HighlightSpec
  import opened Highlighter

  /** The scan of `a[b[c]d]e` up to the `c`: both opens pending, nothing paired. */
  lemma NestedOpens()
    ensures ScanPrefix("a[b[c]d]e", 5) == Scan([1, 3], map[])
  {
    var code := "a[b[c]d]e";
    assert ScanPrefix(code, 2) == Scan([1], map[]);
    assert ScanPrefix(code, 3) == Scan([1], map[]);
  }

  /** The scan of `a[b[c]d]e` up to the `d`: the inner pair closed, the outer `[` pending. */
  lemma NestedInner()
    ensures ScanPrefix("a[b[c]d]e", 7) == Scan([1], map[3 := 5, 5 := 3])
  {
    var code := "a[b[c]d]e";
    NestedOpens();
    assert ScanPrefix(code, 6) == Step(code, 5, Scan([1, 3], map[]));
  }

  /**
   * Nested pairs in `a[b[c]d]e` are matched inner to inner (closed first) and
   * outer to outer; letters are absent.
   */
  lemma NestedExample()
    ensures Brackets("a[b[c]d]e") == map[3 := 5, 5 := 3, 1 := 7, 7 := 1]
  {
    var code := "a[b[c]d]e";
    NestedInner();
    assert ScanPrefix(code, 8) == Step(code, 7, Scan([1], map[3 := 5, 5 := 3]));
  }

  /** Two unmatched opens, or two unmatched closes, index nothing. */
  lemma UnmatchedExamples()
    ensures Brackets("[[") == map[]
    ensures Brackets("]]") == map[]
  {
    assert ScanPrefix("[[", 2) == Scan([0, 1], map[]);
    assert ScanPrefix("]]", 2) == Scan([], map[]);
  }

  /** In `[x]` the caret just inside the `[` and just after the `]` both find the pair of offsets 0 and 2. */
  lemma CaretEitherSideExample(styles: seq<Style>)
    requires |styles| == 3
    ensures Highlight("[x]", styles, [], Brackets("[x]"), 1).pairs == [BracketPair(0, 2)]
    ensures Highlight("[x]", styles, [], Brackets("[x]"), 3).pairs == [BracketPair(2, 0)]
  {
    assert ScanPrefix("[x]", 3) == Scan([], map[0 := 2, 2 := 0]);
  }

  /** The index of `[a[b]c]`: 2 pairs with 4 (closed first) and 0 with 6. */
  lemma WalkIndex()
    ensures Brackets("[a[b]c]") == map[2 := 4, 4 := 2, 0 := 6, 6 := 0]
  {
    var text := "[a[b]c]";
    assert ScanPrefix(text, 2) == Scan([0], map[]);
    assert ScanPrefix(text, 4) == Scan([0, 2], map[]);
    assert ScanPrefix(text, 5) == Scan([0], map[2 := 4, 4 := 2]);
    assert ScanPrefix(text, 6) == Scan([0], map[2 := 4, 4 := 2]);
    assert ScanPrefix(text, 7) == Scan([], map[2 := 4, 4 := 2, 0 := 6, 6 := 0]);
  }

  /** In `[a[b]c]` with every character {loop}, the caret at 0 highlights 0 and 6. */
  lemma WalkFirstMove()
    ensures var text := "[a[b]c]";
      var styles := seq(7, _ => Base);
      var first := Highlight(text, styles, [], Brackets(text), 0);
      && first.pairs == [BracketPair(0, 6)]
      && first.styles == styles[0 := Matched][6 := Matched]
  {
    var text := "[a[b]c]";
    var styles := seq(7, _ => Base);
    var b := Brackets(text);
    WalkIndex();
    var first := Highlight(text, styles, [], b, 0);
    assert first.pairs == [BracketPair(0, 6)];
    assert Offsets(first.pairs) == {0, 6};
    HighlightEffect(text, styles, [], b, 0);
  }

  /** From the state the first move leaves, the caret at 3 clears 0 and 6 and highlights 2 and 4. */
  lemma WalkSecondMove(first: Session)
    requires first.pairs == [BracketPair(0, 6)]
    requires first.styles == seq(7, _ => Base)[0 := Matched][6 := Matched]
    ensures Highlight("[a[b]c]", first.styles, first.pairs, Brackets("[a[b]c]"), 3) ==
      Session(seq(7, _ => Base)[2 := Matched][4 := Matched], [BracketPair(2, 4)])
  {
    var text := "[a[b]c]";
    var styles := seq(7, _ => Base);
    var b := Brackets(text);
    WalkIndex();
    assert first.pairs[1..] == [];
    assert ClearPairs(text, first.styles, first.pairs) == first.styles[0 := Base][6 := Base];
    assert first.styles[0 := Base][6 := Base] == styles;
    assert Adjust(text, 3) == 2;
    var second := Highlight(text, first.styles, first.pairs, b, 3);
    assert second.styles == styles[2 := Matched][4 := Matched];
  }

  /**
   * In `[a[b]c]` with every character {loop}: the caret at 0 highlights 0 and 6;
   * moving it to 3 puts {loop} back on 0 and 6 and highlights 2 and 4.
   */
  lemma CaretWalkExample()
    ensures var text := "[a[b]c]";
      var styles := seq(7, _ => Base);
      var first := Highlight(text, styles, [], Brackets(text), 0);
      var second := Highlight(text, first.styles, first.pairs, Brackets(text), 3);
      && first.pairs == [BracketPair(0, 6)]
      && first.styles == styles[0 := Matched][6 := Matched]
      && second.pairs == [BracketPair(2, 4)]
      && second.styles == styles[2 := Matched][4 := Matched]
  {
    WalkFirstMove();
    WalkSecondMove(Highlight("[a[b]c]", seq(7, _ => Base), [], Brackets("[a[b]c]"), 0));
  }

  /** The same walk through the class: a text change, then two caret moves. */
  method CaretWalkThroughListeners() {
    var area := new CodeArea("", Base);
    var highlighter := new BracketHighlighter(area);
    highlighter.OnTextInserted(0, "[a[b]c]", Base);
    assert area.text == "[a[b]c]";
    assert area.styles == seq(7, _ => Base);
    highlighter.OnCaretMoved(0);
    CaretWalkExample();
    assert highlighter.bracketPairs == [BracketPair(0, 6)];
    assert area.styles[0] == Matched && area.styles[6] == Matched;
    highlighter.OnCaretMoved(3);
    assert highlighter.bracketPairs == [BracketPair(2, 4)];
    assert area.styles[0] == Base && area.styles[6] == Base;
    assert area.styles[2] == Matched && area.styles[4] == Matched;
  }
}
