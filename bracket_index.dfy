/**
 * The bracket index of BracketHighlighter: a symmetric map from the offset of
 * every matched `[` or `]` of a text to the offset of its partner.
 *
 * `Brackets` is the specification: a left-to-right fold of `Step` over the
 * characters, with a stack of pending `[` offsets.  `Closes` is an
 * independent reference definition of "the `]` at j closes the `[` at k",
 * by nesting depth, and the lemmas at the end prove that the index holds
 * exactly the pairs `Closes` describes, is symmetric, and never crosses.
 */
module BracketIndex {

  const Open: char := '['
  const Close: char := ']'

  predicate IsBracket(c: char) {
    c == Open || c == Close
  }

  /** `String.indexOf(c, from)`: the first offset at or after `from` holding `c`, or -1. */
  function IndexOf(s: string, c: char, from: nat): (r: int)
    requires from <= |s|
    ensures r == -1 || (from <= r < |s| && s[r] == c)
    ensures r == -1 ==> forall t :: from <= t < |s| ==> s[t] != c
    ensures r != -1 ==> forall t :: from <= t < r ==> s[t] != c
    decreases |s| - from
  {
    if from == |s| then -1
    else if s[from] == c then from
    else IndexOf(s, c, from + 1)
  }

  /** The state of the scan: the stack of pending `[` offsets (top last) and the index built so far. */
  datatype Scan = Scan(stack: seq<nat>, index: map<nat, nat>)

  /** One character of the scan: push a `[`, pop and pair on a `]`, drop an unmatched `]`. */
  function Step(code: string, n: nat, st: Scan): Scan
    requires n < |code|
  {
    if code[n] == Open then
      Scan(st.stack + [n], st.index)
    else if code[n] == Close && |st.stack| > 0 then
      var k := st.stack[|st.stack| - 1];
      Scan(st.stack[..|st.stack| - 1], st.index[k := n][n := k])
    else
      st
  }

  /** The scan after the first `n` characters of `code`. */
  function ScanPrefix(code: string, n: nat): Scan
    requires n <= |code|
    decreases n
  {
    if n == 0 then Scan([], map[]) else Step(code, n - 1, ScanPrefix(code, n - 1))
  }

  /**
   * The bracket index of `code`: what `initializeBrackets(code)` leaves in the
   * map.  It is symmetric: every key is an offset of `code` whose partner is a
   * different offset of `code` that maps back to it.
   */
  function Brackets(code: string): (m: map<nat, nat>)
    ensures forall k :: k in m ==>
      k < |code| && m[k] < |code| && m[k] in m && m[m[k]] == k && m[k] != k
  {
    ScanPrefixInv(code, |code|);
    ScanPrefix(code, |code|).index
  }

  // ---------------------------------------------------------------------------
  // Reference definition by nesting depth

  function Delta(c: char): int {
    if c == Open then 1 else if c == Close then -1 else 0
  }

  /** The net number of `[` over `]` strictly after offset k and before offset hi. */
  function Nest(code: string, k: nat, hi: nat): int
    requires k < hi <= |code|
    decreases hi
  {
    if hi == k + 1 then 0 else Nest(code, k, hi - 1) + Delta(code[hi - 1])
  }

  /** The `]` at j is the one that closes the `[` at k: the first place after k where the depth drops below zero. */
  ghost predicate Closes(code: string, k: nat, j: nat) {
    && k < j < |code|
    && code[k] == Open
    && Nest(code, k, j + 1) == -1
    && forall t :: k < t <= j ==> Nest(code, k, t) >= 0
  }

  lemma ClosesAtClose(code: string, k: nat, j: nat)
    requires Closes(code, k, j)
    ensures code[j] == Close
  {
    assert Nest(code, k, j) >= 0;
  }

  lemma ClosesUnique(code: string, k: nat, j1: nat, j2: nat)
    requires Closes(code, k, j1) && Closes(code, k, j2)
    ensures j1 == j2
  {
  }

  // ---------------------------------------------------------------------------
  // The invariant of the scan

  /** Pending `[` offsets: increasing, unmatched so far, and the stack above each is its open depth. */
  ghost predicate StackOk(code: string, n: nat, st: Scan)
    requires n <= |code|
  {
    var s := st.stack;
    && StackShape(code, n, st)
    && (forall p :: 0 <= p < |s| ==> Nest(code, s[p], n) == |s| - 1 - p)
    && (forall p, t :: 0 <= p < |s| && s[p] < t <= n ==> Nest(code, s[p], t) >= 0)
  }

  ghost predicate StackShape(code: string, n: nat, st: Scan)
    requires n <= |code|
  {
    var s := st.stack;
    && (forall p :: 0 <= p < |s| ==> s[p] < n && code[s[p]] == Open && s[p] !in st.index)
    && (forall p, q :: 0 <= p < q < |s| ==> s[p] < s[q])
  }

  /** The index so far: symmetric, below n, every `[` key paired with the `]` that closes it. */
  ghost predicate IndexOk(code: string, n: nat, m: map<nat, nat>)
    requires n <= |code|
  {
    && Paired(m, n)
    && (forall k :: k in m && k < m[k] ==> Closes(code, k, m[k]))
    && (forall k :: k in m && m[k] < k ==> code[k] == Close)
  }

  /** A symmetric pairing of distinct offsets below n. */
  ghost predicate Paired(m: map<nat, nat>, n: nat) {
    forall k :: k in m ==> k < n && m[k] < n && m[k] in m && m[m[k]] == k && m[k] != k
  }

  /** Every pair closed before n is in the index; every `[` before n is pending or paired. */
  ghost predicate CompleteOk(code: string, n: nat, st: Scan)
    requires n <= |code|
  {
    && (forall k: nat, j: nat :: j < n && Closes(code, k, j) ==> k in st.index && st.index[k] == j)
    && (forall k: nat :: k < n && code[k] == Open ==> k in st.index || k in st.stack)
  }

  /** No two pairs cross, and no pending `[` lies inside a pair. */
  ghost predicate NestedOk(st: Scan) {
    var m := st.index;
    var s := st.stack;
    && (forall k1, k2 :: k1 in m && k2 in m && k1 < k2 < m[k1] ==> k1 < m[k2] < m[k1])
    && (forall p, k :: 0 <= p < |s| && k in m && k < s[p] ==> m[k] < s[p])
  }

  ghost predicate Inv(code: string, n: nat, st: Scan)
    requires n <= |code|
  {
    StackOk(code, n, st) && IndexOk(code, n, st.index) && CompleteOk(code, n, st) && NestedOk(st)
  }

  lemma NestStep(code: string, k: nat, hi: nat)
    requires k < hi < |code|
    ensures Nest(code, k, hi + 1) == Nest(code, k, hi) + Delta(code[hi])
  {
  }

  /** A character that is not `]` closes nothing. */
  lemma NoCloseAtNonClose(code: string, n: nat, k: nat)
    requires n < |code| && code[n] != Close
    ensures !Closes(code, k, n)
  {
    if Closes(code, k, n) {
      ClosesAtClose(code, k, n);
    }
  }

  /** A `[` paired before n is closed by its partner and by nothing else. */
  lemma PairedClosesOnce(code: string, n: nat, st: Scan)
    requires n <= |code| && IndexOk(code, n, st.index)
    ensures forall k, j :: k in st.index && k < st.index[k] && Closes(code, k, j) ==> j == st.index[k]
  {
    forall k, j | k in st.index && k < st.index[k] && Closes(code, k, j)
      ensures j == st.index[k]
    {
      ClosesUnique(code, k, st.index[k], j);
    }
  }

  lemma StepPlain(code: string, n: nat, st: Scan)
    requires n < |code| && !IsBracket(code[n]) && Inv(code, n, st)
    ensures Step(code, n, st) == st && Inv(code, n + 1, st)
  {
    var s := st.stack;
    forall p | 0 <= p < |s|
      ensures Nest(code, s[p], n + 1) == |s| - 1 - p
    {
      NestStep(code, s[p], n);
    }
    forall k: nat, j: nat | j < n + 1 && Closes(code, k, j)
      ensures k in st.index && st.index[k] == j
    {
      NoCloseAtNonClose(code, n, k);
    }
  }

  lemma StepOpen(code: string, n: nat, st: Scan)
    requires n < |code| && code[n] == Open && Inv(code, n, st)
    ensures Inv(code, n + 1, Step(code, n, st))
  {
    var st' := Step(code, n, st);
    StepOpenStack(code, n, st);
    forall k: nat, j: nat | j < n + 1 && Closes(code, k, j)
      ensures k in st'.index && st'.index[k] == j
    {
      NoCloseAtNonClose(code, n, k);
    }
  }

  lemma StepOpenStack(code: string, n: nat, st: Scan)
    requires n < |code| && code[n] == Open && StackOk(code, n, st) && Paired(st.index, n)
    ensures StackOk(code, n + 1, Step(code, n, st))
  {
    var s := st.stack;
    var s' := Step(code, n, st).stack;
    assert s' == s + [n];
    forall p | 0 <= p < |s'|
      ensures Nest(code, s'[p], n + 1) == |s'| - 1 - p
    {
      if p < |s| {
        NestStep(code, s[p], n);
      }
    }
  }

  lemma StepUnmatched(code: string, n: nat, st: Scan)
    requires n < |code| && code[n] == Close && st.stack == [] && Inv(code, n, st)
    ensures Step(code, n, st) == st && Inv(code, n + 1, st)
  {
    PairedClosesOnce(code, n, st);
    forall k: nat, j: nat | j < n + 1 && Closes(code, k, j)
      ensures k in st.index && st.index[k] == j
    {
    }
  }

  /** The pop at a matched `]`: `top` is the `[` that the `]` at n closes. */
  lemma PopCloses(code: string, n: nat, st: Scan)
    requires n < |code| && code[n] == Close && st.stack != [] && Inv(code, n, st)
    ensures Closes(code, st.stack[|st.stack| - 1], n)
  {
    NestStep(code, st.stack[|st.stack| - 1], n);
  }

  lemma StepMatchedStack(code: string, n: nat, st: Scan)
    requires n < |code| && code[n] == Close && st.stack != [] && Inv(code, n, st)
    ensures StackOk(code, n + 1, Step(code, n, st))
  {
    var s := st.stack;
    var s' := Step(code, n, st).stack;
    assert s' == s[..|s| - 1];
    forall p | 0 <= p < |s'|
      ensures Nest(code, s'[p], n + 1) == |s'| - 1 - p
    {
      NestStep(code, s[p], n);
    }
  }

  lemma StepMatchedIndex(code: string, n: nat, st: Scan)
    requires n < |code| && code[n] == Close && st.stack != [] && Inv(code, n, st)
    ensures IndexOk(code, n + 1, Step(code, n, st).index)
  {
    PopCloses(code, n, st);
    AddPair(code, n, st.index, st.stack[|st.stack| - 1]);
  }

  /** Pairing the `]` at n with the `[` it closes keeps the index well formed. */
  lemma AddPair(code: string, n: nat, m: map<nat, nat>, top: nat)
    requires n < |code| && code[n] == Close && top < n && top !in m
    requires Closes(code, top, n) && IndexOk(code, n, m)
    ensures IndexOk(code, n + 1, m[top := n][n := top])
  {
    var m' := m[top := n][n := top];
    forall k | k in m'
      ensures k < n + 1 && m'[k] < n + 1 && m'[k] in m' && m'[m'[k]] == k && m'[k] != k
    {
      if k != top && k != n {
        assert m'[k] == m[k] && m[k] in m;
      }
    }
    forall k | k in m' && k < m'[k]
      ensures Closes(code, k, m'[k])
    {
      if k != top {
        assert k != n && m'[k] == m[k];
      }
    }
    forall k | k in m' && m'[k] < k
      ensures code[k] == Close
    {
      if k != n {
        assert k != top && m'[k] == m[k];
      }
    }
  }

  lemma StepMatchedComplete(code: string, n: nat, st: Scan)
    requires n < |code| && code[n] == Close && st.stack != [] && Inv(code, n, st)
    ensures CompleteOk(code, n + 1, Step(code, n, st))
  {
    MatchedClosedPresent(code, n, st);
    MatchedOpensTracked(code, n, st);
  }

  /** After the pop at n, every pair closed up to n is in the index. */
  lemma MatchedClosedPresent(code: string, n: nat, st: Scan)
    requires n < |code| && code[n] == Close && st.stack != [] && Inv(code, n, st)
    ensures var m' := Step(code, n, st).index;
      forall k: nat, j: nat :: j < n + 1 && Closes(code, k, j) ==> k in m' && m'[k] == j
  {
    var s := st.stack;
    var top: nat := s[|s| - 1];
    var m' := Step(code, n, st).index;
    assert m' == st.index[top := n][n := top];
    PopCloses(code, n, st);
    // Only `top` is closed at n: neither a paired `[` nor one deeper in the stack is.
    PairedClosesOnce(code, n, st);
    forall q | 0 <= q < |s| - 1
      ensures !Closes(code, s[q], n)
    {
      NestStep(code, s[q], n);
    }
    forall k: nat, j: nat | j < n + 1 && Closes(code, k, j)
      ensures k in m' && m'[k] == j
    {
    }
  }

  /** After the pop at n, every `[` up to n is still paired or pending. */
  lemma MatchedOpensTracked(code: string, n: nat, st: Scan)
    requires n < |code| && code[n] == Close && st.stack != [] && CompleteOk(code, n, st)
    ensures var st' := Step(code, n, st);
      forall k: nat :: k < n + 1 && code[k] == Open ==> k in st'.index || k in st'.stack
  {
    var s := st.stack;
    var top: nat := s[|s| - 1];
    var st' := Step(code, n, st);
    assert st'.stack == s[..|s| - 1] && st'.index == st.index[top := n][n := top];
    forall k: nat | k < n + 1 && code[k] == Open
      ensures k in st'.index || k in st'.stack
    {
      if k in s && k != top {
        var q :| 0 <= q < |s| && s[q] == k;
        assert st'.stack[q] == k;
      }
    }
  }

  lemma StepMatchedNested(code: string, n: nat, st: Scan)
    requires n < |code| && code[n] == Close && st.stack != []
    requires StackShape(code, n, st) && Paired(st.index, n) && NestedOk(st)
    ensures NestedOk(Step(code, n, st))
  {
    var s := st.stack;
    var m: map<nat, nat> := st.index;
    var top: nat := s[|s| - 1];
    var st' := Step(code, n, st);
    assert st'.stack == s[..|s| - 1] && st'.index == m[top := n][n := top];
    NewPairNoCross(n, s, m);
    forall p, k | 0 <= p < |s| - 1 && k in st'.index && k < s[p]
      ensures st'.index[k] < s[p]
    {
      assert s[p] < top;
    }
  }

  /** Closing the pending `top` at n keeps pairs from crossing. */
  lemma NewPairNoCross(n: nat, s: seq<nat>, m: map<nat, nat>)
    requires s != [] && Paired(m, n) && NestedOk(Scan(s, m))
    requires s[|s| - 1] < n && s[|s| - 1] !in m
    ensures var top := s[|s| - 1];
      var m' := m[top := n][n := top];
      forall k1, k2 :: k1 in m' && k2 in m' && k1 < k2 < m'[k1] ==> k1 < m'[k2] < m'[k1]
  {
    var top := s[|s| - 1];
    var m' := m[top := n][n := top];
    forall k1, k2 | k1 in m' && k2 in m' && k1 < k2 < m'[k1]
      ensures k1 < m'[k2] < m'[k1]
    {
      NewPairNoCrossAt(n, s, m, k1, k2);
    }
  }

  lemma NewPairNoCrossAt(n: nat, s: seq<nat>, m: map<nat, nat>, k1: nat, k2: nat)
    requires s != [] && Paired(m, n) && NestedOk(Scan(s, m))
    requires s[|s| - 1] < n && s[|s| - 1] !in m
    requires var m' := m[s[|s| - 1] := n][n := s[|s| - 1]];
      k1 in m' && k2 in m' && k1 < k2 < m'[k1]
    ensures var m' := m[s[|s| - 1] := n][n := s[|s| - 1]];
      k1 < m'[k2] < m'[k1]
  {
    var top := s[|s| - 1];
    if k1 == top {
      InsideNewPair(n, s, m, k2);
    } else {
      InsideOldPair(n, s, m, k1, k2);
    }
  }

  /** A key inside the new pair (top, n) has its partner inside it too. */
  lemma InsideNewPair(n: nat, s: seq<nat>, m: map<nat, nat>, k: nat)
    requires s != [] && Paired(m, n) && NestedOk(Scan(s, m))
    requires s[|s| - 1] !in m && s[|s| - 1] < k < n && k in m
    ensures s[|s| - 1] < m[k] < n
  {
    var j := m[k];
    assert j in m && m[j] == k;
  }

  /** A key inside an old pair is neither the pending top nor n, so the old pair's nesting applies. */
  lemma InsideOldPair(n: nat, s: seq<nat>, m: map<nat, nat>, k1: nat, k2: nat)
    requires s != [] && Paired(m, n) && NestedOk(Scan(s, m))
    requires s[|s| - 1] < n && s[|s| - 1] !in m
    requires k1 in m && k1 < k2 < m[k1] && (k2 in m || k2 == s[|s| - 1] || k2 == n)
    ensures k2 in m && k1 < m[k2] < m[k1]
  {
  }

  lemma StepPreserves(code: string, n: nat, st: Scan, next: Scan)
    requires n < |code| && Inv(code, n, st) && next == Step(code, n, st)
    ensures Inv(code, n + 1, next)
  {
    if code[n] == Open {
      StepOpen(code, n, st);
    } else if code[n] == Close && st.stack != [] {
      StepMatchedStack(code, n, st);
      StepMatchedIndex(code, n, st);
      StepMatchedComplete(code, n, st);
      StepMatchedNested(code, n, st);
    } else if code[n] == Close {
      StepUnmatched(code, n, st);
    } else {
      StepPlain(code, n, st);
    }
  }

  lemma ScanInit(code: string)
    ensures Inv(code, 0, Scan([], map[]))
  {
  }

  lemma ScanPrefixInv(code: string, n: nat)
    requires n <= |code|
    ensures Inv(code, n, ScanPrefix(code, n))
  {
    var st := Scan([], map[]);
    ScanInit(code);
    for i := 0 to n
      invariant st == ScanPrefix(code, i) && Inv(code, i, st)
    {
      StepPreserves(code, i, st, Step(code, i, st));
      st := Step(code, i, st);
    }
  }

  /** Characters that are not brackets leave the scan as it was. */
  lemma {:induction false} ScanSkipsPlain(code: string, from: nat, to: nat)
    requires from <= to <= |code|
    requires forall t :: from <= t < to ==> !IsBracket(code[t])
    ensures ScanPrefix(code, to) == ScanPrefix(code, from)
  {
    if from < to {
      ScanSkipsPlain(code, from, to - 1);
    }
  }

  // ---------------------------------------------------------------------------
  // Properties of the finished index

  /** Keys are brackets of `code`: a `[` key maps forward to a `]`, a `]` key maps back to a `[`. */
  lemma BracketsKeysAreBrackets(code: string)
    ensures forall k :: k in Brackets(code) ==> IsBracket(code[k])
    ensures forall k :: k in Brackets(code) ==> (code[k] == Open <==> k < Brackets(code)[k])
    ensures forall k :: k in Brackets(code) && code[k] == Open ==> code[Brackets(code)[k]] == Close
  {
    ScanPrefixInv(code, |code|);
    var m := Brackets(code);
    forall k | k in m && code[k] == Open
      ensures k < m[k] && code[m[k]] == Close
    {
      ClosesAtClose(code, k, m[k]);
    }
  }

  /** The index pairs exactly the brackets that the nesting-depth definition pairs. */
  lemma BracketsMatchClosing(code: string)
    ensures forall k :: k in Brackets(code) && k < Brackets(code)[k] ==> Closes(code, k, Brackets(code)[k])
    ensures forall k, j :: Closes(code, k, j) ==> k in Brackets(code) && Brackets(code)[k] == j
  {
    ScanPrefixInv(code, |code|);
  }

  /** No crossing: a key strictly inside a pair has its partner strictly inside the same pair. */
  lemma BracketsNested(code: string)
    ensures forall k1, k2 :: k1 in Brackets(code) && k2 in Brackets(code) && k1 < k2 < Brackets(code)[k1] ==>
      k1 < Brackets(code)[k2] < Brackets(code)[k1]
  {
    ScanPrefixInv(code, |code|);
  }

  /** An offset is indexed exactly when it is a `[` that some `]` closes, or a `]` that closes some `[`. */
  lemma BracketsUnmatchedAbsent(code: string, x: nat)
    ensures x in Brackets(code) <==> (exists j :: Closes(code, x, j)) || (exists k :: Closes(code, k, x))
  {
    var m := Brackets(code);
    BracketsMatchClosing(code);
    if x in m {
      if x < m[x] {
        assert Closes(code, x, m[x]);
      } else {
        assert m[x] < m[m[x]];
        assert Closes(code, m[x], x);
      }
    }
  }
}
