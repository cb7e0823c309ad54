/**
 * ui/src/sql/highlight.ts: the bracket matcher behind the rainbow parentheses. A stack is run
 * over the tokens of a query; a closer that does not fit the innermost opener throws the whole
 * stack away. The tokens come from the lexer, which is not part of this model.
 */
module Brackets {
  import opened Tokens

  // ---------------------------------------------------------------------------------------
  // What matching means: the brackets strictly between form a balanced word
  // ---------------------------------------------------------------------------------------

  /** A typed balanced word; tokens that are not brackets do not count. */
  ghost predicate Balanced(w: seq<Token>)
    decreases |w|
  {
    || w == []
    || (w[0].kind.NoBracket? && Balanced(w[1..]))
    || (w[0].Opens() && exists k :: 0 < k < |w| && ClosesFirst(w, k))
  }

  /** The bracket that opens `w` is closed at `k`, with balanced words inside and after. */
  ghost predicate ClosesFirst(w: seq<Token>, k: int)
    requires 0 < k < |w|
    decreases |w|, 0
  {
    w[0].PairsWith(w[k]) && Balanced(w[1..k]) && Balanced(w[k + 1..])
  }

  ghost predicate Mates(tokens: seq<Token>, i: nat, j: nat)
    requires i < j < |tokens|
  {
    tokens[i].PairsWith(tokens[j]) && Balanced(tokens[i + 1..j])
  }

  lemma {:induction false} BalancedConcat(a: seq<Token>, b: seq<Token>)
    requires Balanced(a) && Balanced(b)
    ensures Balanced(a + b)
    decreases |a|
  {
    if a == [] {
      assert a + b == b;
    } else if a[0].kind.NoBracket? {
      BalancedConcat(a[1..], b);
      assert (a + b)[1..] == a[1..] + b;
    } else {
      var k :| 0 < k < |a| && ClosesFirst(a, k);
      BalancedConcat(a[k + 1..], b);
      assert (a + b)[1..k] == a[1..k];
      assert (a + b)[k + 1..] == a[k + 1..] + b;
      assert ClosesFirst(a + b, k);
    }
  }

  lemma BalancedPair(open: Token, inner: seq<Token>, close: Token)
    requires open.PairsWith(close) && Balanced(inner)
    ensures Balanced([open] + inner + [close])
  {
    var w, k := [open] + inner + [close], |inner| + 1;
    assert w[1..k] == inner && w[k + 1..] == [];
    assert ClosesFirst(w, k);
  }

  // ---------------------------------------------------------------------------------------
  // What the loop computes
  // ---------------------------------------------------------------------------------------

  datatype Scan = Scan(stack: seq<nat>, matchOf: seq<int>, depth: seq<int>)

  predicate WellSized(tokens: seq<Token>, s: Scan) {
    && |s.matchOf| == |s.depth| == |tokens|
    && forall k :: 0 <= k < |s.stack| ==> s.stack[k] < |tokens|
  }

  function Top(s: Scan): nat
    requires s.stack != []
  {
    s.stack[|s.stack| - 1]
  }

  function Below(s: Scan): seq<nat>
    requires s.stack != []
  {
    s.stack[..|s.stack| - 1]
  }

  /** Token `i` closes the innermost open bracket. */
  predicate Pops(tokens: seq<Token>, s: Scan, i: nat)
    requires i < |tokens| && WellSized(tokens, s)
  {
    tokens[i].Closes() && s.stack != [] && tokens[Top(s)].PairsWith(tokens[i])
  }

  function NextStack(tokens: seq<Token>, s: Scan, i: nat): seq<nat>
    requires i < |tokens| && WellSized(tokens, s)
  {
    if tokens[i].Opens() then s.stack + [i]
    else if Pops(tokens, s, i) then Below(s)
    else if tokens[i].Closes() then []
    else s.stack
  }

  /** The body of the loop on token `i`. */
  function Step(tokens: seq<Token>, s: Scan, i: nat): (s': Scan)
    requires i < |tokens| && WellSized(tokens, s)
    ensures WellSized(tokens, s')
  {
    if Pops(tokens, s, i) then
      Scan(Below(s), s.matchOf[i := Top(s)][Top(s) := i], s.depth[i := |s.stack| - 1][Top(s) := |s.stack| - 1])
    else s.(stack := NextStack(tokens, s, i))
  }

  /** The state of the loop after the first `n` tokens. */
  function ScanTo(tokens: seq<Token>, n: nat): (s: Scan)
    requires n <= |tokens|
    ensures WellSized(tokens, s)
  {
    if n == 0 then Scan([], seq(|tokens|, _ => -1), seq(|tokens|, _ => -1))
    else Step(tokens, ScanTo(tokens, n - 1), n - 1)
  }

  lemma ScanToNext(tokens: seq<Token>, n: nat)
    requires n < |tokens|
    ensures ScanTo(tokens, n + 1) == Step(tokens, ScanTo(tokens, n), n)
  {
  }

  function MatchOf(tokens: seq<Token>): (matchOf: seq<int>)
    ensures |matchOf| == |tokens|
  {
    ScanTo(tokens, |tokens|).matchOf
  }

  function Depth(tokens: seq<Token>): (depth: seq<int>)
    ensures |depth| == |tokens|
  {
    ScanTo(tokens, |tokens|).depth
  }

  function Stack(tokens: seq<Token>, n: nat): seq<nat>
    requires n <= |tokens|
  {
    ScanTo(tokens, n).stack
  }

  // ---------------------------------------------------------------------------------------
  // Invariants of the loop
  // ---------------------------------------------------------------------------------------

  /** Between an opener still on the stack and `to`, a balanced word. */
  ghost predicate Gap(tokens: seq<Token>, opener: nat, to: nat)
    requires opener < to <= |tokens|
  {
    Balanced(tokens[opener + 1..to])
  }

  predicate Increasing(s: seq<nat>) {
    forall k, l :: 0 <= k < l < |s| ==> s[k] < s[l]
  }

  /** The stack holds unmatched openers, innermost last, with balanced words in between. */
  ghost predicate StackOk(tokens: seq<Token>, n: nat, s: Scan)
    requires n <= |tokens| && WellSized(tokens, s)
  {
    && Increasing(s.stack)
    && (forall k :: 0 <= k < |s.stack| ==> s.stack[k] < n && tokens[s.stack[k]].Opens() && s.matchOf[s.stack[k]] == -1)
    && (forall k :: 0 < k < |s.stack| ==> Gap(tokens, s.stack[k - 1], s.stack[k]))
    && (s.stack != [] ==> Gap(tokens, Top(s), n))
  }

  /** Matches come in pairs around balanced words, and both ends have the depth of the pair. */
  ghost predicate MatchOk(tokens: seq<Token>, n: nat, s: Scan)
    requires n <= |tokens| && WellSized(tokens, s)
  {
    && (forall i :: 0 <= i < |tokens| ==> -1 <= s.matchOf[i] < n)
    && (forall i :: n <= i < |tokens| ==> s.matchOf[i] == -1)
    && (forall i :: 0 <= i < |tokens| && s.matchOf[i] != -1 ==> PairOk(tokens, s, i, s.matchOf[i]))
  }

  ghost predicate PairOk(tokens: seq<Token>, s: Scan, i: nat, j: nat)
    requires WellSized(tokens, s) && i < |tokens| && j < |tokens|
  {
    && i != j && s.matchOf[j] == i
    && s.depth[i] == s.depth[j] >= 0
    && (i < j ==> Mates(tokens, i, j))
  }

  lemma NotYetMatched(tokens: seq<Token>, n: nat, s: Scan)
    requires n < |tokens| && WellSized(tokens, s) && MatchOk(tokens, n, s)
    ensures s.matchOf[n] == -1
  {
  }

  lemma InvariantsHoldInitially(tokens: seq<Token>)
    ensures StackOk(tokens, 0, ScanTo(tokens, 0))
    ensures MatchOk(tokens, 0, ScanTo(tokens, 0))
  {
    hide Gap, PairOk;
  }

  lemma {:induction false} Invariants(tokens: seq<Token>, n: nat)
    requires n <= |tokens|
    ensures StackOk(tokens, n, ScanTo(tokens, n))
    ensures MatchOk(tokens, n, ScanTo(tokens, n))
  {
    hide StackOk, MatchOk, Step, ScanTo;
    if n == 0 {
      InvariantsHoldInitially(tokens);
    } else {
      ScanToNext(tokens, n - 1);
      Invariants(tokens, n - 1);
      NotYetMatched(tokens, n - 1, ScanTo(tokens, n - 1));
      StepKeepsStackOk(tokens, n - 1, ScanTo(tokens, n - 1));
      StepKeepsMatchOk(tokens, n - 1, ScanTo(tokens, n - 1));
    }
  }

  lemma GapEmpty(tokens: seq<Token>, n: nat)
    requires n < |tokens|
    ensures Gap(tokens, n, n + 1)
  {
    assert tokens[n + 1..n + 1] == [];
  }

  lemma GapOverToken(tokens: seq<Token>, opener: nat, n: nat)
    requires opener < n < |tokens| && Gap(tokens, opener, n) && tokens[n].kind.NoBracket?
    ensures Gap(tokens, opener, n + 1)
  {
    assert [tokens[n]][1..] == [];
    BalancedConcat(tokens[opener + 1..n], [tokens[n]]);
    assert tokens[opener + 1..n + 1] == tokens[opener + 1..n] + [tokens[n]];
  }

  lemma Rejoin(tokens: seq<Token>, a: nat, b: nat, c: nat)
    requires a <= b <= c <= |tokens|
    ensures tokens[a..b] + tokens[b..c] == tokens[a..c]
  {
  }

  lemma GapOverPair(tokens: seq<Token>, under: nat, top: nat, n: nat)
    requires under < top < n < |tokens|
    requires Gap(tokens, under, top) && Gap(tokens, top, n) && tokens[top].PairsWith(tokens[n])
    ensures Gap(tokens, under, n + 1)
  {
    var before, inner := tokens[under + 1..top], tokens[top + 1..n];
    BalancedPair(tokens[top], inner, tokens[n]);
    var pair := [tokens[top]] + inner + [tokens[n]];
    Rejoin(tokens, top, top + 1, n);
    Rejoin(tokens, top, n, n + 1);
    assert tokens[top..n + 1] == pair;
    BalancedConcat(before, pair);
    Rejoin(tokens, under + 1, top, n + 1);
  }

  lemma PushKeepsStackOk(tokens: seq<Token>, n: nat, s: Scan)
    requires n < |tokens| && WellSized(tokens, s)
    requires StackOk(tokens, n, s) && s.matchOf[n] == -1 && tokens[n].Opens()
    ensures StackOk(tokens, n + 1, Step(tokens, s, n))
  {
    GapEmpty(tokens, n);
    hide Gap;
    var s' := Step(tokens, s, n);
    assert s'.stack == s.stack + [n] && s'.matchOf == s.matchOf;
    forall k | 0 < k < |s'.stack|
      ensures Gap(tokens, s'.stack[k - 1], s'.stack[k])
    {
    }
  }

  lemma PopKeepsStackOk(tokens: seq<Token>, n: nat, s: Scan)
    requires n < |tokens| && WellSized(tokens, s)
    requires StackOk(tokens, n, s) && Pops(tokens, s, n)
    ensures StackOk(tokens, n + 1, Step(tokens, s, n))
  {
    if |s.stack| > 1 {
      GapOverPair(tokens, s.stack[|s.stack| - 2], Top(s), n);
    }
    hide Gap;
  }

  lemma StepKeepsStackOk(tokens: seq<Token>, n: nat, s: Scan)
    requires n < |tokens| && WellSized(tokens, s)
    requires StackOk(tokens, n, s) && s.matchOf[n] == -1
    ensures StackOk(tokens, n + 1, Step(tokens, s, n))
  {
    if tokens[n].Opens() {
      PushKeepsStackOk(tokens, n, s);
    } else if Pops(tokens, s, n) {
      PopKeepsStackOk(tokens, n, s);
    } else if s.stack != [] && !tokens[n].Closes() {
      GapOverToken(tokens, Top(s), n);
      hide Gap;
    }
  }

  lemma StepKeepsMatchOk(tokens: seq<Token>, n: nat, s: Scan)
    requires n < |tokens| && WellSized(tokens, s)
    requires StackOk(tokens, n, s) && MatchOk(tokens, n, s)
    ensures MatchOk(tokens, n + 1, Step(tokens, s, n))
  {
    hide Balanced;
    var s' := Step(tokens, s, n);
    forall i | 0 <= i < |tokens| && s'.matchOf[i] != -1
      ensures PairOk(tokens, s', i, s'.matchOf[i])
    {
      if s.matchOf[i] != -1 {
        assert PairOk(tokens, s, i, s.matchOf[i]);
      }
    }
  }

  lemma StepKeepsMatch(tokens: seq<Token>, n: nat, i: nat)
    requires n < |tokens| && i < |tokens| && ScanTo(tokens, n).matchOf[i] != -1
    ensures ScanTo(tokens, n + 1).matchOf[i] == ScanTo(tokens, n).matchOf[i]
    ensures ScanTo(tokens, n + 1).depth[i] == ScanTo(tokens, n).depth[i]
  {
    hide Gap, PairOk, Increasing;
    Invariants(tokens, n);
  }

  /** A match, once made, is never changed. */
  lemma {:induction false} MatchesStay(tokens: seq<Token>, n: nat, m: nat, i: nat)
    requires n <= m <= |tokens| && i < |tokens|
    requires ScanTo(tokens, n).matchOf[i] != -1
    ensures ScanTo(tokens, m).matchOf[i] == ScanTo(tokens, n).matchOf[i]
    ensures ScanTo(tokens, m).depth[i] == ScanTo(tokens, n).depth[i]
    decreases m
  {
    hide ScanTo;
    if n < m {
      MatchesStay(tokens, n, m - 1, i);
      StepKeepsMatch(tokens, m - 1, i);
    }
  }

  lemma StackStep(tokens: seq<Token>, n: nat)
    requires n < |tokens|
    ensures Stack(tokens, n + 1) == NextStack(tokens, ScanTo(tokens, n), n)
  {
  }

  lemma Subslice(tokens: seq<Token>, a: nat, b: nat, from: nat, to: nat)
    requires a <= b <= |tokens| && from <= to <= b - a
    ensures tokens[a..b][from..to] == tokens[a + from..a + to]
  {
    var whole, part := tokens[a..b][from..to], tokens[a + from..a + to];
    assert forall k | 0 <= k < to - from :: whole[k] == tokens[a..b][from + k] == part[k];
  }

  /** A balanced word leaves the stack as it was. */
  lemma {:induction false} BalancedPasses(tokens: seq<Token>, a: nat, b: nat)
    requires a <= b <= |tokens| && Balanced(tokens[a..b])
    ensures Stack(tokens, b) == Stack(tokens, a)
    decreases b - a
  {
    hide ScanTo, NextStack;
    var w := tokens[a..b];
    if w == [] {
    } else if w[0].kind.NoBracket? {
      assert w[1..] == tokens[a + 1..b];
      BalancedPasses(tokens, a + 1, b);
      OtherPasses(tokens, a);
    } else {
      var k :| 0 < k < |w| && ClosesFirst(w, k);
      Subslice(tokens, a, b, 1, k);
      Subslice(tokens, a, b, k + 1, |w|);
      BalancedPasses(tokens, a + 1, a + k);
      BalancedPasses(tokens, a + k + 1, b);
      PairPasses(tokens, a, a + k);
    }
  }

  lemma OtherPasses(tokens: seq<Token>, i: nat)
    requires i < |tokens| && tokens[i].kind.NoBracket?
    ensures Stack(tokens, i + 1) == Stack(tokens, i)
  {
    StackStep(tokens, i);
  }

  lemma PairPasses(tokens: seq<Token>, i: nat, j: nat)
    requires i < j < |tokens| && tokens[i].PairsWith(tokens[j])
    requires Stack(tokens, j) == Stack(tokens, i + 1)
    ensures Stack(tokens, j) == Stack(tokens, i) + [i]
    ensures Stack(tokens, j + 1) == Stack(tokens, i)
  {
    StackStep(tokens, i);
    StackStep(tokens, j);
  }

  /** When the scan reaches the mate of `i`, the opener `i` is on top of what it was pushed on. */
  lemma AtMate(tokens: seq<Token>, i: nat, j: nat)
    requires i < j < |tokens| && Mates(tokens, i, j)
    ensures Stack(tokens, j) == Stack(tokens, i) + [i]
    ensures Stack(tokens, j + 1) == Stack(tokens, i)
    ensures ScanTo(tokens, j + 1).matchOf[i] == j
    ensures ScanTo(tokens, j + 1).depth[i] == |Stack(tokens, i)|
  {
    BalancedPasses(tokens, i + 1, j);
    PairPasses(tokens, i, j);
    assert Pops(tokens, ScanTo(tokens, j), j);
  }

  // ---------------------------------------------------------------------------------------
  // Main results
  // ---------------------------------------------------------------------------------------

  /**
   * Two tokens are matched if and only if they are an opener and its closing type with a
   * balanced word between them. In particular the reset of the stack loses no balanced pair.
   */
  lemma MatchedIffBalanced(tokens: seq<Token>, i: nat, j: nat)
    requires i < j < |tokens|
    ensures MatchOf(tokens)[i] == j <==> Mates(tokens, i, j)
  {
    hide Mates, ScanTo, StackOk;
    if Mates(tokens, i, j) {
      AtMate(tokens, i, j);
      MatchesStay(tokens, j + 1, |tokens|, i);
    }
    Invariants(tokens, |tokens|);
  }

  /** Only a round, square or curly bracket and one of the same kind match, and they do when side by side. */
  lemma MatesAreOfOneKind(tokens: seq<Token>, i: nat, j: nat)
    requires i < j < |tokens|
    ensures MatchOf(tokens)[i] == j ==>
              (tokens[i].kind, tokens[j].kind)
              in {(OpeningRound, ClosingRound), (OpeningSquare, ClosingSquare), (OpeningCurly, ClosingCurly)}
    ensures && j == i + 1
            && (tokens[i].kind, tokens[j].kind)
               in {(OpeningRound, ClosingRound), (OpeningSquare, ClosingSquare), (OpeningCurly, ClosingCurly)}
            ==> MatchOf(tokens)[i] == j
  {
    MatchedIffBalanced(tokens, i, j);
    assert j == i + 1 ==> tokens[i + 1..j] == [];
  }

  /** Matching is a partial involution without fixed points. */
  lemma MatchingIsInvolution(tokens: seq<Token>, i: nat)
    requires i < |tokens| && MatchOf(tokens)[i] != -1
    ensures 0 <= MatchOf(tokens)[i] < |tokens| && MatchOf(tokens)[i] != i
    ensures MatchOf(tokens)[MatchOf(tokens)[i]] == i
    ensures Depth(tokens)[i] == Depth(tokens)[MatchOf(tokens)[i]] >= 0
  {
    hide Mates, ScanTo, StackOk;
    Invariants(tokens, |tokens|);
    assert PairOk(tokens, ScanTo(tokens, |tokens|), i, MatchOf(tokens)[i]);
  }

  lemma {:induction false} DepthIffMatchedTo(tokens: seq<Token>, n: nat, i: nat)
    requires n <= |tokens| && i < |tokens|
    ensures ScanTo(tokens, n).depth[i] == -1 <==> ScanTo(tokens, n).matchOf[i] == -1
  {
    if n > 0 {
      DepthIffMatchedTo(tokens, n - 1, i);
    }
  }

  /** A token has a depth if and only if it is matched: with an opener before it or a closer after it. */
  lemma DepthIffMated(tokens: seq<Token>, i: nat)
    requires i < |tokens|
    ensures Depth(tokens)[i] >= -1
    ensures Depth(tokens)[i] == -1 <==> MatchOf(tokens)[i] == -1
    ensures MatchOf(tokens)[i] != -1 <==> (exists j :: i < j < |tokens| && Mates(tokens, i, j))
                                          || (exists j :: 0 <= j < i && Mates(tokens, j, i))
  {
    DepthIffMatchedTo(tokens, |tokens|, i);
    hide ScanTo, Mates;
    if MatchOf(tokens)[i] != -1 {
      MatchingIsInvolution(tokens, i);
      var j := MatchOf(tokens)[i];
      MatchedIffBalanced(tokens, if i < j then i else j, if i < j then j else i);
    }
    forall j | i < j < |tokens| && Mates(tokens, i, j)
      ensures MatchOf(tokens)[i] != -1
    {
      MatchedIffBalanced(tokens, i, j);
    }
    forall j | 0 <= j < i && Mates(tokens, j, i)
      ensures MatchOf(tokens)[i] != -1
    {
      MatchedIffBalanced(tokens, j, i);
      MatchingIsInvolution(tokens, j);
    }
  }

  /** An opener taken off the stack is never put back. */
  lemma {:induction false} GoneForGood(tokens: seq<Token>, a: nat, n: nat, m: nat)
    requires a < n <= m <= |tokens| && a in Stack(tokens, m)
    ensures a in Stack(tokens, n)
    decreases m
  {
    if n < m {
      hide ScanTo;
      StackStep(tokens, m - 1);
      assert a in Stack(tokens, m - 1);
      GoneForGood(tokens, a, n, m - 1);
    }
  }

  /** Opener `i` has its mate at `j`, further on. */
  predicate Matched(tokens: seq<Token>, i: nat, j: nat) {
    i < j < |tokens| && MatchOf(tokens)[i] == j
  }

  /** A matched opener sits on what it was pushed on when its mate comes, and is popped by it. */
  lemma PopsAtMate(tokens: seq<Token>, i: nat, j: nat)
    requires Matched(tokens, i, j)
    ensures tokens[i].Opens()
    ensures Stack(tokens, j) == Stack(tokens, i) + [i]
    ensures Stack(tokens, j + 1) == Stack(tokens, i)
    ensures Depth(tokens)[i] == |Stack(tokens, i)|
  {
    hide ScanTo, Balanced;
    MatchedIffBalanced(tokens, i, j);
    AtMate(tokens, i, j);
    MatchesStay(tokens, j + 1, |tokens|, i);
  }

  /** A matched opener is on the stack from its push to its mate. */
  lemma OnStackUntilMate(tokens: seq<Token>, a: nat, b: nat, n: nat)
    requires Matched(tokens, a, b) && a < n <= b
    ensures a in Stack(tokens, n)
  {
    hide ScanTo;
    PopsAtMate(tokens, a, b);
    GoneForGood(tokens, a, n, b);
  }

  /** The stack before token `n` holds openers before `n`, in order. */
  lemma StackShape(tokens: seq<Token>, n: nat)
    requires n <= |tokens|
    ensures Increasing(Stack(tokens, n))
    ensures forall a <- Stack(tokens, n) :: a < n
  {
    Invariants(tokens, n);
  }

  /** Matched pairs never cross. */
  lemma MatchesNeverCross(tokens: seq<Token>, i: nat, j: nat, p: nat, q: nat)
    requires Matched(tokens, i, j) && Matched(tokens, p, q) && i < p < j
    ensures q < j
  {
    MatchingIsInvolution(tokens, i);
    MatchingIsInvolution(tokens, p);
    if q > j {
      OnStackUntilMate(tokens, p, q, j);
      PopsAtMate(tokens, i, j);
      StackShape(tokens, i);
    }
  }

  /** While an opener is on the stack, so is everything it was pushed on. */
  lemma {:induction false} StackPrefix(tokens: seq<Token>, i: nat, n: nat)
    requires i < n <= |tokens| && i in Stack(tokens, n) && tokens[i].Opens()
    ensures Stack(tokens, i) + [i] <= Stack(tokens, n)
    decreases n
  {
    hide ScanTo;
    var base := Stack(tokens, i) + [i];
    StackStep(tokens, n - 1);
    if n > i + 1 {
      GoneForGood(tokens, i, n - 1, n);
      StackPrefix(tokens, i, n - 1);
      if Stack(tokens, n - 1) == base {
        StackShape(tokens, i);
      }
    }
  }

  /** An opener that leaves the stack while one below it stays was matched in between. */
  lemma {:induction false} LeavesMatched(tokens: seq<Token>, i: nat, a: nat, n: nat, m: nat)
    requires i < a < n <= m <= |tokens|
    requires a in Stack(tokens, n) && a !in Stack(tokens, m) && i in Stack(tokens, m)
    ensures n <= MatchOf(tokens)[a] < m
    decreases m
  {
    hide ScanTo;
    GoneForGood(tokens, i, m - 1, m);
    if a in Stack(tokens, m - 1) {
      PoppedIsMatched(tokens, a, m - 1);
    } else {
      LeavesMatched(tokens, i, a, n, m - 1);
    }
  }

  lemma IsPopped(tokens: seq<Token>, a: nat, n: nat)
    requires n < |tokens| && a in Stack(tokens, n) && a !in Stack(tokens, n + 1) && Stack(tokens, n + 1) != []
    ensures var s := ScanTo(tokens, n);
            a < |tokens| && Step(tokens, s, n).matchOf[a] == n
  {
    var s := ScanTo(tokens, n);
    StackStep(tokens, n);
    hide ScanTo;
    assert Pops(tokens, s, n);
    assert s.stack == Below(s) + [Top(s)];
    assert a == Top(s);
  }

  lemma PoppedIsMatched(tokens: seq<Token>, a: nat, n: nat)
    requires n < |tokens| && a in Stack(tokens, n) && a !in Stack(tokens, n + 1) && Stack(tokens, n + 1) != []
    ensures a < |tokens| && MatchOf(tokens)[a] == n
  {
    IsPopped(tokens, a, n);
    ScanToNext(tokens, n);
    hide ScanTo, Step;
    MatchesStay(tokens, n + 1, |tokens|, a);
  }

  /** The openers from `i` on, before `p`, whose pairs enclose the pair of `p`. */
  ghost function Enclosing(tokens: seq<Token>, i: nat, p: nat): set<nat>
    requires i < p < |tokens|
  {
    set a: nat | i <= a < p && MatchOf(tokens)[a] > MatchOf(tokens)[p]
  }

  /** What is on the stack from `i` up when the inner opener comes belongs to enclosing pairs. */
  lemma StackedIsEnclosing(tokens: seq<Token>, i: nat, j: nat, p: nat, q: nat, a: nat)
    requires Matched(tokens, i, j) && Matched(tokens, p, q) && i < p < q < j
    requires a in Stack(tokens, p) && a >= i
    ensures a in Enclosing(tokens, i, p)
  {
    hide ScanTo;
    StackShape(tokens, p);
    if a != i {
      PopsAtMate(tokens, p, q);
      PopsAtMate(tokens, i, j);
      StackShape(tokens, i);
      LeavesMatched(tokens, i, a, q + 1, j);
    }
  }

  lemma EnclosingIsStacked(tokens: seq<Token>, i: nat, p: nat, q: nat, a: nat)
    requires i < p < |tokens| && Matched(tokens, p, q) && a in Enclosing(tokens, i, p)
    ensures a in Stack(tokens, p) && a >= i
  {
    MatchingIsInvolution(tokens, a);
    OnStackUntilMate(tokens, a, MatchOf(tokens)[a], p);
  }

  lemma {:induction false} DistinctCount(s: seq<nat>, elements: set<nat>)
    requires Increasing(s)
    requires forall a :: a in s <==> a in elements
    ensures |elements| == |s|
  {
    if s == [] {
      assert elements == {};
    } else {
      var last := s[|s| - 1];
      assert last in elements;
      var rest := s[..|s| - 1];
      assert forall a :: a in rest <==> a in elements - {last};
      DistinctCount(rest, elements - {last});
    }
  }

  /** In an increasing sequence, the elements from `i` up are those from its place on. */
  lemma SuffixFrom(s: seq<nat>, k: nat)
    requires Increasing(s) && k < |s|
    ensures Increasing(s[k..]) && forall a :: a in s[k..] <==> a in s && a >= s[k]
  {
    forall a
      ensures a in s[k..] <==> a in s && a >= s[k]
    {
      if a in s && a >= s[k] {
        var l :| 0 <= l < |s| && s[l] == a;
        assert s[k..][l - k] == a;
      }
    }
  }

  /**
   * For a pair inside another, the difference of depths is the number of matched pairs that
   * enclose the inner one, from the outer one inwards; a direct child is one deeper.
   */
  lemma DepthCountsEnclosingPairs(tokens: seq<Token>, i: nat, j: nat, p: nat, q: nat)
    requires Matched(tokens, i, j) && Matched(tokens, p, q) && i < p < q < j
    ensures Depth(tokens)[p] - Depth(tokens)[i] == |Enclosing(tokens, i, p)|
  {
    PopsAtMate(tokens, i, j);
    PopsAtMate(tokens, p, q);
    OnStackUntilMate(tokens, i, j, p);
    StackPrefix(tokens, i, p);
    var s, k := Stack(tokens, p), |Stack(tokens, i)|;
    StackShape(tokens, p);
    SuffixFrom(s, k);
    forall a: nat
      ensures a in s[k..] <==> a in Enclosing(tokens, i, p)
    {
      if a in s[k..] { StackedIsEnclosing(tokens, i, j, p, q, a); }
      if a in Enclosing(tokens, i, p) { EnclosingIsStacked(tokens, i, p, q, a); }
    }
    DistinctCount(s[k..], Enclosing(tokens, i, p));
  }

  /** Opener `a` is open before token `n`: every closer in between closes something inside. */
  predicate IsOpen(tokens: seq<Token>, a: nat, n: nat)
    requires n <= |tokens|
  {
    a < n && tokens[a].Opens() && forall k :: a < k < n && tokens[k].Closes() ==> MatchOf(tokens)[k] > a
  }

  /** A closer is matched exactly when it pops the stack, with what it pops. */
  lemma CloserMatch(tokens: seq<Token>, n: nat)
    requires n < |tokens| && tokens[n].Closes()
    ensures MatchOf(tokens)[n] == if Pops(tokens, ScanTo(tokens, n), n) then Top(ScanTo(tokens, n)) else -1
  {
    var s, m := ScanTo(tokens, n), MatchOf(tokens)[n];
    if Pops(tokens, s, n) {
      assert ScanTo(tokens, n + 1).matchOf[n] == Top(s);
      MatchesStay(tokens, n + 1, |tokens|, n);
    } else if m != -1 {
      hide ScanTo, Balanced;
      MatchingIsInvolution(tokens, n);
      MatchedIffBalanced(tokens, if n < m then n else m, if n < m then m else n);
      AtMate(tokens, m, n);
    }
  }

  lemma OpenAfter(tokens: seq<Token>, n: nat, a: nat)
    requires n < |tokens|
    ensures IsOpen(tokens, a, n + 1)
            <==> if a == n then tokens[n].Opens()
                 else IsOpen(tokens, a, n) && (tokens[n].Closes() ==> MatchOf(tokens)[n] > a)
  {
    hide MatchOf;
  }

  lemma OpenStep(tokens: seq<Token>, n: nat, a: nat)
    requires n < |tokens| && (a in Stack(tokens, n) <==> IsOpen(tokens, a, n))
    ensures a in Stack(tokens, n + 1) <==> IsOpen(tokens, a, n + 1)
  {
    StackStep(tokens, n);
    StackShape(tokens, n);
    OpenAfter(tokens, n, a);
    if tokens[n].Closes() { CloserMatch(tokens, n); }
    hide ScanTo, MatchOf, IsOpen;
    var s := ScanTo(tokens, n);
    if Pops(tokens, s, n) {
      assert s.stack == Below(s) + [Top(s)];
    }
  }

  /** The stack holds what is open. */
  lemma {:induction false} StackHoldsOpen(tokens: seq<Token>, n: nat, a: nat)
    requires n <= |tokens|
    ensures a in Stack(tokens, n) <==> IsOpen(tokens, a, n)
  {
    if n > 0 {
      StackHoldsOpen(tokens, n - 1, a);
      OpenStep(tokens, n - 1, a);
    }
  }

  /**
   * The depth of a pair is the number of brackets open where it starts, be they ever closed or not:
   * zero for a pair with nothing open before it.
   */
  lemma DepthCountsOpenBrackets(tokens: seq<Token>, i: nat, j: nat)
    requires Matched(tokens, i, j)
    ensures Depth(tokens)[i] == |set a: nat | a < i && IsOpen(tokens, a, i)|
  {
    PopsAtMate(tokens, i, j);
    StackShape(tokens, i);
    forall a: nat
      ensures a in Stack(tokens, i) <==> IsOpen(tokens, a, i)
    {
      StackHoldsOpen(tokens, i, a);
    }
    hide IsOpen;
    var open := set a: nat | a < i && IsOpen(tokens, a, i);
    assert forall a: nat :: IsOpen(tokens, a, i) ==> a < i;
    DistinctCount(Stack(tokens, i), open);
  }

  // ---------------------------------------------------------------------------------------
  // The code: `computeBracketInfo`
  // ---------------------------------------------------------------------------------------

  predicate EndsAt(tokens: seq<Token>, i: nat, cursor: nat)
    requires i < |tokens|
  {
    (tokens[i].Opens() || tokens[i].Closes()) && Start(tokens, i) + |tokens[i].text| == cursor
  }

  predicate StartsAt(tokens: seq<Token>, i: nat, cursor: nat)
    requires i < |tokens|
  {
    (tokens[i].Opens() || tokens[i].Closes()) && Start(tokens, i) == cursor
  }

  /** The bracket at the caret: the first that ends there, else the first that starts there, else -1. */
  predicate AtCaret(tokens: seq<Token>, cursor: nat, f: int) {
    if exists i :: 0 <= i < |tokens| && EndsAt(tokens, i, cursor) then
      0 <= f < |tokens| && EndsAt(tokens, f, cursor) && forall i :: 0 <= i < f ==> !EndsAt(tokens, i, cursor)
    else if exists i :: 0 <= i < |tokens| && StartsAt(tokens, i, cursor) then
      0 <= f < |tokens| && StartsAt(tokens, f, cursor) && forall i :: 0 <= i < f ==> !StartsAt(tokens, i, cursor)
    else f == -1
  }

  /** With the caret between two brackets the one on the left counts; no two end, or start, there. */
  lemma CaretPrefersLeft(tokens: seq<Token>, cursor: nat, f: int, i: nat)
    requires AtCaret(tokens, cursor, f) && forall k :: 0 <= k < |tokens| ==> tokens[k].text != []
    requires i < |tokens| && !tokens[i].kind.NoBracket?
    ensures Start(tokens, i) + |tokens[i].text| == cursor ==> f == i
    ensures f >= 0 && Start(tokens, f) != cursor ==> Start(tokens, f) + |tokens[f].text| == cursor
    ensures Start(tokens, i) == cursor ==>
              f == i || (0 <= f < i && !tokens[f].kind.NoBracket? && Start(tokens, f) + |tokens[f].text| == cursor)
  {
    if 0 <= f < i { StartsGrow(tokens, f, i); }
    if f > i { StartsGrow(tokens, i, f); }
    hide Start;
    assert EndsAt(tokens, i, cursor) <==> Start(tokens, i) + |tokens[i].text| == cursor;
    assert StartsAt(tokens, i, cursor) <==> Start(tokens, i) == cursor;
  }

  /** The body of the loop over the tokens. */
  method ScanToken(tokens: seq<Token>, i: nat, stack: seq<nat>, matchOf: array<int>, depth: array<int>)
      returns (stack': seq<nat>)
    requires i < |tokens| && matchOf != depth
    requires WellSized(tokens, Scan(stack, matchOf[..], depth[..]))
    modifies matchOf, depth
    ensures matchOf.Length == depth.Length == |tokens|
    ensures Scan(stack', matchOf[..], depth[..]) == Step(tokens, old(Scan(stack, matchOf[..], depth[..])), i)
  {
    stack' := stack;
    if tokens[i].Opens() {
      stack' := stack + [i];
    } else if tokens[i].Closes() {
      var top := if stack != [] then stack[|stack| - 1] else -1;
      if top >= 0 && tokens[top].PairsWith(tokens[i]) {
        stack' := stack[..|stack| - 1];
        matchOf[i] := top;
        matchOf[top] := i;
        depth[i] := |stack'|;
        depth[top] := |stack'|;
      } else if top >= 0 {
        stack' := [];
      }
    }
  }

  /** `new Array(n).fill(-1)`. */
  method Filled(n: nat) returns (a: array<int>)
    ensures fresh(a) && a[..] == seq(n, _ => -1)
  {
    a := new int[n](_ => -1);
  }

  /** The loop over the tokens: brackets. */
  method ScanBrackets(tokens: seq<Token>) returns (depth: array<int>, matchOf: array<int>)
    ensures depth[..] == Depth(tokens)
    ensures matchOf[..] == MatchOf(tokens)
  {
    depth := Filled(|tokens|);
    matchOf := Filled(|tokens|);
    var stack: seq<nat> := [];
    assert Scan(stack, matchOf[..], depth[..]) == ScanTo(tokens, 0);
    hide Step, ScanTo;
    for i := 0 to |tokens|
      invariant Scan(stack, matchOf[..], depth[..]) == ScanTo(tokens, i)
    {
      ScanToNext(tokens, i);
      stack := ScanToken(tokens, i, stack, matchOf, depth);
    }
  }

  /** The loop over the tokens: offsets. */
  method TokenStarts(tokens: seq<Token>) returns (starts: array<nat>)
    ensures starts.Length == |tokens| && forall i :: 0 <= i < |tokens| ==> starts[i] == Start(tokens, i)
  {
    starts := new nat[|tokens|];
    var offset := 0;
    for i := 0 to |tokens|
      invariant offset == Start(tokens, i)
      invariant forall k :: 0 <= k < i ==> starts[k] == Start(tokens, k)
    {
      starts[i] := offset;
      offset := offset + |tokens[i].text|;
    }
  }

  /** The two searches for the bracket at the caret. */
  method FindAtCaret(tokens: seq<Token>, starts: array<nat>, cursor: nat) returns (found: int)
    requires starts.Length == |tokens| && forall i :: 0 <= i < |tokens| ==> starts[i] == Start(tokens, i)
    ensures AtCaret(tokens, cursor, found)
  {
    found := -1;
    var i := 0;
    while i < |tokens| && found < 0
      invariant i <= |tokens| && -1 <= found < i
      invariant found >= 0 ==> EndsAt(tokens, found, cursor) && i == found + 1
      invariant forall k :: 0 <= k < i && k != found ==> !EndsAt(tokens, k, cursor)
    {
      if (tokens[i].Opens() || tokens[i].Closes()) && starts[i] + |tokens[i].text| == cursor {
        found := i;
      }
      i := i + 1;
    }
    if found < 0 {
      i := 0;
      while i < |tokens| && found < 0
        invariant i <= |tokens| && -1 <= found < i
        invariant found >= 0 ==> StartsAt(tokens, found, cursor) && i == found + 1
        invariant forall k :: 0 <= k < i && k != found ==> !StartsAt(tokens, k, cursor)
      {
        if (tokens[i].Opens() || tokens[i].Closes()) && starts[i] == cursor {
          found := i;
        }
        i := i + 1;
      }
    }
  }

  /** What is to be emboldened: the bracket at the caret and its mate, when the editor is focused and it has one. */
  ghost predicate IsBold(tokens: seq<Token>, cursor: nat, focused: bool, bold: set<nat>) {
    if focused then
      exists f :: AtCaret(tokens, cursor, f)
                  && bold == if f >= 0 && MatchOf(tokens)[f] >= 0 then {f, MatchOf(tokens)[f]} else {}
    else bold == {}
  }

  /** The bracket left of the caret, or right of it if there is none on the left, is bold with its mate. */
  lemma BoldIsAtCaret(tokens: seq<Token>, cursor: nat, bold: set<nat>, i: nat)
    requires IsBold(tokens, cursor, true, bold) && forall k :: 0 <= k < |tokens| ==> tokens[k].text != []
    requires i < |tokens| && !tokens[i].kind.NoBracket?
    requires || Start(tokens, i) + |tokens[i].text| == cursor
             || (Start(tokens, i) == cursor
                 && forall k :: 0 <= k < i && !tokens[k].kind.NoBracket? ==>
                                  Start(tokens, k) + |tokens[k].text| != cursor)
    ensures bold == if MatchOf(tokens)[i] == -1 then {} else {i, MatchOf(tokens)[i]}
  {
    var f :| AtCaret(tokens, cursor, f)
             && bold == if f >= 0 && MatchOf(tokens)[f] >= 0 then {f, MatchOf(tokens)[f]} else {};
    CaretPrefersLeft(tokens, cursor, f, i);
    hide MatchOf, AtCaret, Start;
    if MatchOf(tokens)[i] != -1 { MatchingIsInvolution(tokens, i); }
  }

  /** Without a bracket on either side of the caret nothing is bold. */
  lemma NothingBoldElsewhere(tokens: seq<Token>, cursor: nat, bold: set<nat>)
    requires IsBold(tokens, cursor, true, bold)
    requires forall i :: 0 <= i < |tokens| && !tokens[i].kind.NoBracket? ==>
               Start(tokens, i) != cursor && Start(tokens, i) + |tokens[i].text| != cursor
    ensures bold == {}
  {
    hide MatchOf, Start;
    assert forall i :: 0 <= i < |tokens| ==> !EndsAt(tokens, i, cursor) && !StartsAt(tokens, i, cursor);
  }

  /** The depth of every token, -1 exactly where it has no mate, and the tokens to embolden. */
  method ComputeBracketInfo(tokens: seq<Token>, cursor: nat, focused: bool)
      returns (depth: array<int>, bold: set<nat>)
    ensures depth.Length == |tokens| && depth[..] == Depth(tokens)
    ensures forall i :: 0 <= i < |tokens| ==> (depth[i] == -1 <==> MatchOf(tokens)[i] == -1)
    ensures IsBold(tokens, cursor, focused, bold)
    ensures bold != {} ==> focused
  {
    var matchOf;
    depth, matchOf := ScanBrackets(tokens);
    forall i | 0 <= i < |tokens|
      ensures depth[i] == -1 <==> MatchOf(tokens)[i] == -1
    {
      DepthIffMatchedTo(tokens, |tokens|, i);
      assert depth[..][i] == depth[i];
    }
    var starts := TokenStarts(tokens);
    bold := {};
    if focused {
      var found := FindAtCaret(tokens, starts, cursor);
      if found >= 0 {
        assert matchOf[..][found] == matchOf[found];
        if matchOf[found] >= 0 {
          bold := {found, matchOf[found]};
        }
      }
    }
  }
}
