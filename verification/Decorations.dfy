/**
 * ui/src/sql/highlight.ts: the decorations of a query: the class of every token, and the order in
 * which the marks are handed to the editor, which takes them in document order only.
 */
module Decorations {
  import opened Options
  import opened Utf
  import opened Tokens
  import opened Brackets
  import opened DigitGroups

  // ---------------------------------------------------------------------------------------
  // Marks
  // ---------------------------------------------------------------------------------------

  const RAINBOW_BRACKET_COUNT := 7

  /** The class attribute of a mark: its base, then `q-br-match`, then `q-underline`. */
  datatype Class = Class(base: Base, matched: bool, underlined: bool)

  const NO_CLASS := Class(NoBase, false, false)

  const UNDERLINE := Class(NoBase, false, true)

  const ERROR := Class(ErrorBase, false, false)

  datatype Mark = Mark(from: int, to: int, cls: Class)

  /** The mark of what the tokens leave over of the text. */
  function TailMarks(tokens: seq<Token>, length: nat): seq<Mark> {
    var end := Start(tokens, |tokens|);
    if end < length then [Mark(end, length, ERROR)] else []
  }

  function DigitMarks(start: nat, underlines: seq<int>): seq<Mark> {
    seq(|underlines|, k requires 0 <= k < |underlines| =>
      Mark(start + underlines[k], start + underlines[k] + 1, UNDERLINE))
  }

  /** The marks of one token in order: all of it, if it has a class, then the digits underlined in a number. */
  ghost function MarksOf(token: Token, cls: Class, start: nat): seq<Mark> {
    (if cls != NO_CLASS then [Mark(start, start + |token.text|, cls)] else [])
    + if token.kind == NoBracket(Number) then DigitMarks(start, Underlines(token.text, |token.text|)) else []
  }

  /** The marks of the first `n` tokens, given their classes. */
  ghost function MarksUpTo(tokens: seq<Token>, classes: seq<Class>, n: nat): seq<Mark>
    requires n <= |tokens| == |classes|
  {
    if n == 0 then []
    else MarksUpTo(tokens, classes, n - 1) + MarksOf(tokens[n - 1], classes[n - 1], Start(tokens, n - 1))
  }

  /** All marks in order; none if there are no tokens, whatever the text. */
  ghost function AllMarks(tokens: seq<Token>, classes: seq<Class>, length: nat): seq<Mark>
    requires |tokens| == |classes|
  {
    if tokens == [] then [] else MarksUpTo(tokens, classes, |tokens|) + TailMarks(tokens, length)
  }

  /** A mark of one token: all of it, if it has a class, or a digit underlined in a number. */
  ghost predicate IsMarkOf(token: Token, cls: Class, start: nat, mark: Mark) {
    || (cls != NO_CLASS && mark == Mark(start, start + |token.text|, cls))
    || (token.kind == NoBracket(Number) && IsUnderlined(token.text, mark.from - start)
        && mark.to == mark.from + 1 && mark.cls == UNDERLINE)
  }

  /** The marks of the first `n` tokens, given their classes. */
  ghost predicate IsMark(tokens: seq<Token>, classes: seq<Class>, n: nat, mark: Mark)
    requires n <= |tokens| == |classes|
  {
    exists i: nat :: i < n && IsMarkOf(tokens[i], classes[i], Start(tokens, i), mark)
  }

  /** What `RangeSetBuilder` demands: no mark starts before the one added before it. */
  predicate InDocumentOrder(marks: seq<Mark>) {
    forall i, j :: 0 <= i < j < |marks| ==> marks[i].from <= marks[j].from
  }

  predicate Within(marks: seq<Mark>, from: int, to: int) {
    forall i :: 0 <= i < |marks| ==> from <= marks[i].from && marks[i].from <= marks[i].to <= to
  }

  lemma DigitsInOrder(start: nat, width: nat, underlines: seq<int>)
    requires StrictlyIncreasing(underlines)
    requires forall k :: 0 <= k < |underlines| ==> 0 <= underlines[k] < width
    ensures var digits := DigitMarks(start, underlines);
            InDocumentOrder(digits) && Within(digits, start, start + width)
  {
  }

  lemma WholeThenDigits(whole: Mark, digits: seq<Mark>)
    requires InDocumentOrder(digits) && Within(digits, whole.from, whole.to) && whole.from <= whole.to
    ensures InDocumentOrder([whole] + digits) && Within([whole] + digits, whole.from, whole.to)
  {
    assert forall i :: 0 <= i < |digits| ==> ([whole] + digits)[i + 1] == digits[i];
  }

  lemma DigitMarksAreThose(start: nat, underlines: seq<int>, mark: Mark)
    ensures mark in DigitMarks(start, underlines) <==>
              mark.from - start in underlines && mark.to == mark.from + 1 && mark.cls == UNDERLINE
  {
    var digits := DigitMarks(start, underlines);
    if mark.from - start in underlines && mark.to == mark.from + 1 && mark.cls == UNDERLINE {
      var k :| 0 <= k < |underlines| && underlines[k] == mark.from - start;
      assert digits[k] == mark;
    }
  }

  /** One turn of the loop over the tokens: the token, if it has a class, and the digits of a number. */
  method MarksOfToken(token: Token, cls: Class, start: nat) returns (marks: seq<Mark>)
    ensures marks == MarksOf(token, cls, start)
    ensures InDocumentOrder(marks) && Within(marks, start, start + |token.text|)
    ensures forall mark :: mark in marks <==> IsMarkOf(token, cls, start, mark)
  {
    hide IsUnderlined, Underlines, InDocumentOrder, Within, StrictlyIncreasing;
    var underlines := [];
    if token.kind == NoBracket(Number) {
      underlines := DigitGroupUnderlines(token.text);
    } else {
      NoneIncreasing();
    }
    var digits := [];
    for k := 0 to |underlines|
      invariant digits == DigitMarks(start, underlines[..k])
    {
      digits := digits + [Mark(start + underlines[k], start + underlines[k] + 1, UNDERLINE)];
    }
    assert underlines[..|underlines|] == underlines;
    assert forall k :: 0 <= k < |underlines| ==> underlines[k] in underlines;
    DigitsInOrder(start, |token.text|, underlines);
    forall mark
      ensures mark in digits <==>
                mark.from - start in underlines && mark.to == mark.from + 1 && mark.cls == UNDERLINE
    {
      DigitMarksAreThose(start, underlines, mark);
    }
    assert token.kind != NoBracket(Number) ==> digits == [];
    hide DigitMarks;
    marks := digits;
    if cls != NO_CLASS {
      WholeThenDigits(Mark(start, start + |token.text|, cls), digits);
      marks := [Mark(start, start + |token.text|, cls)] + digits;
    }
  }

  lemma NoneIncreasing()
    ensures StrictlyIncreasing([])
  {
  }

  lemma MarksConcat(a: seq<Mark>, b: seq<Mark>, start: int, end: int)
    requires 0 <= start <= end
    requires InDocumentOrder(a) && Within(a, 0, start) && InDocumentOrder(b) && Within(b, start, end)
    ensures InDocumentOrder(a + b) && Within(a + b, 0, end)
  {
    assert forall i :: 0 <= i < |a + b| ==> (a + b)[i] == if i < |a| then a[i] else b[i - |a|];
  }

  /** The class of a token, from its depth, whether it is bold, and whether it matches the cursor. */
  function ClassOf(tokens: seq<Token>, i: nat, isKeyword: JsString -> bool, depth: int, bold: bool, matching: bool)
      : Class
    requires i < |tokens|
  {
    var base := if depth >= 0 then Rainbow(depth % RAINBOW_BRACKET_COUNT) else TokenBase(tokens, i, isKeyword);
    Class(base, bold, matching)
  }

  /** The classes of all tokens. */
  ghost predicate AreClasses(classes: seq<Class>, tokens: seq<Token>, cursor: nat, focused: bool,
                             isKeyword: JsString -> bool, bold: set<nat>) {
    && |classes| == |tokens|
    && forall i :: 0 <= i < |tokens| ==>
         classes[i] == ClassOf(tokens, i, isKeyword, Depth(tokens)[i], i in bold,
                               focused && MatchesCursor(tokens, i, cursor, isKeyword))
  }

  /** The class of every token: the first half of the loop of `buildDecorations`. */
  method ClassesOf(tokens: seq<Token>, cursor: nat, focused: bool, isKeyword: JsString -> bool)
      returns (classes: seq<Class>, bold: set<nat>)
    ensures IsBold(tokens, cursor, focused, bold)
    ensures AreClasses(classes, tokens, cursor, focused, isKeyword, bold)
  {
    hide IsBold, MatchesCursor, TokenBase, Depth;
    var depth;
    depth, bold := ComputeBracketInfo(tokens, cursor, focused);
    var matching := ComputeMatchingIdentifiers(tokens, cursor, focused, isKeyword);
    classes := [];
    for i := 0 to |tokens|
      invariant |classes| == i && depth.Length == |tokens| && depth[..] == Depth(tokens)
      invariant forall k :: 0 <= k < i ==>
                  classes[k] == ClassOf(tokens, k, isKeyword, Depth(tokens)[k], k in bold,
                                        focused && MatchesCursor(tokens, k, cursor, isKeyword))
    {
      assert depth[..][i] == depth[i];
      var cls := Class(Rainbow(0), i in bold, i in matching);
      if depth[i] >= 0 {
        cls := cls.(base := Rainbow(depth[i] % RAINBOW_BRACKET_COUNT));
      } else {
        var base := TokenClass(tokens, i, isKeyword);
        cls := cls.(base := base);
      }
      classes := classes + [cls];
    }
  }

  /** The loop of `buildDecorations` and the mark of the tail. */
  method MarkTokens(tokens: seq<Token>, classes: seq<Class>, length: nat) returns (marks: seq<Mark>)
    requires |classes| == |tokens| && tokens != []
    ensures marks == AllMarks(tokens, classes, length)
    ensures InDocumentOrder(marks)
    ensures Start(tokens, |tokens|) <= length ==> Within(marks, 0, length)
  {
    hide MarksOf, InDocumentOrder, Within;
    marks := [];
    var offset := 0;
    NoMarks();
    for i := 0 to |tokens|
      invariant offset == Start(tokens, i)
      invariant marks == MarksUpTo(tokens, classes, i)
      invariant InDocumentOrder(marks) && Within(marks, 0, offset)
    {
      var more := MarksOfToken(tokens[i], classes[i], offset);
      MarksConcat(marks, more, offset, offset + |tokens[i].text|);
      marks := marks + more;
      offset := offset + |tokens[i].text|;
    }
    if offset < length {
      TailIsLast(marks, offset, length);
      marks := marks + [Mark(offset, length, ERROR)];
    }
  }

  /**
   * `buildDecorations`: just these marks, with their classes, in the order the editor demands. There are
   * no tokens to mark if the lexer is not ready or fails, or if there is no text.
   */
  method BuildDecorations(lexed: Option<seq<Token>>, length: nat, cursor: nat, focused: bool,
                          isKeyword: JsString -> bool)
      returns (added: seq<Mark>, ghost classes: seq<Class>, ghost bold: set<nat>)
    ensures lexed.None? || length == 0 || lexed.value == [] ==> added == []
    ensures var tokens := if lexed.Some? && length > 0 then lexed.value else [];
            && IsBold(tokens, cursor, focused, bold)
            && AreClasses(classes, tokens, cursor, focused, isKeyword, bold)
            && added == AllMarks(tokens, classes, length)
            && (Start(tokens, |tokens|) <= length ==> Within(added, 0, length))
    ensures forall i, j :: 0 <= i < j < |added| ==> added[i].from <= added[j].from
  {
    added, classes, bold := [], [], {};
    NothingBold(cursor, focused);
    if lexed.None? || length == 0 {
      return;
    }
    var tokens := lexed.value;
    if |tokens| == 0 {
      return;
    }
    hide InDocumentOrder, Within, IsBold, AreClasses, MarksUpTo, TailMarks, Start;
    var found, emboldened := ClassesOf(tokens, cursor, focused, isKeyword);
    classes, bold := found, emboldened;
    ClassesAreAsMany(classes, tokens, cursor, focused, isKeyword, bold);
    added := MarkTokens(tokens, found, length);
    OrderMeans(added);
  }

  lemma OrderMeans(marks: seq<Mark>)
    requires InDocumentOrder(marks)
    ensures forall i, j :: 0 <= i < j < |marks| ==> marks[i].from <= marks[j].from
  {
  }

  lemma NothingBold(cursor: nat, focused: bool)
    ensures IsBold([], cursor, focused, {})
  {
    assert AtCaret([], cursor, -1);
  }

  lemma MarksOfAreThose(token: Token, cls: Class, start: nat, mark: Mark)
    ensures mark in MarksOf(token, cls, start) <==> IsMarkOf(token, cls, start, mark)
  {
    AllUnderlines(token.text);
    hide IsUnderlined, Underlines;
    DigitMarksAreThose(start, Underlines(token.text, |token.text|), mark);
    hide DigitMarks;
  }

  lemma IsMarkSnoc(tokens: seq<Token>, classes: seq<Class>, n: nat, mark: Mark)
    requires n < |tokens| == |classes|
    ensures IsMark(tokens, classes, n + 1, mark) <==>
              IsMark(tokens, classes, n, mark) || IsMarkOf(tokens[n], classes[n], Start(tokens, n), mark)
  {
    hide IsMarkOf, Start;
  }

  lemma {:induction false} MarksUpToAreThose(tokens: seq<Token>, classes: seq<Class>, n: nat, mark: Mark)
    requires n <= |tokens| == |classes|
    ensures mark in MarksUpTo(tokens, classes, n) <==> IsMark(tokens, classes, n, mark)
  {
    hide IsMarkOf, MarksOf, Start;
    if n > 0 {
      MarksUpToAreThose(tokens, classes, n - 1, mark);
      IsMarkSnoc(tokens, classes, n - 1, mark);
      MarksOfAreThose(tokens[n - 1], classes[n - 1], Start(tokens, n - 1), mark);
      hide IsMark;
    }
  }

  /**
   * A mark is added if and only if it is one of a token, or that of the tail of the text; the tail is
   * marked if and only if some token comes before it, so not when the lexer stops at once.
   */
  lemma MarksAreThose(tokens: seq<Token>, classes: seq<Class>, length: nat, mark: Mark)
    requires |tokens| == |classes|
    ensures var end := Start(tokens, |tokens|);
            mark in AllMarks(tokens, classes, length) <==>
              || (exists i :: 0 <= i < |tokens| && var (start, text) := (Start(tokens, i), tokens[i].text);
                    || (classes[i] != Class(NoBase, false, false) && mark == Mark(start, start + |text|, classes[i]))
                    || (tokens[i].kind == NoBracket(Number) && IsUnderlined(text, mark.from - start)
                        && mark == Mark(mark.from, mark.from + 1, Class(NoBase, false, true))))
              || (tokens != [] && end < length && mark == Mark(end, length, Class(ErrorBase, false, false)))
  {
    MarksUpToAreThose(tokens, classes, |tokens|, mark);
    IsMarkMeans(tokens, classes, mark);
    hide MarksUpTo, IsMark, Start, IsUnderlined;
  }

  lemma IsMarkMeans(tokens: seq<Token>, classes: seq<Class>, mark: Mark)
    requires |tokens| == |classes|
    ensures IsMark(tokens, classes, |tokens|, mark) <==>
              exists i :: 0 <= i < |tokens| && var (start, text) := (Start(tokens, i), tokens[i].text);
                || (classes[i] != Class(NoBase, false, false) && mark == Mark(start, start + |text|, classes[i]))
                || (tokens[i].kind == NoBracket(Number) && IsUnderlined(text, mark.from - start)
                    && mark == Mark(mark.from, mark.from + 1, Class(NoBase, false, true)))
  {
    hide Start, IsUnderlined;
  }

  lemma ClassesAreAsMany(classes: seq<Class>, tokens: seq<Token>, cursor: nat, focused: bool,
                         isKeyword: JsString -> bool, bold: set<nat>)
    requires AreClasses(classes, tokens, cursor, focused, isKeyword, bold)
    ensures |classes| == |tokens|
  {
  }

  lemma NoMarks()
    ensures InDocumentOrder([]) && Within([], 0, 0)
  {
  }

  lemma TailIsLast(added: seq<Mark>, offset: nat, length: nat)
    requires InDocumentOrder(added) && Within(added, 0, offset) && offset < length
    ensures var longer := added + [Mark(offset, length, ERROR)];
            InDocumentOrder(longer) && Within(longer, 0, length)
  {
    MarksConcat(added, [Mark(offset, length, ERROR)], offset, length);
  }

  // ---------------------------------------------------------------------------------------
  // What the colors say
  // ---------------------------------------------------------------------------------------

  /**
   * A token is colored as a bracket if and only if it has a mate: a bracket of the other kind with a
   * balanced word between; and mates have one color.
   */
  lemma ColoredIffMated(classes: seq<Class>, tokens: seq<Token>, cursor: nat, focused: bool,
                        isKeyword: JsString -> bool, bold: set<nat>, i: nat)
    requires AreClasses(classes, tokens, cursor, focused, isKeyword, bold) && i < |tokens|
    ensures classes[i].base.Rainbow? <==> (exists j :: i < j < |tokens| && Mates(tokens, i, j))
                                          || (exists j :: 0 <= j < i && Mates(tokens, j, i))
    ensures forall j :: i < j < |tokens| && Mates(tokens, i, j) ==> classes[j].base == classes[i].base
  {
    hide Mates, Depth, MatchOf, MatchesCursor;
    DepthIffMated(tokens, i);
    TokensHaveNoRainbow(tokens, i, isKeyword);
    forall j | i < j < |tokens| && Mates(tokens, i, j)
      ensures classes[j].base == classes[i].base
    {
      MatchedIffBalanced(tokens, i, j);
      MatchingIsInvolution(tokens, i);
    }
  }

  /** Mates have the color of their depth, of seven; from pair to pair inwards it is the next one. */
  lemma ColorsFollowDepth(classes: seq<Class>, tokens: seq<Token>, cursor: nat, focused: bool,
                          isKeyword: JsString -> bool, bold: set<nat>, i: nat, j: nat)
    requires AreClasses(classes, tokens, cursor, focused, isKeyword, bold) && Matched(tokens, i, j)
    ensures classes[i].base == classes[j].base == Rainbow(|set a: nat | a < i && IsOpen(tokens, a, i)| % 7)
    ensures forall p: nat, q: nat :: Matched(tokens, p, q) && i < p < q < j ==>
              classes[p].base == Rainbow((classes[i].base.color + |Enclosing(tokens, i, p)|) % 7)
  {
    DepthCountsOpenBrackets(tokens, i, j);
    MatchingIsInvolution(tokens, i);
    ColorOfDepth(classes, tokens, cursor, focused, isKeyword, bold, i);
    ColorOfDepth(classes, tokens, cursor, focused, isKeyword, bold, j);
    hide Depth, MatchOf, IsOpen, AreClasses, Enclosing;
    forall p: nat, q: nat | Matched(tokens, p, q) && i < p < q < j
      ensures classes[p].base == Rainbow((classes[i].base.color + |Enclosing(tokens, i, p)|) % 7)
    {
      DepthCountsEnclosingPairs(tokens, i, j, p, q);
      MatchedIsPaired(tokens, p, q);
      ColorOfDepth(classes, tokens, cursor, focused, isKeyword, bold, p);
    }
  }

  lemma ColorOfDepth(classes: seq<Class>, tokens: seq<Token>, cursor: nat, focused: bool,
                     isKeyword: JsString -> bool, bold: set<nat>, i: nat)
    requires AreClasses(classes, tokens, cursor, focused, isKeyword, bold) && i < |tokens| && Depth(tokens)[i] >= 0
    ensures |classes| == |tokens| && classes[i].base == Rainbow(Depth(tokens)[i] % 7)
  {
    hide Depth, MatchesCursor, TokenBase;
  }

  lemma MatchedIsPaired(tokens: seq<Token>, p: nat, q: nat)
    requires Matched(tokens, p, q)
    ensures Depth(tokens)[p] >= 0
  {
    MatchingIsInvolution(tokens, p);
  }

  /** What else a class says: the base of a token without a mate, and the two additions. */
  lemma ClassesSayMore(classes: seq<Class>, tokens: seq<Token>, cursor: nat, focused: bool,
                       isKeyword: JsString -> bool, bold: set<nat>, i: nat)
    requires AreClasses(classes, tokens, cursor, focused, isKeyword, bold) && i < |tokens|
    ensures MatchOf(tokens)[i] == -1 ==> classes[i].base == TokenBase(tokens, i, isKeyword)
    ensures classes[i].matched <==> i in bold
    ensures classes[i].underlined <==> focused && MatchesCursor(tokens, i, cursor, isKeyword)
  {
    DepthIffMated(tokens, i);
    hide Depth, MatchOf, MatchesCursor, TokenBase;
  }

  lemma TokensHaveNoRainbow(tokens: seq<Token>, i: nat, isKeyword: JsString -> bool)
    requires i < |tokens|
    ensures !TokenBase(tokens, i, isKeyword).Rainbow?
  {
  }
}
