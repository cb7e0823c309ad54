/**
 * ui/src/sql/lexer.ts and highlight.ts: the tokens of a query and their syntax classes. The lexer
 * is not part of this model; that a text is a keyword in some case, `isKeyword`, is a parameter.
 */
module Tokens {
  import opened Utf

  /** The token types that are no brackets, as far as they are told apart. */
  datatype Lexeme =
    | Whitespace | Comment | BareWord | Number | StringLiteral | HereDoc | QuotedIdentifier | Operator | Other

  datatype Kind =
    | OpeningRound | ClosingRound | OpeningSquare | ClosingSquare | OpeningCurly | ClosingCurly
    | NoBracket(lexeme: Lexeme)

  datatype Token = Token(kind: Kind, text: JsString) {
    predicate Opens() { kind.OpeningRound? || kind.OpeningSquare? || kind.OpeningCurly? }

    predicate Closes() { kind.ClosingRound? || kind.ClosingSquare? || kind.ClosingCurly? }

    /** `BRACKET_PAIR`: whether `closer` is of the type that closes this opening bracket. */
    predicate PairsWith(closer: Token) {
      match kind
      case OpeningRound => closer.kind.ClosingRound?
      case OpeningSquare => closer.kind.ClosingSquare?
      case OpeningCurly => closer.kind.ClosingCurly?
      case _ => false
    }

    predicate IsGap() { kind == NoBracket(Whitespace) || kind == NoBracket(Comment) }
  }

  /** Where token `n` starts: tokens stand side by side from the start of the text. */
  function Start(tokens: seq<Token>, n: nat): nat
    requires n <= |tokens|
  {
    if n == 0 then 0 else Start(tokens, n - 1) + |tokens[n - 1].text|
  }

  /** The text that was cut into tokens. */
  function Text(tokens: seq<Token>): JsString {
    if tokens == [] then [] else Text(tokens[..|tokens| - 1]) + tokens[|tokens| - 1].text
  }

  /** A token is found in the text where it starts. */
  lemma {:induction false} TokenIsAtStart(tokens: seq<Token>, n: nat)
    requires n < |tokens|
    ensures Start(tokens, n) + |tokens[n].text| <= |Text(tokens)| == Start(tokens, |tokens|)
    ensures Text(tokens)[Start(tokens, n)..Start(tokens, n) + |tokens[n].text|] == tokens[n].text
  {
    var front := tokens[..|tokens| - 1];
    StartOfPrefix(tokens, |front|, n);
    StartOfPrefix(tokens, |front|, |front|);
    TextLength(front);
    if n < |front| {
      TokenIsAtStart(front, n);
    }
  }

  lemma {:induction false} TextLength(tokens: seq<Token>)
    ensures |Text(tokens)| == Start(tokens, |tokens|)
  {
    if tokens != [] {
      var front := tokens[..|tokens| - 1];
      TextLength(front);
      StartOfPrefix(tokens, |front|, |front|);
    }
  }

  lemma {:induction false} StartOfPrefix(tokens: seq<Token>, k: nat, n: nat)
    requires n <= k <= |tokens|
    ensures Start(tokens[..k], n) == Start(tokens, n)
  {
    if n > 0 {
      StartOfPrefix(tokens, k, n - 1);
    }
  }

  // ---------------------------------------------------------------------------------------
  // Classes
  // ---------------------------------------------------------------------------------------

  /** `q-com`, `q-num`, `q-str`, `q-qid`, `q-kw`, `q-fn`, `q-id`, `q-op`, `q-br0` to `q-br6`, `q-err`, or none. */
  datatype Base =
    | NoBase | CommentBase | NumberBase | StringBase | QuotedBase | KeywordBase | FunctionBase | IdentifierBase
    | OperatorBase | Rainbow(color: nat) | ErrorBase

  predicate AllGaps(tokens: seq<Token>, from: nat, to: nat)
    requires to <= |tokens|
  {
    forall l :: from <= l < to ==> tokens[l].IsGap()
  }

  /** After whitespace and comments, if any, comes an opening round bracket. */
  predicate CallFollows(tokens: seq<Token>, i: nat) {
    exists k :: i <= k < |tokens| && tokens[k].kind.OpeningRound? && AllGaps(tokens, i, k)
  }

  /** The class of a token by itself. */
  function TokenBase(tokens: seq<Token>, i: nat, isKeyword: JsString -> bool): Base
    requires i < |tokens|
  {
    match tokens[i].kind
    case NoBracket(Comment) => CommentBase
    case NoBracket(Number) => NumberBase
    case NoBracket(StringLiteral) => StringBase
    case NoBracket(HereDoc) => StringBase
    case NoBracket(QuotedIdentifier) => QuotedBase
    case NoBracket(BareWord) =>
      if isKeyword(tokens[i].text) then KeywordBase
      else if CallFollows(tokens, i + 1) then FunctionBase
      else IdentifierBase
    case NoBracket(Operator) => OperatorBase
    case _ => NoBase
  }

  /** `tokenClass`, with its search for the next token that counts. */
  method TokenClass(tokens: seq<Token>, i: nat, isKeyword: JsString -> bool) returns (base: Base)
    requires i < |tokens|
    ensures base == TokenBase(tokens, i, isKeyword)
    ensures base == CommentBase <==> tokens[i].kind == NoBracket(Comment)
    ensures base == NumberBase <==> tokens[i].kind == NoBracket(Number)
    ensures base == StringBase <==> tokens[i].kind == NoBracket(StringLiteral) || tokens[i].kind == NoBracket(HereDoc)
    ensures base == QuotedBase <==> tokens[i].kind == NoBracket(QuotedIdentifier)
    ensures base == OperatorBase <==> tokens[i].kind == NoBracket(Operator)
    ensures base == KeywordBase <==> tokens[i].kind == NoBracket(BareWord) && isKeyword(tokens[i].text)
    ensures base == FunctionBase <==>
              && tokens[i].kind == NoBracket(BareWord) && !isKeyword(tokens[i].text)
              && exists k :: i < k < |tokens| && tokens[k].kind.OpeningRound?
                             && forall l :: i < l < k ==>
                                  tokens[l].kind == NoBracket(Whitespace) || tokens[l].kind == NoBracket(Comment)
    ensures base == IdentifierBase <==>
              tokens[i].kind == NoBracket(BareWord) && base != KeywordBase && base != FunctionBase
    ensures !base.Rainbow? && base != ErrorBase
  {
    match tokens[i].kind
    case NoBracket(Comment) => return CommentBase;
    case NoBracket(Number) => return NumberBase;
    case NoBracket(StringLiteral) => return StringBase;
    case NoBracket(HereDoc) => return StringBase;
    case NoBracket(QuotedIdentifier) => return QuotedBase;
    case NoBracket(BareWord) =>
      if isKeyword(tokens[i].text) {
        return KeywordBase;
      }
      var next := i + 1;
      for j := next to |tokens|
        invariant AllGaps(tokens, next, j)
      {
        if !tokens[j].IsGap() {
          assert forall k :: j < k < |tokens| ==> !AllGaps(tokens, next, k);
          return if tokens[j].kind.OpeningRound? then FunctionBase else IdentifierBase;
        }
      }
      return IdentifierBase;
    case NoBracket(Operator) => return OperatorBase;
    case _ => return NoBase;
  }

  /** `isMatchableIdentifier`. */
  predicate IsIdentifier(tokens: seq<Token>, i: nat, isKeyword: JsString -> bool)
    requires i < |tokens|
  {
    TokenBase(tokens, i, isKeyword) in [IdentifierBase, QuotedBase]
  }

  /** The cursor is inside token `i`; right after it does not count. */
  predicate Contains(tokens: seq<Token>, i: nat, cursor: nat)
    requires i < |tokens|
  {
    Start(tokens, i) <= cursor < Start(tokens, i) + |tokens[i].text|
  }

  lemma {:induction false} StartsGrow(tokens: seq<Token>, i: nat, j: nat)
    requires i < j <= |tokens|
    ensures Start(tokens, i) + |tokens[i].text| <= Start(tokens, j)
  {
    if i + 1 < j {
      StartsGrow(tokens, i, j - 1);
    }
  }

  /** The cursor is inside one token at most. */
  lemma OneContains(tokens: seq<Token>, i: nat, j: nat, cursor: nat)
    requires i < |tokens| && j < |tokens| && Contains(tokens, i, cursor) && Contains(tokens, j, cursor)
    ensures i == j
  {
    if i < j {
      StartsGrow(tokens, i, j);
    } else if j < i {
      StartsGrow(tokens, j, i);
    }
  }

  /** Token `i` is an identifier with the text of the identifier that the cursor is inside of. */
  predicate MatchesCursor(tokens: seq<Token>, i: nat, cursor: nat, isKeyword: JsString -> bool)
    requires i < |tokens|
  {
    && IsIdentifier(tokens, i, isKeyword)
    && exists t :: 0 <= t < |tokens| && Contains(tokens, t, cursor) && IsIdentifier(tokens, t, isKeyword)
                   && tokens[t].text == tokens[i].text
  }

  method IsMatchableIdentifier(tokens: seq<Token>, i: nat, isKeyword: JsString -> bool) returns (matchable: bool)
    requires i < |tokens|
    ensures matchable <==> IsIdentifier(tokens, i, isKeyword)
  {
    var cls := TokenClass(tokens, i, isKeyword);
    matchable := cls == IdentifierBase || cls == QuotedBase;
  }

  /** The first loop of `computeMatchingIdentifiers`. */
  method FindTarget(tokens: seq<Token>, cursor: nat, isKeyword: JsString -> bool) returns (target: int)
    ensures -1 <= target < |tokens|
    ensures target >= 0 ==> Contains(tokens, target, cursor) && IsIdentifier(tokens, target, isKeyword)
    ensures target < 0 ==>
              forall t :: 0 <= t < |tokens| && Contains(tokens, t, cursor) ==> !IsIdentifier(tokens, t, isKeyword)
  {
    hide IsIdentifier;
    target := -1;
    var offset := 0;
    var i := 0;
    while i < |tokens| && target < 0
      invariant 0 <= i <= |tokens| && offset == Start(tokens, i) && -1 <= target < i
      invariant target >= 0 ==> Contains(tokens, target, cursor) && IsIdentifier(tokens, target, isKeyword)
      invariant target < 0 ==>
                  forall t :: 0 <= t < i && Contains(tokens, t, cursor) ==> !IsIdentifier(tokens, t, isKeyword)
    {
      var start := offset;
      offset := offset + |tokens[i].text|;
      if start <= cursor < offset {
        var matchable := IsMatchableIdentifier(tokens, i, isKeyword);
        if matchable {
          target := i;
        }
      }
      i := i + 1;
    }
  }

  /** With the cursor inside token `t`: identifiers with its text match if it is one itself. */
  lemma MatchesByText(tokens: seq<Token>, i: nat, t: nat, cursor: nat, isKeyword: JsString -> bool)
    requires i < |tokens| && t < |tokens|
    requires Start(tokens, t) <= cursor < Start(tokens, t) + |tokens[t].text|
    ensures MatchesCursor(tokens, i, cursor, isKeyword)
            <==> && tokens[i].text == tokens[t].text
                 && TokenBase(tokens, i, isKeyword) in {IdentifierBase, QuotedBase}
                 && TokenBase(tokens, t, isKeyword) in {IdentifierBase, QuotedBase}
  {
    assert Contains(tokens, t, cursor);
    if MatchesCursor(tokens, i, cursor, isKeyword) {
      var u :| 0 <= u < |tokens| && Contains(tokens, u, cursor) && IsIdentifier(tokens, u, isKeyword)
               && tokens[u].text == tokens[i].text;
      OneContains(tokens, t, u, cursor);
    }
  }

  /** `computeMatchingIdentifiers`: all occurrences of the identifier under the cursor, in a focused editor. */
  method ComputeMatchingIdentifiers(tokens: seq<Token>, cursor: nat, focused: bool, isKeyword: JsString -> bool)
      returns (result: set<nat>)
    ensures forall i :: i in result <==> 0 <= i < |tokens| && focused && MatchesCursor(tokens, i, cursor, isKeyword)
  {
    hide IsIdentifier, Contains;
    result := {};
    if !focused {
      return;
    }
    var target := FindTarget(tokens, cursor, isKeyword);
    if target < 0 {
      return;
    }
    forall t | 0 <= t < |tokens| && Contains(tokens, t, cursor)
      ensures t == target
    {
      OneContains(tokens, t, target, cursor);
    }
    var text := tokens[target].text;
    for i := 0 to |tokens|
      invariant forall k :: k in result <==> 0 <= k < i && IsIdentifier(tokens, k, isKeyword) && tokens[k].text == text
    {
      if tokens[i].text == text {
        var matchable := IsMatchableIdentifier(tokens, i, isKeyword);
        if matchable {
          result := result + {i};
        }
      }
    }
  }
}
