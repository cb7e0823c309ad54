/** ui/src/sql/highlight.ts: the digits of a number that are underlined. */
module DigitGroups {
  import opened Sorting
  import opened Utf

  const DOT: Unit := 0x2E

  const MINUS: Unit := 0x2D

  /** From `0` to `9`. */
  predicate IsDigit(c: Unit) { 0x30 <= c <= 0x39 }

  /** Nothing but digits, dots and minus signs. */
  predicate IsPlain(token: JsString) {
    forall i :: 0 <= i < |token| ==> IsDigit(token[i]) || token[i] == DOT || token[i] == MINUS
  }

  /** A digit before the first dot. */
  predicate IsIntegerDigit(token: JsString, i: int) {
    0 <= i < |token| && IsDigit(token[i]) && DOT !in token[..i]
  }

  /** The first and last digit of the integer part, or -1 and -1. */
  ghost predicate IsIntegerPart(token: JsString, first: int, last: int) {
    if first < 0 then first == last == -1 && forall i :: 0 <= i < |token| ==> !IsIntegerDigit(token, i)
    else
      && IsIntegerDigit(token, first) && IsIntegerDigit(token, last) && first <= last
      && forall i :: 0 <= i < |token| && IsIntegerDigit(token, i) ==> first <= i <= last
  }

  /** A digit with 3, 6, 9, ... digits of the integer part to its right. */
  predicate IsBoundary(first: int, last: int, i: int) {
    first <= i < last && (last - i) % 3 == 0
  }

  /** The boundaries, if the number is plain and has at least five digits. */
  ghost predicate IsUnderlined(token: JsString, i: int) {
    IsPlain(token) && exists first, last ::
      IsIntegerPart(token, first, last) && last - first >= 4 && IsBoundary(first, last, i)
  }

  /** Those of the first `n` characters that are underlined, in order. */
  ghost function Underlines(token: JsString, n: nat): seq<int> {
    if n == 0 then [] else Underlines(token, n - 1) + if IsUnderlined(token, n - 1) then [n - 1] else []
  }

  predicate StrictlyIncreasing(s: seq<int>) {
    forall i, j :: 0 <= i < j < |s| ==> s[i] < s[j]
  }

  /** The first loop: whether the number is plain, and its integer part. */
  method FindIntegerPart(token: JsString) returns (plain: bool, first: int, last: int)
    ensures plain <==> IsPlain(token)
    ensures plain ==> IsIntegerPart(token, first, last)
  {
    plain, first, last := true, -1, -1;
    var finished := false;
    for i := 0 to |token|
      invariant IsPlain(token[..i])
      invariant finished <==> DOT in token[..i]
      invariant IsIntegerPart(token[..i], first, last)
    {
      var c := token[i];
      PartGrows(token, i, first, last);
      assert token[..i + 1] == token[..i] + [c];
      if IsDigit(c) {
        if !finished {
          if first < 0 {
            first := i;
          }
          last := i;
        }
      } else if c == DOT {
        finished := true;
      } else if c != MINUS {
        return false, -1, -1;
      }
    }
    assert token[..|token|] == token;
  }

  lemma DigitsOfPrefix(token: JsString, i: nat, k: nat)
    requires k <= i < |token|
    ensures IsIntegerDigit(token[..i + 1], k) <==> if k < i then IsIntegerDigit(token[..i], k)
                                                   else IsDigit(token[i]) && DOT !in token[..i]
  {
    assert token[..i + 1][..k] == token[..k];
    if k < i {
      assert token[..i][..k] == token[..k];
    }
  }

  lemma PartGrows(token: JsString, i: nat, first: int, last: int)
    requires i < |token| && IsIntegerPart(token[..i], first, last)
    ensures var more := IsDigit(token[i]) && DOT !in token[..i];
            IsIntegerPart(token[..i + 1], if more && first < 0 then i else first, if more then i else last)
  {
    var before, now := token[..i], token[..i + 1];
    forall k: int | 0 <= k < i
      ensures IsIntegerDigit(now, k) <==> IsIntegerDigit(before, k)
    {
      DigitsOfPrefix(token, i, k);
    }
    DigitsOfPrefix(token, i, i);
    assert |before| == i && |now| == i + 1;
    assert first >= 0 ==> first < i && last < i;
    hide IsIntegerDigit;
  }

  /** The second loop: the boundaries from right to left. */
  method BoundariesDown(first: int, last: int) returns (result: seq<int>)
    requires 0 <= first && last - first >= 4
    ensures forall i :: i in result <==> IsBoundary(first, last, i)
    ensures forall k, l :: 0 <= k < l < |result| ==> result[k] > result[l]
  {
    result := [];
    var length := 1 + last - first;
    var off := length - 4;
    while off >= 0
      invariant -3 <= off <= length - 4 && (length - 1 - off) % 3 == 0
      invariant forall i :: i in result <==> first + off < i && IsBoundary(first, last, i)
      invariant forall k :: 0 <= k < |result| ==> result[k] > first + off
      invariant forall k, l :: 0 <= k < l < |result| ==> result[k] > result[l]
    {
      result := result + [first + off];
      off := off - 3;
    }
  }

  lemma OneIntegerPart(token: JsString, first: int, last: int, first': int, last': int)
    requires IsIntegerPart(token, first, last) && IsIntegerPart(token, first', last')
    ensures first == first' && last == last'
  {
    assert first >= 0 ==> IsIntegerDigit(token, first) && IsIntegerDigit(token, last);
    assert first' >= 0 ==> IsIntegerDigit(token, first') && IsIntegerDigit(token, last');
    hide IsIntegerDigit;
  }

  lemma UnderlinedIffBoundary(token: JsString, first: int, last: int, i: int)
    requires IsPlain(token) && IsIntegerPart(token, first, last)
    ensures IsUnderlined(token, i) <==> last - first >= 4 && IsBoundary(first, last, i)
    ensures IsUnderlined(token, i) ==> 0 <= i < |token|
  {
    assert first >= 0 ==> last < |token|;
    if IsUnderlined(token, i) {
      var f, l :| IsIntegerPart(token, f, l) && l - f >= 4 && IsBoundary(f, l, i);
      OneIntegerPart(token, first, last, f, l);
    }
  }

  /** An optional sign, digits, and a fraction: what is underlined is every third digit before the dot, from five on. */
  lemma GroupsOfThree(signs: JsString, digits: JsString, fraction: JsString, i: int)
    requires (forall c <- signs :: c == 0x2D) && (forall c <- digits :: 0x30 <= c <= 0x39)
    requires fraction == [] || fraction[0] == 0x2E
    requires forall c <- fraction :: 0x30 <= c <= 0x39 || c == 0x2E || c == 0x2D
    ensures IsUnderlined(signs + digits + fraction, i)
            <==> var right := |signs| + |digits| - 1 - i;
                 |digits| >= 5 && i >= |signs| && right > 0 && right % 3 == 0
  {
    var token, first, last := signs + digits + fraction, |signs|, |signs| + |digits| - 1;
    NumberIsPlain(signs, digits, fraction);
    if digits == [] {
      first, last := -1, -1;
    }
    NumberParts(signs, digits, fraction);
    UnderlinedIffBoundary(token, first, last, i);
  }

  lemma NumberIsPlain(signs: JsString, digits: JsString, fraction: JsString)
    requires (forall c <- signs :: c == 0x2D) && (forall c <- digits :: 0x30 <= c <= 0x39)
    requires forall c <- fraction :: 0x30 <= c <= 0x39 || c == 0x2E || c == 0x2D
    ensures IsPlain(signs + digits + fraction)
  {
    forall c | c in signs + digits + fraction
      ensures IsDigit(c) || c == DOT || c == MINUS
    {
      assert c in signs || c in digits || c in fraction;
    }
  }

  lemma NumberParts(signs: JsString, digits: JsString, fraction: JsString)
    requires (forall c <- signs :: c == 0x2D) && (forall c <- digits :: 0x30 <= c <= 0x39)
    requires fraction == [] || fraction[0] == 0x2E
    ensures var token, first, last := signs + digits + fraction, |signs|, |signs| + |digits| - 1;
            if digits == [] then IsIntegerPart(token, -1, -1) else IsIntegerPart(token, first, last)
  {
    var token := signs + digits + fraction;
    forall i | 0 <= i < |token|
      ensures IsIntegerDigit(token, i) <==> |signs| <= i < |signs| + |digits|
    {
      if i < |signs| {
        assert token[i] in signs;
      } else if i < |signs| + |digits| {
        assert token[i] == digits[i - |signs|] && digits[i - |signs|] in digits;
        forall c | c in token[..i]
          ensures c != DOT
        {
          assert c in signs || c in digits;
        }
      } else {
        assert token[|signs| + |digits|] == DOT;
        assert i > |signs| + |digits| ==> token[..i][|signs| + |digits|] == DOT;
      }
    }
  }

  /** Any other character, as in hexadecimal numbers or exponents: nothing is underlined. */
  lemma OthersAreNotUnderlined(token: JsString, k: nat, i: int)
    requires k < |token| && !(0x30 <= token[k] <= 0x39) && token[k] != 0x2E && token[k] != 0x2D
    ensures !IsUnderlined(token, i)
  {
    assert !IsPlain(token);
  }

  lemma {:induction false} UnderlinesAreThose(token: JsString, n: nat, i: int)
    ensures i in Underlines(token, n) <==> 0 <= i < n && IsUnderlined(token, i)
  {
    hide IsUnderlined;
    if n > 0 {
      UnderlinesAreThose(token, n - 1, i);
    }
  }

  lemma AllUnderlines(token: JsString)
    ensures forall i :: i in Underlines(token, |token|) <==> IsUnderlined(token, i)
  {
    forall i
      ensures i in Underlines(token, |token|) <==> IsUnderlined(token, i)
    {
      UnderlinesAreThose(token, |token|, i);
      assert IsUnderlined(token, i) ==> 0 <= i < |token|;
    }
  }

  lemma LastIsGreatest(s: seq<int>)
    requires StrictlyIncreasing(s) && s != []
    ensures forall x :: x in s ==> x <= s[|s| - 1]
    ensures forall x :: x in s[..|s| - 1] <==> x in s && x != s[|s| - 1]
  {
    assert s == s[..|s| - 1] + [s[|s| - 1]];
  }

  /** Only one list is in order and has given elements. */
  lemma {:induction false} IncreasingIsUnique(s: seq<int>, t: seq<int>)
    requires StrictlyIncreasing(s) && StrictlyIncreasing(t) && forall x :: x in s <==> x in t
    ensures s == t
  {
    assert |s| > 0 ==> s[0] in s && s[|s| - 1] in s;
    assert |t| > 0 ==> t[0] in t && t[|t| - 1] in t;
    if |s| > 0 {
      LastIsGreatest(s);
      LastIsGreatest(t);
      var front, front' := s[..|s| - 1], t[..|t| - 1];
      forall x
        ensures x in front <==> x in front'
      {
        assert (x in front <==> x in s && x != s[|s| - 1]) && (x in front' <==> x in t && x != t[|t| - 1]);
      }
      IncreasingIsUnique(front, front');
      assert s == front + [s[|s| - 1]] && t == front' + [t[|t| - 1]];
    }
  }

  lemma {:induction false} UnderlinesIncrease(token: JsString, n: nat)
    ensures StrictlyIncreasing(Underlines(token, n))
    ensures forall k :: 0 <= k < |Underlines(token, n)| ==> Underlines(token, n)[k] < n
  {
    hide IsUnderlined;
    if n > 0 {
      UnderlinesIncrease(token, n - 1);
    }
  }

  /** `digitGroupUnderlines`: in order, exactly the digits at the boundaries of groups of three. */
  method DigitGroupUnderlines(token: JsString) returns (underlines: seq<int>)
    ensures forall i :: i in underlines <==> IsUnderlined(token, i)
    ensures StrictlyIncreasing(underlines)
    ensures forall i :: i in underlines ==> 0 <= i < |token|
    ensures underlines == Underlines(token, |token|)
  {
    underlines := CollectUnderlines(token);
    AllUnderlines(token);
    UnderlinesIncrease(token, |token|);
    hide IsUnderlined, Underlines;
    IncreasingIsUnique(underlines, Underlines(token, |token|));
  }

  method CollectUnderlines(token: JsString) returns (underlines: seq<int>)
    ensures forall i :: i in underlines <==> IsUnderlined(token, i)
    ensures StrictlyIncreasing(underlines)
    ensures forall i :: i in underlines ==> 0 <= i < |token|
  {
    hide IsIntegerPart, IsBoundary, IsUnderlined;
    var plain, first, last := FindIntegerPart(token);
    underlines := [];
    if !plain {
      NothingUnderlined(token);
      return;
    }
    forall i
      ensures IsUnderlined(token, i) <==> last - first >= 4 && IsBoundary(first, last, i)
      ensures IsUnderlined(token, i) ==> 0 <= i < |token|
    {
      UnderlinedIffBoundary(token, first, last, i);
    }
    PartIsOrdered(token, first, last);
    if first >= 0 && last >= 0 {
      if 1 + last - first >= 5 {
        var result := BoundariesDown(first, last);
        underlines := Sort(result, (a: int, b: int) => a < b);
        SortedUnderlines(result, underlines);
      }
    }
  }

  lemma NothingUnderlined(token: JsString)
    requires !IsPlain(token)
    ensures forall i :: !IsUnderlined(token, i)
  {
  }

  lemma PartIsOrdered(token: JsString, first: int, last: int)
    requires IsIntegerPart(token, first, last)
    ensures first == last == -1 || 0 <= first <= last
  {
  }

  lemma SortedUnderlines(result: seq<int>, sorted: seq<int>)
    requires multiset(sorted) == multiset(result)
    requires forall k, l :: 0 <= k < l < |result| ==> result[k] > result[l]
    requires Orders((a: int, b: int) => a < b, result) ==> InOrder((a: int, b: int) => a < b, sorted)
    ensures StrictlyIncreasing(sorted) && forall i :: i in sorted <==> i in result
  {
    var less := (a: int, b: int) => a < b;
    assert Orders(less, result);
    RearrangedHasSame(result, sorted);
    RearrangedHasNoDuplicates(result, sorted);
    assert forall i, j :: 0 <= i < j < |sorted| ==> !less(sorted[j], sorted[i]) && sorted[i] != sorted[j];
  }
}
