/**
 * ui/src/components/HexViewer.tsx: which characters of the rendered text each raw byte of the
 * output belongs to. The raw bytes are arbitrary; in the text, every byte that is not part of
 * well-formed UTF-8 was replaced by U+FFFD.
 */
module HexViewer {
  import opened Options
  import opened Utf

  datatype OutputRange = OutputRange(from: nat, to: nat)

  datatype ByteSelection = ByteSelection(byteFrom: nat, byteTo: nat, outputRange: Option<OutputRange>)

  // ---------------------------------------------------------------------------------------
  // The code
  // ---------------------------------------------------------------------------------------

  /** `bytes[i]`; -1 stands for `undefined`, of which every lower-bound comparison is false. */
  function At(bytes: seq<Byte>, i: nat): (b: int)
    ensures i < |bytes| ==> b == bytes[i]
    ensures i >= |bytes| ==> b == -1
  {
    if i < |bytes| then bytes[i] else -1
  }

  predicate IsContinuationByte(value: int) {
    0x80 <= value <= 0xBF
  }

  function Utf8CodePointLength(bytes: seq<Byte>, offset: nat): (n: nat)
    requires offset < |bytes|
    ensures offset + n <= |bytes|
  {
    var first, second, third, fourth :=
      At(bytes, offset), At(bytes, offset + 1), At(bytes, offset + 2), At(bytes, offset + 3);
    if first <= 0x7F then 1
    else if 0xC2 <= first <= 0xDF && IsContinuationByte(second) then 2
    else if first == 0xE0 && 0xA0 <= second <= 0xBF && IsContinuationByte(third) then 3
    else if (0xE1 <= first <= 0xEC || 0xEE <= first <= 0xEF)
            && IsContinuationByte(second) && IsContinuationByte(third) then 3
    else if first == 0xED && 0x80 <= second <= 0x9F && IsContinuationByte(third) then 3
    else if first == 0xF0 && 0x90 <= second <= 0xBF
            && IsContinuationByte(third) && IsContinuationByte(fourth) then 4
    else if 0xF1 <= first <= 0xF3 && IsContinuationByte(second)
            && IsContinuationByte(third) && IsContinuationByte(fourth) then 4
    else if first == 0xF4 && 0x80 <= second <= 0x8F
            && IsContinuationByte(third) && IsContinuationByte(fourth) then 4
    else 0
  }

  method BytesMatch(bytes: seq<Byte>, offset: nat, encoded: seq<Byte>) returns (matched: bool)
    ensures matched <==> offset + |encoded| <= |bytes| && bytes[offset..offset + |encoded|] == encoded
  {
    if offset + |encoded| > |bytes| { return false; }
    var index := 0;
    while index < |encoded|
      invariant index <= |encoded|
      invariant forall k :: 0 <= k < index ==> bytes[offset + k] == encoded[k]
    {
      if bytes[offset + index] != encoded[index] {
        assert bytes[offset..offset + |encoded|][index] == bytes[offset + index];
        return false;
      }
      index := index + 1;
    }
    return true;
  }

  /** `String.prototype.codePointAt`. */
  function CodePointAt(output: seq<Unit>, offset: nat): Option<int> {
    if offset >= |output| then None
    else if IsHighSurrogate(output[offset]) && offset + 1 < |output| && IsLowSurrogate(output[offset + 1]) then
      Some(Combine(output[offset], output[offset + 1]))
    else Some(output[offset])
  }

  /** `String.prototype.slice`: bounds past the end are clamped. */
  function Slice(output: seq<Unit>, from: nat, to: nat): seq<Unit>
    requires from <= to
  {
    if to <= |output| then output[from..to]
    else if from <= |output| then output[from..]
    else []
  }

  /** Where the character at `offset` ends. */
  function CharacterEnd(output: seq<Unit>, offset: nat): (end: nat)
    ensures offset < end <= offset + 2
  {
    var codePoint := CodePointAt(output, offset);
    offset + if codePoint.Some? && codePoint.value > 0xFFFF then 2 else 1
  }

  /** The test made on a valid byte sequence: does the next character encode to these bytes? */
  predicate CharacterMatches(output: seq<Unit>, outputOffset: nat, bytes: seq<Byte>, byteOffset: nat)
    requires byteOffset < |bytes|
  {
    var length := Utf8CodePointLength(bytes, byteOffset);
    var encoded := TextEncode(Slice(output, outputOffset, CharacterEnd(output, outputOffset)));
    |encoded| == length && bytes[byteOffset..byteOffset + length] == encoded
  }

  /** One turn of the loop: the selection for the bytes at `byteOffset`, and the next text cursor. */
  function Turn(output: seq<Unit>, bytes: seq<Byte>, byteOffset: nat, outputOffset: nat)
      : (t: (ByteSelection, nat))
    requires byteOffset < |bytes|
    ensures t.0.byteFrom == byteOffset < t.0.byteTo <= |bytes|
  {
    var length := Utf8CodePointLength(bytes, byteOffset);
    if length == 0 then
      (ByteSelection(byteOffset, byteOffset + 1, None),
       if CodePointAt(output, outputOffset) == Some(REPLACEMENT) then outputOffset + 1 else outputOffset)
    else if CharacterMatches(output, outputOffset, bytes, byteOffset) then
      var end := CharacterEnd(output, outputOffset);
      (ByteSelection(byteOffset, byteOffset + length, Some(OutputRange(outputOffset, end))), end)
    else
      (ByteSelection(byteOffset, byteOffset + length, None), outputOffset)
  }

  datatype Alignment = Alignment(selections: seq<ByteSelection>, cursor: nat)

  /** What the two-cursor loop computes from byte `byteOffset` and text unit `outputOffset` on. */
  function Align(output: seq<Unit>, bytes: seq<Byte>, byteOffset: nat, outputOffset: nat): (a: Alignment)
    requires byteOffset <= |bytes|
    ensures |a.selections| == |bytes| - byteOffset
    decreases |bytes| - byteOffset
  {
    if byteOffset == |bytes| then Alignment([], outputOffset)
    else
      var (selection, next) := Turn(output, bytes, byteOffset, outputOffset);
      var rest := Align(output, bytes, selection.byteTo, next);
      Alignment(Copies(selection.byteTo - byteOffset, selection) + rest.selections, rest.cursor)
  }

  function Copies(n: nat, selection: ByteSelection): (s: seq<ByteSelection>)
    ensures |s| == n && forall i :: 0 <= i < n ==> s[i] == selection
  {
    seq(n, _ => selection)
  }

  /** The body of the loop up to the writes: the selection made and where the text cursor moves. */
  method SelectAt(output: seq<Unit>, bytes: seq<Byte>, byteOffset: nat, outputOffset: nat)
      returns (selection: ByteSelection, next: nat)
    requires byteOffset < |bytes|
    ensures (selection, next) == Turn(output, bytes, byteOffset, outputOffset)
  {
    next := outputOffset;
    var length := Utf8CodePointLength(bytes, byteOffset);
    if length == 0 {
      selection := ByteSelection(byteOffset, byteOffset + 1, None);
      if CodePointAt(output, outputOffset) == Some(REPLACEMENT) {
        next := outputOffset + 1;
      }
    } else {
      selection := ByteSelection(byteOffset, byteOffset + length, None);
      var codePoint := CodePointAt(output, outputOffset);
      var outputEnd := outputOffset + if codePoint.Some? && codePoint.value > 0xFFFF then 2 else 1;
      var encoded := TextEncode(Slice(output, outputOffset, outputEnd));
      var matched := BytesMatch(bytes, byteOffset, encoded);
      if |encoded| == length && matched {
        selection := selection.(outputRange := Some(OutputRange(outputOffset, outputEnd)));
        next := outputEnd;
      }
    }
  }

  /** `cursor` is the loop's `outputOffset` at the end; `None` is a hole left by `new Array(n)`. */
  method ByteSelections(output: seq<Unit>, bytes: seq<Byte>)
      returns (selections: array<Option<ByteSelection>>, ghost cursor: nat)
    ensures selections.Length == |bytes|
    ensures forall i :: 0 <= i < |bytes| ==> selections[i] == Some(Align(output, bytes, 0, 0).selections[i])
    ensures cursor == Align(output, bytes, 0, 0).cursor
  {
    hide Turn;
    selections := new Option<ByteSelection>[|bytes|](_ => None);
    var byteOffset, outputOffset := 0, 0;
    ghost var goal := Align(output, bytes, 0, 0);
    while byteOffset < |bytes|
      invariant byteOffset <= |bytes|
      invariant goal.cursor == Align(output, bytes, byteOffset, outputOffset).cursor
      invariant goal.selections[byteOffset..] == Align(output, bytes, byteOffset, outputOffset).selections
      invariant forall i :: 0 <= i < byteOffset ==> selections[i] == Some(goal.selections[i])
    {
      AlignTurn(output, bytes, byteOffset, outputOffset, goal.selections);
      var selection, next := SelectAt(output, bytes, byteOffset, outputOffset);
      var index := byteOffset;
      while index < selection.byteTo
        invariant byteOffset <= index <= selection.byteTo
        invariant forall i :: 0 <= i < index ==> selections[i] == Some(goal.selections[i])
      {
        selections[index] := Some(selection);
        index := index + 1;
      }
      byteOffset, outputOffset := selection.byteTo, next;
    }
    cursor := outputOffset;
  }

  /** One turn of the loop fills in the first part of what remains to be filled. */
  lemma AlignTurn(output: seq<Unit>, bytes: seq<Byte>, byteOffset: nat, outputOffset: nat,
                  goal: seq<ByteSelection>)
    requires byteOffset < |bytes| == |goal|
    requires goal[byteOffset..] == Align(output, bytes, byteOffset, outputOffset).selections
    ensures var (selection, next) := Turn(output, bytes, byteOffset, outputOffset);
            && Align(output, bytes, byteOffset, outputOffset).cursor
               == Align(output, bytes, selection.byteTo, next).cursor
            && goal[selection.byteTo..] == Align(output, bytes, selection.byteTo, next).selections
            && forall i :: byteOffset <= i < selection.byteTo ==> goal[i] == selection
  {
    var (selection, next) := Turn(output, bytes, byteOffset, outputOffset);
    var n := selection.byteTo - byteOffset;
    var here := goal[byteOffset..];
    assert here[n..] == Align(output, bytes, selection.byteTo, next).selections;
    assert goal[selection.byteTo..] == here[n..];
    assert forall i :: byteOffset <= i < selection.byteTo ==> goal[i] == here[i - byteOffset];
  }

  /** The selection of byte `i`: from this turn of the loop, or from the turns after it. */
  lemma AlignAt(output: seq<Unit>, bytes: seq<Byte>, byteOffset: nat, outputOffset: nat, i: nat)
    requires byteOffset <= i < |bytes|
    ensures var (selection, next) := Turn(output, bytes, byteOffset, outputOffset);
            Align(output, bytes, byteOffset, outputOffset).selections[i - byteOffset]
            == if i < selection.byteTo then selection
               else Align(output, bytes, selection.byteTo, next).selections[i - selection.byteTo]
  {
  }

  // ---------------------------------------------------------------------------------------
  // `utf8CodePointLength` accepts exactly the encodings of section 4 of RFC 3629
  // ---------------------------------------------------------------------------------------

  lemma TwoBytes(b0: Byte, b1: Byte) returns (cp: Scalar)
    requires 0xC2 <= b0 <= 0xDF && IsContinuationByte(b1)
    ensures Encode8(cp) == [b0, b1]
  {
    cp := (b0 as int - 0xC0) * 0x40 + (b1 as int - 0x80);
  }

  lemma ThreeBytes(b0: Byte, b1: Byte, b2: Byte) returns (cp: Scalar)
    requires 0xE0 <= b0 <= 0xEF && IsContinuationByte(b1) && IsContinuationByte(b2)
    requires (b0 == 0xE0 ==> b1 >= 0xA0) && (b0 == 0xED ==> b1 <= 0x9F)
    ensures Encode8(cp) == [b0, b1, b2]
  {
    cp := (b0 as int - 0xE0) * 0x1000 + (b1 as int - 0x80) * 0x40 + (b2 as int - 0x80);
    assert cp / 0x40 == (b0 as int - 0xE0) * 0x40 + (b1 as int - 0x80);
  }

  lemma FourBytes(b0: Byte, b1: Byte, b2: Byte, b3: Byte) returns (cp: Scalar)
    requires 0xF0 <= b0 <= 0xF4
    requires IsContinuationByte(b1) && IsContinuationByte(b2) && IsContinuationByte(b3)
    requires (b0 == 0xF0 ==> b1 >= 0x90) && (b0 == 0xF4 ==> b1 <= 0x8F)
    ensures Encode8(cp) == [b0, b1, b2, b3]
  {
    cp := (b0 as int - 0xF0) * 0x4_0000 + (b1 as int - 0x80) * 0x1000 + (b2 as int - 0x80) * 0x40 + (b3 as int - 0x80);
    assert cp / 0x40 == (b0 as int - 0xF0) * 0x1000 + (b1 as int - 0x80) * 0x40 + (b2 as int - 0x80);
    assert cp / 0x1000 == (b0 as int - 0xF0) * 0x40 + (b1 as int - 0x80);
  }

  /** An accepted sequence is the encoding of a code point. */
  lemma AcceptedIsEncoding(bytes: seq<Byte>, offset: nat) returns (cp: Scalar)
    requires offset < |bytes| && Utf8CodePointLength(bytes, offset) > 0
    ensures Encode8(cp) == bytes[offset..offset + Utf8CodePointLength(bytes, offset)]
    ensures StartsWith(bytes[offset..], cp)
  {
    var n := Utf8CodePointLength(bytes, offset);
    var b := bytes[offset..offset + n];
    if n == 1 {
      cp := b[0];
    } else if n == 2 {
      cp := TwoBytes(b[0], b[1]);
    } else if n == 3 {
      cp := ThreeBytes(b[0], b[1], b[2]);
    } else {
      cp := FourBytes(b[0], b[1], b[2], b[3]);
    }
    assert Encode8(cp) == b == bytes[offset..][..n];
  }

  /** The encoding of a code point is accepted, with its own length. */
  lemma EncodingIsAccepted(bytes: seq<Byte>, offset: nat, cp: Scalar)
    requires offset < |bytes| && StartsWith(bytes[offset..], cp)
    ensures Utf8CodePointLength(bytes, offset) == |Encode8(cp)|
  {
    var e := Encode8(cp);
    assert forall i | 0 <= i < |e| :: At(bytes, offset + i) == bytes[offset..][i] == e[i];
    Horner(cp);
  }

  /** The length test decides whether a code point starts here, whatever follows. */
  lemma LengthDecidesUtf8(bytes: seq<Byte>, offset: nat)
    requires offset < |bytes|
    ensures Utf8CodePointLength(bytes, offset) > 0 <==> exists cp: Scalar :: StartsWith(bytes[offset..], cp)
    ensures forall cp: Scalar :: StartsWith(bytes[offset..], cp) ==> Utf8CodePointLength(bytes, offset) == |Encode8(cp)|
  {
    if Utf8CodePointLength(bytes, offset) > 0 {
      var cp := AcceptedIsEncoding(bytes, offset);
    }
    forall cp: Scalar | StartsWith(bytes[offset..], cp)
      ensures Utf8CodePointLength(bytes, offset) == |Encode8(cp)|
    {
      EncodingIsAccepted(bytes, offset, cp);
    }
  }

  // ---------------------------------------------------------------------------------------
  // The text the server renders, and the selections it calls for
  // ---------------------------------------------------------------------------------------

  /**
   * The rendered text: well-formed UTF-8 becomes the UTF-16 of its code points, and each
   * other byte becomes one U+FFFD. Stated without `Utf8CodePointLength`.
   */
  ghost function Rendered(bytes: seq<Byte>): seq<Unit>
    decreases |bytes|
  {
    if bytes == [] then []
    else match Head(bytes)
      case Some(cp) => Encode16(cp) + Rendered(bytes[|Encode8(cp)|..])
      case None => [REPLACEMENT] + Rendered(bytes[1..])
  }

  /** The code point at the head of `bytes`, if they begin with well-formed UTF-8. */
  ghost function Head(bytes: seq<Byte>): (h: Option<Scalar>)
    ensures h.Some? ==> StartsWith(bytes, h.value)
    ensures h.None? ==> forall cp: Scalar :: !StartsWith(bytes, cp)
  {
    if cp: Scalar :| StartsWith(bytes, cp) then Some(cp) else None
  }

  /** The selections a reader of the text expects: a code point's bytes get its own characters. */
  ghost function Expected(bytes: seq<Byte>, byteOffset: nat, outputOffset: nat): (s: seq<ByteSelection>)
    requires byteOffset <= |bytes|
    ensures |s| == |bytes| - byteOffset
    decreases |bytes| - byteOffset
  {
    if byteOffset == |bytes| then []
    else match Head(bytes[byteOffset..])
      case Some(cp) =>
        var n, m := |Encode8(cp)|, |Encode16(cp)|;
        Copies(n, ByteSelection(byteOffset, byteOffset + n, Some(OutputRange(outputOffset, outputOffset + m))))
        + Expected(bytes, byteOffset + n, outputOffset + m)
      case None =>
        [ByteSelection(byteOffset, byteOffset + 1, None)] + Expected(bytes, byteOffset + 1, outputOffset + 1)
  }

  /** A valid code point in the text is matched, and the cursor passes exactly its characters. */
  lemma MatchesItsOwnCharacters(output: seq<Unit>, bytes: seq<Byte>, byteOffset: nat, outputOffset: nat, cp: Scalar)
    requires byteOffset < |bytes| && outputOffset <= |output|
    requires StartsWith(bytes[byteOffset..], cp)
    requires Encode16(cp) <= output[outputOffset..]
    ensures Turn(output, bytes, byteOffset, outputOffset)
         == (ByteSelection(byteOffset, byteOffset + |Encode8(cp)|,
                           Some(OutputRange(outputOffset, outputOffset + |Encode16(cp)|))),
             outputOffset + |Encode16(cp)|)
  {
    hide Utf8CodePointLength, TextEncode, Encode8;
    var rest := output[outputOffset..];
    var n, m := |Encode8(cp)|, |Encode16(cp)|;
    EncodingIsAccepted(bytes, byteOffset, cp);
    assert forall i | 0 <= i < m :: output[outputOffset + i] == rest[i] == Encode16(cp)[i];
    assert CharacterEnd(output, outputOffset) == outputOffset + m;
    assert output[outputOffset..outputOffset + m] == Encode16(cp);
    TextEncodeOne(cp);
    assert bytes[byteOffset..byteOffset + n] == bytes[byteOffset..][..n] == Encode8(cp);
  }

  /** An invalid byte is skipped together with its U+FFFD. */
  lemma SkipsReplacement(output: seq<Unit>, bytes: seq<Byte>, byteOffset: nat, outputOffset: nat)
    requires byteOffset < |bytes| && outputOffset < |output|
    requires forall cp: Scalar :: !StartsWith(bytes[byteOffset..], cp)
    requires output[outputOffset] == REPLACEMENT
    ensures Turn(output, bytes, byteOffset, outputOffset)
         == (ByteSelection(byteOffset, byteOffset + 1, None), outputOffset + 1)
  {
    LengthDecidesUtf8(bytes, byteOffset);
  }

  /** One segment of the bytes against the characters rendered from it keeps the two in step. */
  lemma TurnKeepsStep(output: seq<Unit>, bytes: seq<Byte>, byteOffset: nat, outputOffset: nat)
      returns (selection: ByteSelection, next: nat)
    requires byteOffset < |bytes| && outputOffset <= |output|
    requires output[outputOffset..] == Rendered(bytes[byteOffset..])
    ensures (selection, next) == Turn(output, bytes, byteOffset, outputOffset)
    ensures next <= |output| && output[next..] == Rendered(bytes[selection.byteTo..])
    ensures Expected(bytes, byteOffset, outputOffset)
         == Copies(selection.byteTo - byteOffset, selection) + Expected(bytes, selection.byteTo, next)
  {
    hide Turn, Encode8, Encode16;
    var tail := bytes[byteOffset..];
    var rest := output[outputOffset..];
    match Head(tail)
    case Some(cp) =>
      var n, m := |Encode8(cp)|, |Encode16(cp)|;
      MatchesItsOwnCharacters(output, bytes, byteOffset, outputOffset, cp);
      selection := ByteSelection(byteOffset, byteOffset + n, Some(OutputRange(outputOffset, outputOffset + m)));
      next := outputOffset + m;
      assert tail[n..] == bytes[byteOffset + n..];
      assert rest[m..] == output[next..];
    case None =>
      assert output[outputOffset] == rest[0] == REPLACEMENT;
      SkipsReplacement(output, bytes, byteOffset, outputOffset);
      selection := ByteSelection(byteOffset, byteOffset + 1, None);
      next := outputOffset + 1;
      assert tail[1..] == bytes[byteOffset + 1..];
      assert rest[1..] == output[next..];
      assert Copies(1, selection) == [selection];
  }

  /** From any boundary reached in step, the loop produces what is expected and ends in step. */
  lemma {:induction false} AlignsFrom(output: seq<Unit>, bytes: seq<Byte>, byteOffset: nat, outputOffset: nat)
    requires byteOffset <= |bytes| && outputOffset <= |output|
    requires output[outputOffset..] == Rendered(bytes[byteOffset..])
    ensures Align(output, bytes, byteOffset, outputOffset)
         == Alignment(Expected(bytes, byteOffset, outputOffset), |output|)
    decreases |bytes| - byteOffset
  {
    hide Turn, Head;
    if byteOffset < |bytes| {
      var selection, next := TurnKeepsStep(output, bytes, byteOffset, outputOffset);
      AlignsFrom(output, bytes, selection.byteTo, next);
    }
  }

  /**
   * For every byte sequence and the text rendered from it: each valid code point gets exactly
   * its own UTF-16 range, each other byte gets none, and the text cursor ends at the end.
   */
  lemma SelectionsOfRenderedText(bytes: seq<Byte>)
    ensures Align(Rendered(bytes), bytes, 0, 0) == Alignment(Expected(bytes, 0, 0), |Rendered(bytes)|)
  {
    assert bytes[0..] == bytes && Rendered(bytes)[0..] == Rendered(bytes);
    AlignsFrom(Rendered(bytes), bytes, 0, 0);
  }

  /** Byte `i` is shown by the characters of the code point it belongs to, or by none. */
  ghost predicate ShowsByte(text: seq<Unit>, bytes: seq<Byte>, i: nat, selection: ByteSelection) {
    && selection.byteFrom <= i < selection.byteTo <= |bytes|
    && match Head(bytes[selection.byteFrom..])
       case Some(cp) =>
         && bytes[selection.byteFrom..selection.byteTo] == Encode8(cp)
         && selection.outputRange.Some?
         && Shows(text, selection.outputRange.value, Encode16(cp))
       case None => selection == ByteSelection(i, i + 1, None)
  }

  predicate Shows(text: seq<Unit>, range: OutputRange, characters: seq<Unit>) {
    range.from <= range.to <= |text| && text[range.from..range.to] == characters
  }

  /** In step, one turn of the loop shows the bytes it passes. */
  lemma TurnShows(text: seq<Unit>, bytes: seq<Byte>, byteOffset: nat, outputOffset: nat, i: nat)
    requires byteOffset < |bytes| && outputOffset <= |text|
    requires text[outputOffset..] == Rendered(bytes[byteOffset..])
    requires byteOffset <= i < Turn(text, bytes, byteOffset, outputOffset).0.byteTo
    ensures ShowsByte(text, bytes, i, Turn(text, bytes, byteOffset, outputOffset).0)
  {
    hide Turn, Utf8CodePointLength;
    var tail := bytes[byteOffset..];
    var rest := text[outputOffset..];
    match Head(tail)
    case Some(cp) =>
      var n, m := |Encode8(cp)|, |Encode16(cp)|;
      MatchesItsOwnCharacters(text, bytes, byteOffset, outputOffset, cp);
      assert tail[..n] == bytes[byteOffset..byteOffset + n];
      assert rest[..m] == text[outputOffset..outputOffset + m];
    case None =>
      assert text[outputOffset] == rest[0] == REPLACEMENT;
      SkipsReplacement(text, bytes, byteOffset, outputOffset);
  }

  /** Every byte is shown by its own characters in the text rendered from the bytes. */
  lemma {:induction false} EveryByteIsShown(text: seq<Unit>, bytes: seq<Byte>, byteOffset: nat, outputOffset: nat,
                                            i: nat)
    requires byteOffset <= i < |bytes| && outputOffset <= |text|
    requires text[outputOffset..] == Rendered(bytes[byteOffset..])
    ensures ShowsByte(text, bytes, i, Align(text, bytes, byteOffset, outputOffset).selections[i - byteOffset])
    decreases |bytes| - byteOffset
  {
    hide Turn, Align, Rendered, Head;
    var selection, next := TurnKeepsStep(text, bytes, byteOffset, outputOffset);
    AlignAt(text, bytes, byteOffset, outputOffset, i);
    if i < selection.byteTo {
      TurnShows(text, bytes, byteOffset, outputOffset, i);
    } else {
      EveryByteIsShown(text, bytes, selection.byteTo, next, i);
    }
  }

  /** A selection whose characters, if it has any, are text that encodes to its bytes. */
  ghost predicate IsSound(output: seq<Unit>, bytes: seq<Byte>, i: nat, selection: ByteSelection) {
    && selection.byteFrom <= i < selection.byteTo <= |bytes|
    && (selection.outputRange.Some? ==>
          var range := selection.outputRange.value;
          && range.from < range.to <= |output|
          && TextEncode(output[range.from..range.to]) == bytes[selection.byteFrom..selection.byteTo])
  }

  lemma TurnIsSound(output: seq<Unit>, bytes: seq<Byte>, byteOffset: nat, outputOffset: nat, i: nat)
    requires byteOffset < |bytes|
    requires byteOffset <= i < Turn(output, bytes, byteOffset, outputOffset).0.byteTo
    ensures IsSound(output, bytes, i, Turn(output, bytes, byteOffset, outputOffset).0)
  {
    assert TextEncode([]) == [];
  }

  /**
   * Whatever the text, hovering a byte never highlights the wrong characters: a range lies in
   * the text, and the characters in it encode to exactly the bytes of the selection.
   */
  lemma {:induction false} RangesAreSound(output: seq<Unit>, bytes: seq<Byte>, byteOffset: nat, outputOffset: nat,
                                          i: nat)
    requires byteOffset <= i < |bytes|
    ensures IsSound(output, bytes, i, Align(output, bytes, byteOffset, outputOffset).selections[i - byteOffset])
    decreases |bytes| - byteOffset
  {
    hide Turn, Align;
    var (selection, next) := Turn(output, bytes, byteOffset, outputOffset);
    AlignAt(output, bytes, byteOffset, outputOffset, i);
    if i < selection.byteTo {
      TurnIsSound(output, bytes, byteOffset, outputOffset, i);
    } else {
      RangesAreSound(output, bytes, selection.byteTo, next, i);
    }
  }

  // ---------------------------------------------------------------------------------------
  // Without raw bytes, the viewer shows the encoding of the text itself
  // ---------------------------------------------------------------------------------------

  /** The first character of a text, lone surrogate or not, and the code point it encodes as. */
  lemma FirstCharacter(text: seq<Unit>) returns (m: nat, cp: Scalar)
    requires text != []
    ensures m == CharacterEnd(text, 0) <= |text|
    ensures TextEncode(text[..m]) == Encode8(cp)
    ensures TextEncode(text) == Encode8(cp) + TextEncode(text[m..])
  {
    m := CharacterEnd(text, 0);
    if m == 2 {
      cp := Combine(text[0], text[1]);
    } else {
      cp := if IsHighSurrogate(text[0]) || IsLowSurrogate(text[0]) then REPLACEMENT else text[0];
    }
    assert text[..m][m..] == [];
    assert TextEncode(text[..m]) == Encode8(cp) + [] == Encode8(cp);
  }

  /** The first character of encoded text is matched, even when it is a lone surrogate. */
  lemma MatchesEncodedCharacter(output: seq<Unit>, bytes: seq<Byte>, byteOffset: nat, outputOffset: nat)
      returns (next: nat)
    requires byteOffset < |bytes| && outputOffset <= |output|
    requires bytes[byteOffset..] == TextEncode(output[outputOffset..])
    ensures outputOffset < next <= |output|
    ensures var (selection, n) := Turn(output, bytes, byteOffset, outputOffset);
            && n == next && selection.outputRange == Some(OutputRange(outputOffset, next))
            && bytes[selection.byteTo..] == TextEncode(output[next..])
  {
    hide Utf8CodePointLength, TextEncode, Encode8;
    var rest, tail := output[outputOffset..], bytes[byteOffset..];
    EncodesToNothing(rest);
    var m, cp := FirstCharacter(rest);
    next := CharacterEnd(output, outputOffset);
    assert next == outputOffset + m;
    assert rest[m..] == output[next..] && rest[..m] == output[outputOffset..next];
    EncodingIsAccepted(bytes, byteOffset, cp);
    var n := |Encode8(cp)|;
    assert bytes[byteOffset..byteOffset + n] == tail[..n] == Encode8(cp);
    assert bytes[byteOffset + n..] == tail[n..];
  }

  lemma {:induction false} AlignsEncodedFrom(output: seq<Unit>, bytes: seq<Byte>, byteOffset: nat, outputOffset: nat)
    requires byteOffset <= |bytes| && outputOffset <= |output|
    requires bytes[byteOffset..] == TextEncode(output[outputOffset..])
    ensures Align(output, bytes, byteOffset, outputOffset).cursor == |output|
    ensures forall selection <- Align(output, bytes, byteOffset, outputOffset).selections :: selection.outputRange.Some?
    decreases |bytes| - byteOffset
  {
    if byteOffset < |bytes| {
      var next := MatchesEncodedCharacter(output, bytes, byteOffset, outputOffset);
      AlignsEncodedFrom(output, bytes, Turn(output, bytes, byteOffset, outputOffset).0.byteTo, next);
    } else {
      EncodesToNothing(output[outputOffset..]);
    }
  }

  lemma EncodesToNothing(text: seq<Unit>)
    ensures TextEncode(text) == [] <==> text == []
  {
  }

  /** Every byte of an encoded text, well-formed UTF-16 or not, leads back to a character of it. */
  lemma SelectionsOfEncodedText(output: seq<Unit>)
    ensures var a := Align(output, TextEncode(output), 0, 0);
            && a.cursor == |output|
            && forall selection <- a.selections :: selection.outputRange.Some?
  {
    assert TextEncode(output)[0..] == TextEncode(output) && output[0..] == output;
    AlignsEncodedFrom(output, TextEncode(output), 0, 0);
  }
}
