/**
 * The two encodings the byte viewer lines up: UTF-8 (section 3 of RFC 3629) on the byte side,
 * UTF-16 (sections 2.1 and 2.2 of RFC 2781) on the side of a JavaScript string.
 */
module Utf {

  type Byte = x: int | 0 <= x < 0x100

  /** One element of a JavaScript string. */
  type Unit = x: int | 0 <= x < 0x1_0000

  type JsString = seq<Unit>

  /** A Unicode scalar value: any code point that is not a surrogate. */
  type Scalar = cp: int | 0 <= cp < 0xD800 || 0xE000 <= cp <= 0x10FFFF

  const REPLACEMENT: Scalar := 0xFFFD

  predicate IsHighSurrogate(u: Unit) { 0xD800 <= u <= 0xDBFF }

  predicate IsLowSurrogate(u: Unit) { 0xDC00 <= u <= 0xDFFF }

  /** Section 3 of RFC 3629. */
  function Encode8(cp: Scalar): (s: seq<Byte>)
    ensures 1 <= |s| <= 4
  {
    if cp < 0x80 then [cp]
    else if cp < 0x800 then [0xC0 + cp / 0x40, 0x80 + cp % 0x40]
    else if cp < 0x1_0000 then [0xE0 + cp / 0x1000, 0x80 + cp / 0x40 % 0x40, 0x80 + cp % 0x40]
    else [0xF0 + cp / 0x4_0000, 0x80 + cp / 0x1000 % 0x40, 0x80 + cp / 0x40 % 0x40, 0x80 + cp % 0x40]
  }

  /** Section 2.1 of RFC 2781. */
  function Encode16(cp: Scalar): (s: seq<Unit>)
    ensures 1 <= |s| <= 2
  {
    if cp < 0x1_0000 then [cp]
    else [0xD800 + (cp - 0x1_0000) / 0x400, 0xDC00 + (cp - 0x1_0000) % 0x400]
  }

  /** The scalar value of a surrogate pair, section 2.2 of RFC 2781. */
  function Combine(high: Unit, low: Unit): (cp: Scalar)
    requires IsHighSurrogate(high) && IsLowSurrogate(low)
    ensures cp >= 0x1_0000 && Encode16(cp) == [high, low]
  {
    0x1_0000 + (high - 0xD800) * 0x400 + (low - 0xDC00)
  }

  /** `TextEncoder.encode`: UTF-16 to UTF-8, a lone surrogate becoming U+FFFD. */
  function TextEncode(text: seq<Unit>): seq<Byte> {
    if text == [] then []
    else if |text| >= 2 && IsHighSurrogate(text[0]) && IsLowSurrogate(text[1]) then
      Encode8(Combine(text[0], text[1])) + TextEncode(text[2..])
    else if IsHighSurrogate(text[0]) || IsLowSurrogate(text[0]) then
      Encode8(REPLACEMENT) + TextEncode(text[1..])
    else
      Encode8(text[0]) + TextEncode(text[1..])
  }

  /** Whether `bytes` begins with the encoding of `cp`. */
  predicate StartsWith(bytes: seq<Byte>, cp: Scalar) {
    Encode8(cp) <= bytes
  }

  /** UTF-8 is a prefix code: at most one code point starts at a given place. */
  lemma StartsWithUnique(bytes: seq<Byte>, a: Scalar, b: Scalar)
    requires StartsWith(bytes, a) && StartsWith(bytes, b)
    ensures a == b
  {
    var ea, eb := Encode8(a), Encode8(b);
    assert ea[0] == bytes[0] == eb[0];
    assert |ea| == |eb|;
    assert forall i | 0 <= i < |ea| :: ea[i] == bytes[i] == eb[i];
    Encode8Injective(a, b);
  }

  lemma Encode8Injective(a: Scalar, b: Scalar)
    requires Encode8(a) == Encode8(b)
    ensures a == b
  {
    var ea, eb := Encode8(a), Encode8(b);
    assert |ea| == |eb|;
    assert forall i | 0 <= i < |ea| :: ea[i] == eb[i];
    Horner(a);
    Horner(b);
  }

  lemma Horner(cp: Scalar)
    ensures cp == cp / 0x40 * 0x40 + cp % 0x40
    ensures cp / 0x40 == cp / 0x1000 * 0x40 + cp / 0x40 % 0x40
    ensures cp / 0x1000 == cp / 0x4_0000 * 0x40 + cp / 0x1000 % 0x40
  {
  }

  /** The bits of a code point are in the bytes in order: the inverse of the table in section 3 of RFC 3629. */
  lemma Encode8IsReadBack(cp: Scalar)
    ensures var e := Encode8(cp);
            && (|e| == 1 ==> cp == e[0] as int)
            && (|e| == 2 ==> cp == 0x40 * (e[0] as int - 0xC0) + (e[1] as int - 0x80))
            && (|e| == 3 ==> cp == 0x1000 * (e[0] as int - 0xE0) + 0x40 * (e[1] as int - 0x80) + (e[2] as int - 0x80))
            && (|e| == 4 ==> cp == 0x4_0000 * (e[0] as int - 0xF0) + 0x1000 * (e[1] as int - 0x80)
                                   + 0x40 * (e[2] as int - 0x80) + (e[3] as int - 0x80))
    ensures var e := Encode16(cp);
            cp == if |e| == 1 then e[0] as int else 0x1_0000 + (e[0] as int - 0xD800) * 0x400 + (e[1] as int - 0xDC00)
  {
    Horner(cp);
  }

  /** The examples of section 7 of RFC 3629 and of section 5 of RFC 2781. */
  lemma EncodingExamples()
    ensures Encode8(0x41) == [0x41] && Encode8(0x391) == [0xCE, 0x91] && Encode8(0x2262) == [0xE2, 0x89, 0xA2]
    ensures Encode8(0xD55C) == [0xED, 0x95, 0x9C] && Encode8(0x233B4) == [0xF0, 0xA3, 0x8E, 0xB4]
    ensures Encode16(0x12345) == [0xD808, 0xDF45] && Encode16(0x3D) == [0x3D]
  {
  }

  /** A surrogate that is not part of a pair is encoded as U+FFFD is. */
  lemma LoneSurrogate(u: Unit, rest: seq<Unit>)
    requires 0xD800 <= u <= 0xDFFF
    requires u <= 0xDBFF ==> rest == [] || !(0xDC00 <= rest[0] <= 0xDFFF)
    ensures TextEncode([u] + rest) == [0xEF, 0xBF, 0xBD] + TextEncode(rest)
    ensures Encode8(0xFFFD) == [0xEF, 0xBF, 0xBD]
  {
    assert ([u] + rest)[1..] == rest;
  }

  /** Encoding one code point as UTF-16 and then as UTF-8 text gives its UTF-8 encoding. */
  lemma TextEncodeOne(cp: Scalar)
    ensures TextEncode(Encode16(cp)) == Encode8(cp)
  {
    var units := Encode16(cp);
    if cp < 0x1_0000 {
      assert units[1..] == [];
      assert Encode8(cp) + [] == Encode8(cp);
    } else {
      assert IsHighSurrogate(units[0]) && IsLowSurrogate(units[1]);
      assert Combine(units[0], units[1]) == cp;
      assert units[2..] == [];
      assert Encode8(cp) + [] == Encode8(cp);
    }
  }
}
