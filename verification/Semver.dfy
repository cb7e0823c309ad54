/**
 * pkg/chspec/semver.go: splitting a version into components and the comparator used to sort image
 * tags, with the exact condition under which it is an order.
 */
module Semver {
  import opened Words

  type Version = seq<string>

  // ---------------------------------------------------------------------------------------
  // Parse
  // ---------------------------------------------------------------------------------------

  /** `unicode.IsSpace`. */
  predicate IsSpace(c: char) {
    || '\t' <= c <= '\r' || c == ' ' || c == '\U{85}' || c == '\U{A0}'
    || c == '\U{1680}' || '\U{2000}' <= c <= '\U{200A}' || c == '\U{2028}' || c == '\U{2029}'
    || c == '\U{202F}' || c == '\U{205F}' || c == '\U{3000}'
  }

  predicate IsSeparator(c: char) { c == '.' || c == '-' || IsSpace(c) }

  /** The length of the run of non-separators at the front. */
  function FieldLength(s: string): (n: nat)
    ensures n <= |s|
    ensures forall i :: 0 <= i < n ==> !IsSeparator(s[i])
    ensures n < |s| ==> IsSeparator(s[n])
  {
    if s == "" || IsSeparator(s[0]) then 0 else 1 + FieldLength(s[1..])
  }

  /** `strings.FieldsFunc` with the separators above. */
  function Parse(version: string): Version
    decreases |version|
  {
    if version == "" then []
    else if IsSeparator(version[0]) then Parse(version[1..])
    else
      var n := FieldLength(version);
      [version[..n]] + Parse(version[n..])
  }

  predicate IsField(field: string) {
    field != "" && forall i :: 0 <= i < |field| ==> !IsSeparator(field[i])
  }

  /** The components joined by dots. */
  function Join(version: Version): string {
    if version == [] then "" else version[0] + "." + Join(version[1..])
  }

  lemma FieldThenSeparator(field: string, separator: char, rest: string)
    requires IsField(field) && IsSeparator(separator)
    ensures FieldLength(field + [separator] + rest) == |field|
  {
    var s, n := field + [separator] + rest, FieldLength(field + [separator] + rest);
    assert s[|field|] == separator;
    assert forall i :: 0 <= i < |field| ==> s[i] == field[i];
  }

  lemma {:induction false} ParseYieldsFields(version: string)
    ensures forall field <- Parse(version) :: IsField(field)
    decreases |version|
  {
    if version != "" {
      if IsSeparator(version[0]) {
        ParseYieldsFields(version[1..]);
      } else {
        ParseYieldsFields(version[FieldLength(version)..]);
      }
    }
  }

  /** The characters of `unicode.IsSpace`, one by one. */
  const SPACES := "\t\n\U{0B}\U{0C}\r \U{85}\U{A0}\U{1680}\U{2000}\U{2001}\U{2002}\U{2003}\U{2004}\U{2005}"
                  + "\U{2006}\U{2007}\U{2008}\U{2009}\U{200A}\U{2028}\U{2029}\U{202F}\U{205F}\U{3000}"

  lemma FieldBeforeSeparator(left: string, separator: char, right: string)
    requires IsSeparator(separator)
    ensures var s, n := left + [separator] + right, FieldLength(left);
            FieldLength(s) == n && s[..n] == left[..n] && s[n..] == left[n..] + [separator] + right
  {
    var s := left + [separator] + right;
    assert s[|left|] == separator && forall i :: 0 <= i < |left| ==> s[i] == left[i];
  }

  lemma {:induction false} ParseSplits(left: string, separator: char, right: string)
    requires IsSeparator(separator)
    ensures Parse(left + [separator] + right) == Parse(left) + Parse(right)
    decreases |left|
  {
    var s, n := left + [separator] + right, FieldLength(left);
    if left == "" {
      assert s[1..] == right;
    } else if IsSeparator(left[0]) {
      assert s[1..] == left[1..] + [separator] + right;
      ParseSplits(left[1..], separator, right);
    } else {
      FieldBeforeSeparator(left, separator, right);
      ParseSplits(left[n..], separator, right);
    }
  }

  /** A version is cut at dots, hyphens and white space, and nowhere else. */
  lemma ParseCutsAtSeparators(left: string, c: char, right: string)
    ensures c in ".-" + SPACES ==> Parse(left + [c] + right) == Parse(left) + Parse(right)
    ensures Parse("") == []
    ensures left != "" && (forall d <- left :: d !in ".-" + SPACES) ==> Parse(left) == [left]
  {
    hide Parse;
    if c in ".-" + SPACES {
      ParseSplits(left, c, right);
    }
    if left != "" && forall d <- left :: d !in ".-" + SPACES {
      SeparatorsListed(left);
      OneField(left);
    }
    OneField("");
  }

  lemma SeparatorsListed(s: string)
    ensures (forall d <- s :: d !in ".-" + SPACES) <==> forall i :: 0 <= i < |s| ==> !IsSeparator(s[i])
  {
    forall i | 0 <= i < |s|
      ensures s[i] in ".-" + SPACES <==> IsSeparator(s[i])
    {
      SeparatorListed(s[i]);
    }
    forall d | d in s
      ensures d in ".-" + SPACES <==> IsSeparator(d)
    {
      SeparatorListed(d);
    }
  }

  lemma SeparatorListed(c: char)
    ensures c in ".-" + SPACES <==> IsSeparator(c)
  {
  }

  lemma OneField(s: string)
    requires forall i :: 0 <= i < |s| ==> !IsSeparator(s[i])
    ensures Parse(s) == if s == "" then [] else [s]
  {
    if s != "" {
      assert FieldLength(s) == |s| && s[..|s|] == s && s[|s|..] == "";
    }
  }

  /** Joining components and parsing them again gives them back. */
  lemma {:induction false} ParseInvertsJoin(version: Version)
    requires forall field <- version :: IsField(field)
    ensures Parse(Join(version)) == version
  {
    if version != [] {
      var field, rest := version[0], Join(version[1..]);
      var s := field + "." + rest;
      FieldThenSeparator(field, '.', rest);
      ParseInvertsJoin(version[1..]);
      assert s[..|field|] == field;
      assert s[|field|..] == "." + rest;
      assert ("." + rest)[1..] == rest;
    }
  }

  /** So a version and its components joined by dots are parsed alike, whatever separates them in it. */
  lemma ParseNormalizes(version: string)
    ensures Parse(Join(Parse(version))) == Parse(version)
  {
    ParseYieldsFields(version);
    ParseInvertsJoin(Parse(version));
  }

  // ---------------------------------------------------------------------------------------
  // IsGreater
  // ---------------------------------------------------------------------------------------

  /** Go's `<` on strings. */
  predicate Below(a: string, b: string) {
    b != "" && (a == "" || a[0] < b[0] || (a[0] == b[0] && Below(a[1..], b[1..])))
  }

  predicate IsDigit(c: char) { '0' <= c <= '9' }

  function Digit(c: char): nat
    requires IsDigit(c)
  {
    c as int - '0' as int
  }

  function Value(s: string): nat
    requires forall i :: 0 <= i < |s| ==> IsDigit(s[i])
  {
    if s == "" then 0 else 10 * Value(s[..|s| - 1]) + Digit(s[|s| - 1])
  }

  /** `strconv.ParseUint(s, 10, 64)` succeeds. */
  predicate IsNumber(s: string) {
    s != "" && (forall i :: 0 <= i < |s| ==> IsDigit(s[i])) && Value(s) < TWO_TO_THE_64
  }

  function Greater(a: Version, b: Version): bool {
    if a == [] || b == [] then |a| > |b|
    else if IsNumber(a[0]) && IsNumber(b[0]) then
      if Value(a[0]) != Value(b[0]) then Value(a[0]) > Value(b[0]) else Greater(a[1..], b[1..])
    else Below(a[0], b[0])
  }

  method IsGreater(a: Version, b: Version) returns (greater: bool)
    ensures greater <==> Greater(a, b)
  {
    var i := 0;
    while i < |a| && i < |b|
      invariant i <= |a| && i <= |b|
      invariant Greater(a[i..], b[i..]) <==> Greater(a, b)
    {
      if IsNumber(a[i]) && IsNumber(b[i]) {
        if Value(a[i]) != Value(b[i]) {
          return Value(a[i]) > Value(b[i]);
        }
      } else {
        return Below(a[i], b[i]);
      }
      assert a[i..][1..] == a[i + 1..] && b[i..][1..] == b[i + 1..];
      i := i + 1;
    }
    return |a| > |b|;
  }

  /** Before `i` the versions have numbers of equal value, spelled alike or not. */
  ghost predicate SameNumbers(a: Version, b: Version, i: nat) {
    && i <= |a| && i <= |b|
    && forall k :: 0 <= k < i ==> IsNumber(a[k]) && IsNumber(b[k]) && Value(a[k]) == Value(b[k])
  }

  /** `i` is the first place that tells them apart, and there `a` wins. */
  ghost predicate WinsAt(a: Version, b: Version, i: nat) {
    && SameNumbers(a, b, i)
    && if i < |a| && i < |b| then
         if IsNumber(a[i]) && IsNumber(b[i]) then Value(a[i]) > Value(b[i]) else StringBefore(a[i], b[i])
       else i < |a|
  }

  /** In the order of dictionaries: `a` ends first, or has the smaller character where they differ. */
  ghost predicate StringBefore(a: string, b: string) {
    exists i: nat :: SmallerAt(a, b, i)
  }

  ghost predicate SmallerAt(a: string, b: string, i: nat) {
    && i <= |a| && i < |b| && (forall k :: 0 <= k < i ==> a[k] == b[k])
    && (i < |a| ==> a[i] < b[i])
  }

  lemma {:induction false} BelowIsStringBefore(a: string, b: string)
    ensures Below(a, b) <==> StringBefore(a, b)
  {
    assert a == "" || b == "" || a[0] != b[0] ==> (Below(a, b) <==> SmallerAt(a, b, 0));
    if a != "" && b != "" && a[0] == b[0] {
      BelowIsStringBefore(a[1..], b[1..]);
      if StringBefore(a[1..], b[1..]) {
        var i: nat :| SmallerAt(a[1..], b[1..], i);
        assert SmallerAt(a, b, i + 1);
      }
      if StringBefore(a, b) {
        var i: nat :| SmallerAt(a, b, i);
        assert SmallerAt(a[1..], b[1..], i - 1);
      }
    }
  }

  /**
   * The first difference decides. The greater number is the greater version; where one of the two is
   * no number, the string that comes first is; after equal numbers, the version that goes on is.
   */
  lemma {:induction false} FirstDifferenceDecides(a: Version, b: Version)
    ensures Greater(a, b) <==> exists i: nat :: WinsAt(a, b, i)
  {
    if a != [] && b != [] && IsNumber(a[0]) && IsNumber(b[0]) && Value(a[0]) == Value(b[0]) {
      FirstDifferenceDecides(a[1..], b[1..]);
      hide IsNumber, Value, StringBefore;
      if i: nat :| WinsAt(a[1..], b[1..], i) {
        assert WinsAt(a, b, i + 1);
      }
      if i: nat :| WinsAt(a, b, i) {
        assert WinsAt(a[1..], b[1..], i - 1);
      }
    } else {
      if a != [] && b != [] { BelowIsStringBefore(a[0], b[0]); }
      hide StringBefore, Value, Below;
      assert Greater(a, b) <==> WinsAt(a, b, 0);
    }
  }

  /** So a longer version is greater than what it starts with, when that is made of numbers. */
  lemma LongerIsGreater(v: Version, w: Version)
    requires (forall c <- v :: IsNumber(c)) && w != []
    ensures Greater(v + w, v) && !Greater(v, v + w)
  {
    hide IsNumber, Value, StringBefore, Greater;
    FirstDifferenceDecides(v + w, v);
    FirstDifferenceDecides(v, v + w);
    assert WinsAt(v + w, v, |v|);
  }

  predicate HasPrefix(s: string, prefix: string) { prefix <= s }

  function IsAtLeastMajor(version: string, major: string): bool {
    if HasPrefix(version, "head") || HasPrefix(version, "latest") then true
    else !Greater(Parse(major), Parse(version))
  }

  /**
   * Head and latest tags reach every major version. Another version reaches the major version of one
   * number exactly if its first component does: as a number, or else as a string.
   */
  lemma MajorIsCompared(version: string, major: string)
    requires |Parse(major)| == 1 && IsNumber(Parse(major)[0])
    ensures "head" <= version || "latest" <= version ==> IsAtLeastMajor(version, major)
    ensures !("head" <= version) && !("latest" <= version) ==>
              (IsAtLeastMajor(version, major) <==>
                 var components, least := Parse(version), Parse(major)[0];
                 components != [] && if IsNumber(components[0]) then Value(components[0]) >= Value(least)
                                     else !StringBefore(least, components[0]))
  {
    hide IsNumber, Value, StringBefore, Greater, Parse;
    var a, b := Parse(major), Parse(version);
    FirstDifferenceDecides(a, b);
    if WinsAt(a, b, 0) {
      assert Greater(a, b);
    }
  }

  // ---------------------------------------------------------------------------------------
  // Strings and numbers
  // ---------------------------------------------------------------------------------------

  lemma {:induction false} BelowIrreflexive(a: string)
    ensures !Below(a, a)
  {
    if a != "" { BelowIrreflexive(a[1..]); }
  }

  lemma {:induction false} BelowTransitive(a: string, b: string, c: string)
    requires Below(a, b) && Below(b, c)
    ensures Below(a, c)
  {
    if a != "" && a[0] == b[0] == c[0] { BelowTransitive(a[1..], b[1..], c[1..]); }
  }

  lemma {:induction false} BelowTotal(a: string, b: string)
    ensures a == b || Below(a, b) || Below(b, a)
  {
    if a != "" && b != "" && a[0] == b[0] {
      BelowTotal(a[1..], b[1..]);
      assert a == [a[0]] + a[1..] && b == [b[0]] + b[1..];
    }
  }

  /** The greatest number as a string: nineteen nines. */
  const LAST_NUMBER := "9999999999999999999"

  lemma ValueSnoc(s: string, c: char)
    requires (forall i :: 0 <= i < |s| ==> IsDigit(s[i])) && IsDigit(c)
    ensures Value(s + [c]) == 10 * Value(s) + Digit(c)
  {
    assert (s + [c])[..|s + [c]| - 1] == s;
  }

  /** Numbers are decimal. */
  lemma {:induction false} ValueConcat(s: string, t: string)
    requires (forall i :: 0 <= i < |s| ==> IsDigit(s[i])) && forall i :: 0 <= i < |t| ==> IsDigit(t[i])
    ensures Value(s + t) == Value(s) * Pow10(|t|) + Value(t)
  {
    if t == "" {
      assert s + t == s;
    } else {
      var front, last := t[..|t| - 1], t[|t| - 1];
      assert s + t == (s + front) + [last] && t == front + [last];
      ValueConcat(s, front);
      ValueSnoc(s + front, last);
      ValueSnoc(front, last);
      TenTimes(Value(s), Pow10(|front|), Value(front));
    }
  }

  lemma TenTimes(x: nat, y: nat, z: nat)
    ensures 10 * (x * y + z) == x * (10 * y) + 10 * z
  {
  }

  lemma {:induction false} PrefixValue(s: string, n: nat)
    requires n <= |s| && forall i :: 0 <= i < |s| ==> IsDigit(s[i])
    ensures Value(s[..n]) <= Value(s)
  {
    if n < |s| {
      assert s[..|s| - 1][..n] == s[..n];
      PrefixValue(s[..|s| - 1], n);
    } else {
      assert s[..n] == s;
    }
  }

  /** As many nines as there are powers of ten. */
  lemma {:induction false} NinesValue(s: string)
    requires forall i :: 0 <= i < |s| ==> s[i] == '9'
    ensures Value(s) == Pow10(|s|) - 1
  {
    if s != "" { NinesValue(s[..|s| - 1]); }
  }

  function Pow10(n: nat): (p: nat)
    ensures p > 0
  {
    if n == 0 then 1 else 10 * Pow10(n - 1)
  }

  lemma LastNumberIsNumber()
    ensures IsNumber(LAST_NUMBER) && IsNumber("0")
    ensures Value(LAST_NUMBER) == 9_999_999_999_999_999_999 && Value("0") == 0
  {
    NinesValue(LAST_NUMBER);
    assert Pow10(5) == 100_000;
    assert Pow10(10) == 10_000_000_000;
    assert Pow10(15) == 1_000_000_000_000_000;
    assert Pow10(19) == 10_000_000_000_000_000_000;
    assert "0"[..0] == "";
  }

  /** Nineteen nines with more digits after them are past 64 bits. */
  lemma TwentyDigits(s: string)
    requires forall i :: 0 <= i < |s| ==> IsDigit(s[i])
    requires LAST_NUMBER <= s && |s| > |LAST_NUMBER|
    ensures Value(s) >= TWO_TO_THE_64
  {
    hide Value;
    var n := |LAST_NUMBER|;
    assert s[..n + 1] == LAST_NUMBER + [s[n]];
    LastNumberIsNumber();
    ValueSnoc(LAST_NUMBER, s[n]);
    PrefixValue(s, n + 1);
  }

  /** No number is above nineteen nines as a string: it would have to be twenty digits or more. */
  lemma NumberNotAboveLast(s: string)
    requires IsNumber(s)
    ensures !Below(LAST_NUMBER, s)
  {
    hide Value, Below;
    if Below(LAST_NUMBER, s) {
      BelowDigits(LAST_NUMBER, s);
      TwentyDigits(s);
    }
  }

  /** All nines are below a string of digits only if they are a proper prefix of it. */
  lemma {:induction false} BelowDigits(nines: string, s: string)
    requires forall i :: 0 <= i < |nines| ==> nines[i] == '9'
    requires forall i :: 0 <= i < |s| ==> IsDigit(s[i])
    requires Below(nines, s)
    ensures |nines| < |s| && nines <= s
  {
    if nines != "" {
      BelowDigits(nines[1..], s[1..]);
      assert nines == [nines[0]] + nines[1..] && s == [s[0]] + s[1..];
    }
  }

  lemma NumberNotBelowZero(s: string)
    requires IsNumber(s)
    ensures !Below(s, "0")
  {
    assert "0"[1..] == "";
  }

  // ---------------------------------------------------------------------------------------
  // When the comparator is an order
  // ---------------------------------------------------------------------------------------

  /** A component that is a number, or is not among the numbers when compared as a string. */
  predicate Clean(c: string) {
    IsNumber(c) || !(Below("0", c) && Below(c, LAST_NUMBER))
  }

  predicate AllClean(v: Version) {
    forall c <- v :: Clean(c)
  }

  ghost predicate Over(alphabet: iset<string>, v: Version) {
    forall c <- v :: c in alphabet
  }

  predicate Incomparable(a: Version, b: Version) { !Greater(a, b) && !Greater(b, a) }

  /** What `sort.Slice` needs of its comparator, on versions made of the given components. */
  ghost predicate StrictWeakOrder(alphabet: iset<string>) {
    && (forall a :: Over(alphabet, a) ==> !Greater(a, a))
    && (forall a, b, c | Over(alphabet, a) && Over(alphabet, b) && Over(alphabet, c) ::
          Greater(a, b) && Greater(b, c) ==> Greater(a, c))
    && (forall a, b, c | Over(alphabet, a) && Over(alphabet, b) && Over(alphabet, c) ::
          Incomparable(a, b) && Incomparable(b, c) ==> Incomparable(a, c))
  }

  /** A clean component that is no number is on the same side of all numbers. */
  lemma CleanSides(word: string, number: string)
    requires Clean(word) && !IsNumber(word) && IsNumber(number)
    ensures Below(word, number) <==> Below(word, "0")
    ensures Below(number, word) <==> !Below(word, "0")
  {
    LastNumberIsNumber();
    NumberNotAboveLast(number);
    NumberNotBelowZero(number);
    BelowTotal(word, "0");
    BelowTotal(word, LAST_NUMBER);
    BelowTotal(number, "0");
    BelowTotal(number, LAST_NUMBER);
    BelowTotal(word, number);
    if Below(word, "0") {
      if Below("0", number) { BelowTransitive(word, "0", number); }
      if Below(number, word) { BelowTransitive(number, word, number); BelowIrreflexive(number); }
    } else {
      if Below(number, LAST_NUMBER) { BelowTransitive(number, LAST_NUMBER, word); }
      if Below(word, number) { BelowTransitive(number, word, number); BelowIrreflexive(number); }
    }
  }

  /** The comparison of two components that decides between two versions. */
  predicate Beats(x: string, y: string) {
    if IsNumber(x) && IsNumber(y) then Value(x) > Value(y) else Below(x, y)
  }

  lemma BeatsAsymmetric(x: string, y: string)
    requires Beats(x, y)
    ensures !Beats(y, x)
  {
    if Below(x, y) && Below(y, x) {
      BelowTransitive(x, y, x);
      BelowIrreflexive(x);
    }
  }

  lemma WordsNegativelyTransitive(x: string, y: string, z: string)
    requires Below(x, z)
    ensures Below(x, y) || Below(y, z)
  {
    BelowTotal(x, y);
    if Below(y, x) { BelowTransitive(y, x, z); }
  }

  lemma BeatsNegativelyTransitive(x: string, y: string, z: string)
    requires Clean(x) && Clean(y) && Clean(z) && Beats(x, z)
    ensures Beats(x, y) || Beats(y, z)
  {
    hide IsNumber, Value, Clean;
    if !IsNumber(x) && IsNumber(y) { CleanSides(x, y); }
    if !IsNumber(x) && IsNumber(z) { CleanSides(x, z); }
    if !IsNumber(y) && IsNumber(x) { CleanSides(y, x); }
    if !IsNumber(y) && IsNumber(z) { CleanSides(y, z); }
    if !IsNumber(z) && IsNumber(x) { CleanSides(z, x); }
    if !IsNumber(z) && IsNumber(y) { CleanSides(z, y); }
    if Below(x, z) { WordsNegativelyTransitive(x, y, z); }
  }

  lemma {:induction false} GreaterAsymmetric(a: Version, b: Version)
    requires Greater(a, b)
    ensures !Greater(b, a)
  {
    if a != [] && b != [] {
      if IsNumber(a[0]) && IsNumber(b[0]) {
        if Value(a[0]) == Value(b[0]) { GreaterAsymmetric(a[1..], b[1..]); }
      } else {
        BeatsAsymmetric(a[0], b[0]);
      }
    }
  }

  /** On clean versions, whatever lies between is comparable to one of the two. */
  lemma {:induction false} GreaterNegativelyTransitive(a: Version, b: Version, c: Version)
    requires AllClean(a) && AllClean(b) && AllClean(c) && Greater(a, c)
    ensures Greater(a, b) || Greater(b, c)
  {
    if a != [] && b != [] && c != [] {
      var x, y, z := a[0], b[0], c[0];
      assert x in a && y in b && z in c;
      hide IsNumber, Value, Clean, Below;
      if Beats(x, z) {
        BeatsNegativelyTransitive(x, y, z);
      } else {
        assert IsNumber(x) && IsNumber(z) && Value(x) == Value(z);
        if IsNumber(y) {
          if Value(y) == Value(x) { GreaterNegativelyTransitive(a[1..], b[1..], c[1..]); }
        } else {
          CleanSides(y, x);
          CleanSides(y, z);
        }
      }
    }
  }

  /** On clean versions the comparator is a strict weak order. */
  lemma CleanIsOrdered(a: Version, b: Version, c: Version)
    requires AllClean(a) && AllClean(b) && AllClean(c)
    ensures !Greater(a, a)
    ensures Greater(a, b) && Greater(b, c) ==> Greater(a, c)
    ensures !Greater(a, b) && !Greater(b, a) && !Greater(b, c) && !Greater(c, b) ==> !Greater(a, c) && !Greater(c, a)
  {
    hide Greater, AllClean;
    if Greater(a, a) { GreaterAsymmetric(a, a); }
    if Greater(a, b) && Greater(b, c) {
      GreaterNegativelyTransitive(a, c, b);
      GreaterAsymmetric(b, c);
    }
    if Greater(a, c) { GreaterNegativelyTransitive(a, b, c); }
    if Greater(c, a) { GreaterNegativelyTransitive(c, b, a); }
  }

  /** A component that is no number but lies among the numbers closes a cycle, like 9 > 1 > 5a > 9. */
  lemma UncleanCycle(c: string)
    requires !Clean(c)
    ensures Greater([LAST_NUMBER], ["0"]) && Greater(["0"], [c]) && Greater([c], [LAST_NUMBER])
    ensures !Greater([LAST_NUMBER], [c])
  {
    LastNumberIsNumber();
    GreaterAsymmetric([c], [LAST_NUMBER]);
  }

  /**
   * Over any set of components that has all the numbers, `IsGreater` can be used as a comparator
   * in a sort function if and only if every component is clean.
   */
  lemma OrderIffClean(alphabet: iset<string>)
    requires forall s :: IsNumber(s) ==> s in alphabet
    ensures StrictWeakOrder(alphabet) <==> forall c :: c in alphabet ==> Clean(c)
  {
    if forall c :: c in alphabet ==> Clean(c) {
      forall a, b, c | Over(alphabet, a) && Over(alphabet, b) && Over(alphabet, c)
        ensures !Greater(a, a)
        ensures Greater(a, b) && Greater(b, c) ==> Greater(a, c)
        ensures Incomparable(a, b) && Incomparable(b, c) ==> Incomparable(a, c)
      {
        CleanIsOrdered(a, b, c);
      }
    }
    if StrictWeakOrder(alphabet) {
      forall c | c in alphabet
        ensures Clean(c)
      {
        if !Clean(c) {
          UncleanCycle(c);
          LastNumberIsNumber();
          assert Over(alphabet, [LAST_NUMBER]) && Over(alphabet, ["0"]) && Over(alphabet, [c]);
        }
      }
    }
  }

  /**
   * A version not older than one that reaches a major version reaches it too; head and latest tags
   * reach all.
   */
  predicate IsMonotoneAt(version: string, newer: string, major: string) {
    && !HasPrefix(version, "head") && !HasPrefix(version, "latest")
    && IsAtLeastMajor(version, major) && !Greater(Parse(version), Parse(newer))
    ==> IsAtLeastMajor(newer, major)
  }

  lemma AtLeastMajorIsMonotone(version: string, newer: string, major: string)
    requires AllClean(Parse(version)) && AllClean(Parse(newer)) && AllClean(Parse(major))
    ensures IsMonotoneAt(version, newer, major)
  {
    if Greater(Parse(major), Parse(newer)) && !Greater(Parse(major), Parse(version)) {
      GreaterNegativelyTransitive(Parse(major), Parse(version), Parse(newer));
    }
  }

  lemma NumberIsField(s: string)
    requires IsNumber(s)
    ensures IsField(s) && IsDigit(s[0])
    ensures (forall i :: 0 <= i < |s| ==> '0' <= s[i] <= '9') && Value(s) <= 18_446_744_073_709_551_615
  {
  }

  lemma DigitsAreNumber(s: string)
    requires s != "" && (forall i :: 0 <= i < |s| ==> '0' <= s[i] <= '9') && Value(s) <= 18_446_744_073_709_551_615
    ensures IsNumber(s)
  {
  }

  lemma UncleanStartsWithDigit(c: string)
    requires !Clean(c)
    ensures c != "" && IsDigit(c[0])
  {
    assert Below("0", c) && Below(c, LAST_NUMBER);
    assert "0"[0] == '0' && LAST_NUMBER[0] == '9';
  }

  lemma DigitsAreNoHead(s: string)
    requires s != "" && IsDigit(s[0])
    ensures !HasPrefix(s, "head") && !HasPrefix(s, "latest")
  {
    assert "head"[0] == 'h' && "latest"[0] == 'l';
  }

  /** The version with one component. */
  lemma OneComponent(c: string) returns (version: string)
    requires IsField(c) && IsDigit(c[0])
    ensures Parse(version) == [c] && !HasPrefix(version, "head") && !HasPrefix(version, "latest")
  {
    version := Join([c]);
    assert [c][1..] == [] && version == c + "." + Join([]);
    assert forall field <- [c] :: IsField(field);
    ParseInvertsJoin([c]);
    assert version[0] == c[0];
    DigitsAreNoHead(version);
  }

  /** An unclean component reaches a number that another, not older by the comparator, does not reach. */
  lemma UncleanIsNotMonotone(c: string) returns (version: string, newer: string, major: string)
    requires !Clean(c) && IsField(c)
    ensures Parse(version) == [c] && Parse(newer) == ["0"] && Parse(major) == [LAST_NUMBER]
    ensures !IsMonotoneAt(version, newer, major)
  {
    LastNumberIsNumber();
    NumberIsField(LAST_NUMBER);
    NumberIsField("0");
    UncleanStartsWithDigit(c);
    UncleanCycle(c);
    GreaterAsymmetric(["0"], [c]);
    hide IsNumber, Clean, Greater, IsField, Parse, HasPrefix, Below;
    version := OneComponent(c);
    newer := OneComponent("0");
    major := OneComponent(LAST_NUMBER);
  }

  /** So this, too, holds of all versions made of given components if and only if these are clean. */
  lemma MonotoneIffClean(alphabet: iset<string>)
    requires forall s :: IsNumber(s) ==> s in alphabet
    requires forall c :: c in alphabet ==> IsField(c)
    ensures (forall version, newer, major |
               Over(alphabet, Parse(version)) && Over(alphabet, Parse(newer)) && Over(alphabet, Parse(major)) ::
               IsMonotoneAt(version, newer, major))
            <==> forall c :: c in alphabet ==> Clean(c)
  {
    hide Clean, IsField, Parse, IsMonotoneAt;
    if forall c :: c in alphabet ==> Clean(c) {
      forall version, newer, major |
          Over(alphabet, Parse(version)) && Over(alphabet, Parse(newer)) && Over(alphabet, Parse(major))
        ensures IsMonotoneAt(version, newer, major)
      {
        AtLeastMajorIsMonotone(version, newer, major);
      }
    } else {
      var c :| c in alphabet && !Clean(c);
      var version, newer, major := UncleanIsNotMonotone(c);
      LastNumberIsNumber();
      assert Over(alphabet, Parse(version)) && Over(alphabet, Parse(newer)) && Over(alphabet, Parse(major));
    }
  }
}
