/** What the program uses of Go's package strings. */
module Strings {
  /** `strings.Split` at a separator of one character. */
  function Split(s: string, separator: char): (parts: seq<string>)
    ensures |parts| > 0
  {
    if s == "" then [""]
    else
      var rest := Split(s[1..], separator);
      if s[0] == separator then [""] + rest else [[s[0]] + rest[0]] + rest[1..]
  }

  function Joined(parts: seq<string>, separator: char): string {
    if parts == [] then ""
    else if |parts| == 1 then parts[0]
    else parts[0] + [separator] + Joined(parts[1..], separator)
  }

  /** The parts hold no separator, and put together again they are the text. */
  lemma {:induction false} SplitThenJoin(s: string, separator: char)
    ensures Joined(Split(s, separator), separator) == s
    ensures forall part <- Split(s, separator) :: separator !in part
  {
    if s != "" {
      SplitThenJoin(s[1..], separator);
      var rest, parts := Split(s[1..], separator), Split(s, separator);
      assert s == [s[0]] + s[1..];
      if s[0] == separator {
        assert parts[1..] == rest;
      } else {
        assert parts[1..] == rest[1..];
        var joined := if |rest| == 1 then "" else [separator] + Joined(rest[1..], separator);
        assert [s[0]] + (rest[0] + joined) == parts[0] + joined;
      }
    }
  }

  lemma {:induction false} SplitOnePart(part: string, separator: char)
    requires separator !in part
    ensures Split(part, separator) == [part]
  {
    if part != "" {
      assert part[0] in part && forall c <- part[1..] :: c in part;
      SplitOnePart(part[1..], separator);
      assert part == [part[0]] + part[1..];
    }
  }

  lemma {:induction false} SplitFirstPart(part: string, separator: char, rest: string)
    requires separator !in part
    ensures Split(part + [separator] + rest, separator) == [part] + Split(rest, separator)
  {
    var s := part + [separator] + rest;
    if part == "" {
      assert s[1..] == rest;
    } else {
      assert part[0] in part && forall c <- part[1..] :: c in part;
      assert s[1..] == part[1..] + [separator] + rest;
      SplitFirstPart(part[1..], separator, rest);
      assert part == [part[0]] + part[1..] && s[0] == part[0];
      assert ([part[1..]] + Split(rest, separator))[1..] == Split(rest, separator);
    }
  }

  /** The other way round: parts that hold no separator are what their join is split into. */
  lemma {:induction false} JoinThenSplit(parts: seq<string>, separator: char)
    requires parts != [] && forall part <- parts :: separator !in part
    ensures Split(Joined(parts, separator), separator) == parts
  {
    assert parts[0] in parts;
    if |parts| == 1 {
      SplitOnePart(parts[0], separator);
    } else {
      var rest := Joined(parts[1..], separator);
      assert Joined(parts, separator) == parts[0] + [separator] + rest;
      SplitFirstPart(parts[0], separator, rest);
      JoinThenSplit(parts[1..], separator);
    }
  }

  /** `strings.Contains`. */
  predicate Contains(s: string, part: string) {
    exists i :: 0 <= i <= |s| && part <= s[i..]
  }

  lemma ContainsParts(s: string, part: string)
    ensures Contains(s, part) <==> exists left, right :: s == left + part + right
  {
    if Contains(s, part) {
      var i :| 0 <= i <= |s| && part <= s[i..];
      assert s == s[..i] + part + s[i + |part|..];
    }
    if left, right :| s == left + part + right {
      assert s[|left|..] == part + right;
    }
  }
}
