/**
 * The log tail of an image build, internal/qrunner/dockerengine/build_manager.go: lines arrive in
 * chunks, a progress-bar line overwrites a progress-bar line before it, and only the last lines
 * are kept. Splitting the stream of the build into cleaned lines is not part of this model.
 */
module BuildLog {
  import opened Strings

  const MAX_LOG_LINES: nat := 200

  predicate IsProgressLine(line: string) {
    Contains(line, "%[") || Contains(line, "MB/s") || Contains(line, "KB/s")
  }

  /** Progress bars of wget: a percentage before the bar, or a speed. */
  lemma ProgressLinesShowProgress(line: string)
    ensures IsProgressLine(line) <==>
              exists left, mark, right :: mark in ["%[", "MB/s", "KB/s"] && line == left + mark + right
  {
    ContainsParts(line, "%[");
    ContainsParts(line, "MB/s");
    ContainsParts(line, "KB/s");
    hide Contains;
    if IsProgressLine(line) {
      var mark := if Contains(line, "%[") then "%[" else if Contains(line, "MB/s") then "MB/s" else "KB/s";
      assert mark in ["%[", "MB/s", "KB/s"];
    }
  }

  // ---------------------------------------------------------------------------------------
  // What the record does, line by line and chunk by chunk
  // ---------------------------------------------------------------------------------------

  function AppendLine(log: seq<string>, line: string): seq<string> {
    if IsProgressLine(line) && |log| > 0 && IsProgressLine(log[|log| - 1]) then log[|log| - 1 := line]
    else log + [line]
  }

  function AppendLines(log: seq<string>, lines: seq<string>): seq<string>
    decreases |lines|
  {
    if lines == [] then log else AppendLines(AppendLine(log, lines[0]), lines[1..])
  }

  function Tail(log: seq<string>): seq<string> {
    if |log| > MAX_LOG_LINES then log[|log| - MAX_LOG_LINES..] else log
  }

  /** `appendLogs`. */
  function AppendLogs(log: seq<string>, lines: seq<string>): seq<string> {
    Tail(AppendLines(log, lines))
  }

  /** The log after the chunks of a build have come in one by one. */
  function Streamed(chunks: seq<seq<string>>): seq<string> {
    if chunks == [] then []
    else AppendLogs(Streamed(chunks[..|chunks| - 1]), chunks[|chunks| - 1])
  }

  // ---------------------------------------------------------------------------------------
  // What it means: the tail of the whole stream, each run of progress lines cut to its last
  // ---------------------------------------------------------------------------------------

  /** A line is overwritten if it and the line after it are both progress lines. */
  predicate Overwritten(stream: seq<string>, i: nat)
    requires i < |stream|
  {
    IsProgressLine(stream[i]) && i + 1 < |stream| && IsProgressLine(stream[i + 1])
  }

  /** The lines of the stream that are not overwritten, in order. */
  function Collapsed(stream: seq<string>): seq<string> {
    if stream == [] then []
    else if Overwritten(stream, 0) then Collapsed(stream[1..])
    else [stream[0]] + Collapsed(stream[1..])
  }

  function Flatten(chunks: seq<seq<string>>): seq<string> {
    if chunks == [] then []
    else Flatten(chunks[..|chunks| - 1]) + chunks[|chunks| - 1]
  }

  lemma {:induction false} FlattenConcat(a: seq<seq<string>>, b: seq<seq<string>>)
    ensures Flatten(a + b) == Flatten(a) + Flatten(b)
    ensures forall chunk: seq<string> :: Flatten([chunk]) == chunk
    decreases |b|
  {
    forall chunk: seq<string>
      ensures Flatten([chunk]) == chunk
    {
      assert [chunk][..0] == [];
    }
    if b == [] {
      assert a + b == a;
    } else {
      var front := b[..|b| - 1];
      assert (a + b)[..|a + b| - 1] == a + front;
      FlattenConcat(a, front);
    }
  }

  /** The places, in increasing order, of the lines that are not overwritten. */
  ghost predicate ArePlaces(ks: seq<nat>, stream: seq<string>, from: nat) {
    && (forall i, j :: 0 <= i < j < |ks| ==> ks[i] < ks[j])
    && (forall k: nat :: k in ks <==> from <= k < |stream| && !Overwritten(stream, k))
  }

  ghost predicate AreLines(log: seq<string>, ks: seq<nat>, stream: seq<string>) {
    |ks| == |log| && forall i :: 0 <= i < |ks| ==> ks[i] < |stream| && log[i] == stream[ks[i]]
  }

  lemma PlacesCons(ks: seq<nat>, stream: seq<string>, from: nat)
    requires from < |stream| && ArePlaces(ks, stream, from + 1)
    ensures ArePlaces(if Overwritten(stream, from) then ks else [from] + ks, stream, from)
  {
    hide IsProgressLine;
    assert forall i :: 0 <= i < |ks| ==> ks[i] in ks;
  }

  lemma {:induction false} CollapsedPlaces(stream: seq<string>, from: nat) returns (ks: seq<nat>)
    requires from <= |stream|
    ensures ArePlaces(ks, stream, from) && AreLines(Collapsed(stream[from..]), ks, stream)
    decreases |stream| - from
  {
    hide IsProgressLine;
    if from == |stream| {
      ks := [];
    } else {
      var later := CollapsedPlaces(stream, from + 1);
      PlacesCons(later, stream, from);
      hide ArePlaces;
      assert stream[from..][1..] == stream[from + 1..];
      ks := if Overwritten(stream, from) then later else [from] + later;
    }
  }

  lemma LastPlaces(all: seq<nat>, stream: seq<string>, n: nat)
    requires ArePlaces(all, stream, 0) && n <= |all|
    ensures var ks := all[n..];
            && (forall i, j :: 0 <= i < j < |ks| ==> ks[i] < ks[j])
            && forall k: nat | k < |stream| && (n > 0 ==> ks != [] && k >= ks[0]) ::
                 k in ks <==> !Overwritten(stream, k)
  {
    hide IsProgressLine;
    var ks := all[n..];
    assert all == all[..n] + ks;
    assert ks != [] ==> ks[0] == all[n] && forall k :: k in all[..n] ==> k < ks[0];
  }

  /**
   * Line by line: the log has the lines of the stream, in order, that are not progress lines right
   * before progress lines; all of them, or else the last 200.
   */
  lemma LogLinesAreKept(chunks: seq<seq<string>>) returns (ks: seq<nat>)
    ensures var stream, log := Flatten(chunks), Streamed(chunks);
            && |ks| == |log| <= 200 && (forall i, j :: 0 <= i < j < |ks| ==> ks[i] < ks[j])
            && (forall i :: 0 <= i < |ks| ==> ks[i] < |stream| && log[i] == stream[ks[i]])
            && forall k: nat | k < |stream| && (|ks| == 200 ==> k >= ks[0]) ::
                 k in ks <==> !(IsProgressLine(stream[k]) && k + 1 < |stream| && IsProgressLine(stream[k + 1]))
  {
    hide IsProgressLine;
    StreamingEqualsBatch(chunks);
    var stream, log := Flatten(chunks), Streamed(chunks);
    assert stream[0..] == stream;
    var all := CollapsedPlaces(stream, 0);
    hide Streamed, Flatten, Collapsed;
    var n := |all| - |log|;
    ks := all[n..];
    LastPlaces(all, stream, n);
  }

  /** The last line of the stream is never overwritten. */
  lemma {:induction false} CollapsedLast(stream: seq<string>)
    requires stream != []
    ensures Collapsed(stream) != []
    ensures Collapsed(stream)[|Collapsed(stream)| - 1] == stream[|stream| - 1]
  {
    hide IsProgressLine;
    if |stream| > 1 {
      CollapsedLast(stream[1..]);
    }
  }

  lemma {:induction false} CollapsedSnoc(stream: seq<string>, line: string)
    ensures Collapsed(stream + [line]) == AppendLine(Collapsed(stream), line)
    decreases |stream|
  {
    hide IsProgressLine;
    if stream == [] {
      assert ([] + [line])[1..] == [];
    } else {
      assert (stream + [line])[1..] == stream[1..] + [line];
      CollapsedSnoc(stream[1..], line);
      if |stream| > 1 {
        CollapsedLast(stream[1..]);
      } else {
        assert Collapsed(stream[1..]) == [];
      }
    }
  }

  lemma {:induction false} CollapsedAppend(stream: seq<string>, lines: seq<string>)
    ensures Collapsed(stream + lines) == AppendLines(Collapsed(stream), lines)
    decreases |lines|
  {
    if lines == [] {
      assert stream + [] == stream;
    } else {
      CollapsedSnoc(stream, lines[0]);
      assert (stream + [lines[0]]) + lines[1..] == stream + lines;
      CollapsedAppend(stream + [lines[0]], lines[1..]);
    }
  }

  /** Lines cut off the front of a non-empty log make no difference to what is appended. */
  lemma {:induction false} CutOffFront(front: seq<string>, log: seq<string>, lines: seq<string>)
    requires log != []
    ensures AppendLines(front + log, lines) == front + AppendLines(log, lines)
    ensures |AppendLines(log, lines)| >= |log|
    decreases |lines|
  {
    hide IsProgressLine;
    if lines != [] {
      assert AppendLine(front + log, lines[0]) == front + AppendLine(log, lines[0]);
      CutOffFront(front, AppendLine(log, lines[0]), lines[1..]);
    }
  }

  /** Trimming after every chunk comes to the same as trimming once. */
  lemma TrimOnce(log: seq<string>, lines: seq<string>)
    ensures AppendLogs(Tail(log), lines) == Tail(AppendLines(log, lines))
  {
    if |log| > MAX_LOG_LINES {
      var front, kept := log[..|log| - MAX_LOG_LINES], log[|log| - MAX_LOG_LINES..];
      assert log == front + kept;
      CutOffFront(front, kept, lines);
    }
  }

  /**
   * However a build's lines are split into chunks, the log is the last 200 lines of the whole
   * stream with each run of progress lines replaced by its last line.
   */
  lemma {:induction false} StreamingEqualsBatch(chunks: seq<seq<string>>)
    ensures Streamed(chunks) == Tail(Collapsed(Flatten(chunks)))
    decreases |chunks|
  {
    if chunks != [] {
      var before, last := chunks[..|chunks| - 1], chunks[|chunks| - 1];
      StreamingEqualsBatch(before);
      TrimOnce(Collapsed(Flatten(before)), last);
      CollapsedAppend(Flatten(before), last);
    }
  }

  /** No two adjacent lines of the log are progress lines. */
  lemma NoAdjacentProgressLines(chunks: seq<seq<string>>, i: nat)
    requires i + 1 < |Streamed(chunks)|
    ensures !(IsProgressLine(Streamed(chunks)[i]) && IsProgressLine(Streamed(chunks)[i + 1]))
  {
    StreamingEqualsBatch(chunks);
    var whole := Collapsed(Flatten(chunks));
    CollapsedNoAdjacent(Flatten(chunks), |whole| - |Streamed(chunks)| + i);
  }

  lemma {:induction false} CollapsedNoAdjacent(stream: seq<string>, i: nat)
    requires i + 1 < |Collapsed(stream)|
    ensures !(IsProgressLine(Collapsed(stream)[i]) && IsProgressLine(Collapsed(stream)[i + 1]))
    decreases |stream|
  {
    hide IsProgressLine;
    if Overwritten(stream, 0) {
      CollapsedNoAdjacent(stream[1..], i);
    } else if i > 0 {
      CollapsedNoAdjacent(stream[1..], i - 1);
    } else {
      CollapsedFirst(stream[1..]);
    }
  }

  /** The first line kept is a progress line only if the first line is. */
  lemma {:induction false} CollapsedFirst(stream: seq<string>)
    requires stream != []
    ensures Collapsed(stream) != []
    ensures IsProgressLine(Collapsed(stream)[0]) <==> IsProgressLine(stream[0])
  {
    hide IsProgressLine;
    if Overwritten(stream, 0) {
      CollapsedFirst(stream[1..]);
    }
  }
}
