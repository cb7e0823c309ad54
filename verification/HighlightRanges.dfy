/**
 * ui/src/components/EditorPanel.tsx: the ranges of the output marked for hovered and pinned bytes,
 * brought into the form the editor wants: in document order and apart from each other.
 */
module HighlightRanges {
  import opened Options
  import opened Sorting
  import opened HexViewer
  import opened Utf

  /** A range has the positions from `from` up to, not including, `to`. */
  predicate Covers(range: OutputRange, position: int) {
    range.from <= position < range.to
  }

  predicate Covered(ranges: seq<OutputRange>, position: int) {
    exists i :: 0 <= i < |ranges| && Covers(ranges[i], position)
  }

  ghost predicate CoverSame(a: seq<OutputRange>, b: seq<OutputRange>) {
    forall position :: Covered(a, position) <==> Covered(b, position)
  }

  /** In order, with a gap between any two. */
  predicate Separated(ranges: seq<OutputRange>) {
    forall i, j :: 0 <= i < j < |ranges| ==> ranges[i].to < ranges[j].from
  }

  predicate NoneEmpty(ranges: seq<OutputRange>) {
    forall i :: 0 <= i < |ranges| ==> ranges[i].from < ranges[i].to
  }

  /** The comparator `left.from - right.from || left.to - right.to` is negative. */
  predicate Less(left: OutputRange, right: OutputRange) {
    left.from < right.from || (left.from == right.from && left.to < right.to)
  }

  // ---------------------------------------------------------------------------------------
  // The three passes
  // ---------------------------------------------------------------------------------------

  /** The filter: a range stays where it occurs first. */
  method Dedupe(ranges: seq<OutputRange>) returns (kept: seq<OutputRange>)
    ensures NoDuplicates(kept)
    ensures forall range :: range in kept <==> range in ranges
  {
    kept := [];
    for index := 0 to |ranges|
      invariant NoDuplicates(kept)
      invariant forall range :: range in kept <==> range in ranges[..index]
    {
      var found := 0;
      while ranges[found] != ranges[index]
        invariant 0 <= found <= index && ranges[index] !in ranges[..found]
        decreases index - found
      {
        found := found + 1;
      }
      assert found == index <==> ranges[index] !in ranges[..index];
      if found == index {
        kept := kept + [ranges[index]];
      }
    }
    assert ranges[..|ranges|] == ranges;
  }

  /** `last` and a range that starts in it or right after it, put together. */
  lemma GrownCovers(last: OutputRange, range: OutputRange, grown: OutputRange, position: int)
    requires last.from <= range.from <= last.to
    requires grown == OutputRange(last.from, if last.to >= range.to then last.to else range.to)
    ensures Covers(grown, position) <==> Covers(last, position) || Covers(range, position)
  {
  }

  lemma CoveredSnoc(ranges: seq<OutputRange>, range: OutputRange, position: int)
    ensures Covered(ranges + [range], position) <==> Covered(ranges, position) || Covers(range, position)
  {
    var longer := ranges + [range];
    assert Covers(range, position) ==> Covers(longer[|ranges|], position);
    assert forall i :: 0 <= i < |ranges| ==> longer[i] == ranges[i];
  }

  /** Both branches of the merge cover what was covered, and the range. */
  lemma MergeStep(merged: seq<OutputRange>, range: OutputRange, next: seq<OutputRange>, before: seq<OutputRange>)
    requires CoverSame(merged, before)
    requires if merged != [] && range.from <= merged[|merged| - 1].to
             then merged[|merged| - 1].from <= range.from
                  && next == merged[..|merged| - 1]
                             + [OutputRange(merged[|merged| - 1].from,
                                            if merged[|merged| - 1].to >= range.to then merged[|merged| - 1].to
                                            else range.to)]
             else next == merged + [range]
    ensures CoverSame(next, before + [range])
  {
    hide Covered, Covers;
    forall position
      ensures Covered(next, position) <==> Covered(before + [range], position)
    {
      CoveredSnoc(before, range, position);
      if merged != [] && range.from <= merged[|merged| - 1].to {
        var front, last := merged[..|merged| - 1], merged[|merged| - 1];
        assert merged == front + [last];
        CoveredSnoc(front, last, position);
        CoveredSnoc(front, next[|front|], position);
        GrownCovers(last, range, next[|front|], position);
      } else {
        CoveredSnoc(merged, range, position);
      }
    }
  }

  /** The merge of sorted ranges; the last range merged so far grows in place. */
  method MergeSorted(sortedRanges: seq<OutputRange>) returns (mergedRanges: seq<OutputRange>)
    requires InOrder(Less, sortedRanges)
    ensures Separated(mergedRanges) && CoverSame(mergedRanges, sortedRanges)
    ensures NoneEmpty(sortedRanges) ==> NoneEmpty(mergedRanges)
  {
    hide Covered;
    mergedRanges := [];
    for i := 0 to |sortedRanges|
      invariant Separated(mergedRanges)
      invariant CoverSame(mergedRanges, sortedRanges[..i])
      invariant NoneEmpty(sortedRanges) ==> NoneEmpty(mergedRanges)
      invariant mergedRanges != [] ==> i > 0 && mergedRanges[|mergedRanges| - 1].from <= sortedRanges[i - 1].from
    {
      var range := sortedRanges[i];
      ghost var merged := mergedRanges;
      if mergedRanges != [] && range.from <= mergedRanges[|mergedRanges| - 1].to {
        var previous := mergedRanges[|mergedRanges| - 1];
        mergedRanges := mergedRanges[|mergedRanges| - 1 := previous.(to := if previous.to >= range.to then previous.to
                                                                           else range.to)];
        assert mergedRanges == merged[..|merged| - 1] + [mergedRanges[|merged| - 1]];
      } else {
        mergedRanges := mergedRanges + [range];
      }
      MergeStep(merged, range, mergedRanges, sortedRanges[..i]);
      assert sortedRanges[..i] + [range] == sortedRanges[..i + 1];
    }
    assert sortedRanges[..|sortedRanges|] == sortedRanges;
  }

  lemma SameElementsCoverSame(a: seq<OutputRange>, b: seq<OutputRange>)
    requires forall range :: range in a <==> range in b
    ensures CoverSame(a, b)
  {
    forall position
      ensures Covered(a, position) <==> Covered(b, position)
    {
      assert forall i :: 0 <= i < |a| ==> a[i] in b;
      assert forall i :: 0 <= i < |b| ==> b[i] in a;
    }
  }

  /** What `OutputHighlight` promises of the ranges it marks. */
  ghost predicate IsHighlightOf(mergedRanges: seq<OutputRange>, ranges: seq<OutputRange>) {
    && Separated(mergedRanges) && CoverSame(mergedRanges, ranges)
    && (NoneEmpty(ranges) ==> NoneEmpty(mergedRanges))
  }

  /**
   * What is marked: exactly the positions of the ranges given, in ranges that are apart. For
   * ranges that are not empty `SeparatedIsUnique` makes this the whole specification.
   */
  method OutputHighlight(ranges: seq<OutputRange>) returns (mergedRanges: seq<OutputRange>)
    ensures IsHighlightOf(mergedRanges, ranges)
    ensures forall i, j :: 0 <= i < j < |mergedRanges| ==> mergedRanges[i].to < mergedRanges[j].from
  {
    var kept := Dedupe(ranges);
    var sortedRanges := Sort(kept, Less);
    RearrangedHasSame(kept, sortedRanges);
    SameElementsCoverSame(sortedRanges, ranges);
    if NoneEmpty(ranges) {
      assert forall i :: 0 <= i < |sortedRanges| ==> sortedRanges[i] in ranges;
    }
    mergedRanges := MergeSorted(sortedRanges);
  }

  /** A position is in a range that is marked exactly if it is in one that was given. */
  lemma MarkedIffGiven(mergedRanges: seq<OutputRange>, ranges: seq<OutputRange>, position: nat)
    requires IsHighlightOf(mergedRanges, ranges)
    ensures (exists range <- mergedRanges :: range.from <= position < range.to)
            <==> (exists range <- ranges :: range.from <= position < range.to)
  {
    assert Covered(mergedRanges, position) <==> Covered(ranges, position);
    assert Covered(ranges, position) <==> exists range <- ranges :: Covers(range, position);
    assert Covered(mergedRanges, position) <==> exists range <- mergedRanges :: Covers(range, position);
  }

  // ---------------------------------------------------------------------------------------
  // Uniqueness
  // ---------------------------------------------------------------------------------------

  lemma StartsAtLeastCovered(a: seq<OutputRange>, position: int)
    requires a != [] && Separated(a) && NoneEmpty(a)
    ensures Covered(a, position) ==> a[0].from <= position
    ensures Covered(a, a[0].from) && !Covered(a, a[0].to)
    ensures Covered(a[1..], position) <==> Covered(a, position) && position > a[0].to
    ensures a[0].from <= position < a[0].to ==> Covered(a, position)
  {
    assert Covers(a[0], a[0].from);
    assert Covers(a[0], position) ==> Covered(a, position);
    assert forall i :: 1 <= i < |a| ==> a[i] == a[1..][i - 1];
    if Covered(a[1..], position) {
      var i :| 0 <= i < |a[1..]| && Covers(a[1..][i], position);
      assert Covers(a[i + 1], position);
    }
  }

  /** Ranges that are apart and not empty are determined by the positions they cover. */
  lemma {:induction false} SeparatedIsUnique(a: seq<OutputRange>, b: seq<OutputRange>)
    requires Separated(a) && Separated(b) && NoneEmpty(a) && NoneEmpty(b) && CoverSame(a, b)
    ensures a == b
  {
    if a == [] || b == [] {
      BothEmpty(a, b);
    } else {
      FirstsAgree(a, b);
      hide Covered;
      forall position
        ensures Covered(a[1..], position) <==> Covered(b[1..], position)
      {
        StartsAtLeastCovered(a, position);
        StartsAtLeastCovered(b, position);
      }
      SeparatedIsUnique(a[1..], b[1..]);
      assert a == [a[0]] + a[1..] && b == [b[0]] + b[1..];
    }
  }

  lemma BothEmpty(a: seq<OutputRange>, b: seq<OutputRange>)
    requires a == [] || b == []
    requires Separated(a) && Separated(b) && NoneEmpty(a) && NoneEmpty(b) && CoverSame(a, b)
    ensures a == b
  {
    if a != [] {
      StartsAtLeastCovered(a, 0);
    } else if b != [] {
      StartsAtLeastCovered(b, 0);
    }
  }

  lemma FirstsAgree(a: seq<OutputRange>, b: seq<OutputRange>)
    requires a != [] && b != []
    requires Separated(a) && Separated(b) && NoneEmpty(a) && NoneEmpty(b) && CoverSame(a, b)
    ensures a[0] == b[0]
  {
    StartsAtLeastCovered(a, b[0].from);
    StartsAtLeastCovered(b, a[0].from);
    StartsAtLeastCovered(a, b[0].to);
    StartsAtLeastCovered(b, a[0].to);
    hide Covered;
    assert Covered(a, b[0].from) && Covered(b, a[0].from);
    assert !Covered(a, b[0].to) && !Covered(b, a[0].to);
  }

  /**
   * So the marks depend on the positions alone: not on the order in which ranges were hovered and
   * pinned, nor on duplicates, nor on how the positions are cut into ranges.
   */
  lemma MarksDependOnPositions(a: seq<OutputRange>, b: seq<OutputRange>, ma: seq<OutputRange>, mb: seq<OutputRange>)
    requires NoneEmpty(a) && NoneEmpty(b) && CoverSame(a, b)
    requires IsHighlightOf(ma, a) && IsHighlightOf(mb, b)
    ensures ma == mb
  {
    hide Covered;
    assert forall position :: Covered(ma, position) <==> Covered(a, position);
    assert forall position :: Covered(mb, position) <==> Covered(b, position);
    SeparatedIsUnique(ma, mb);
  }

  /** The ranges come from the hex viewer, and it gives none that is empty. */
  lemma ViewerRangesAreNotEmpty(ranges: seq<OutputRange>, output: seq<Unit>, bytes: seq<Byte>)
    requires forall k :: 0 <= k < |ranges| ==>
               exists i: nat :: i < |bytes| && Align(output, bytes, 0, 0).selections[i].outputRange == Some(ranges[k])
    ensures NoneEmpty(ranges)
  {
    hide Align;
    forall k | 0 <= k < |ranges|
      ensures ranges[k].from < ranges[k].to
    {
      var i: nat :| i < |bytes| && Align(output, bytes, 0, 0).selections[i].outputRange == Some(ranges[k]);
      RangesAreSound(output, bytes, 0, 0, i);
    }
  }
}
