/**
 * internal/qrunner/dockerengine/engine_provider.go and gc.go: listing the images the playground
 * has made, and freeing the disk of those tagged last. The engine's answers are parameters: the
 * k-th inspection gives `answers(k)`, the k-th removal fails if `fails(k)`.
 */
module ImageGc {
  import opened Options
  import opened Sorting

  datatype Summary = Summary(id: string, repoTags: seq<string>)

  /** Times are ticks of the engine's clock; a size is not negative. */
  datatype Inspected = Inspected(id: string, repoTags: seq<string>, lastTagTime: int, size: nat)

  // ---------------------------------------------------------------------------------------
  // getImages
  // ---------------------------------------------------------------------------------------

  predicate IsPlaygroundImageName(name: string) {
    "chp-" <= name
  }

  predicate IsPlaygroundImage(img: Summary) {
    exists tag <- img.repoTags :: IsPlaygroundImageName(tag)
  }

  /** The playground images among all images, each as often as it is listed. */
  ghost predicate IsFilterOf(kept: seq<Summary>, all: seq<Summary>) {
    forall img :: multiset(kept)[img] == if IsPlaygroundImage(img) then multiset(all)[img] else 0
  }

  lemma SwapAndPop<T>(s: seq<T>, i: nat)
    requires i < |s|
    ensures multiset(s[i := s[|s| - 1]][..|s| - 1]) == multiset(s) - multiset{s[i]}
  {
    var n := |s| - 1;
    var swapped := s[i := s[n]];
    assert multiset(swapped) == multiset(s) - multiset{s[i]} + multiset{s[n]};
    assert swapped == swapped[..n] + [s[n]];
    CancelOne(multiset(swapped[..n]), multiset(s) - multiset{s[i]}, s[n]);
  }

  lemma CancelOne<T>(a: multiset<T>, b: multiset<T>, x: T)
    requires a + multiset{x} == b + multiset{x}
    ensures a == b
  {
    assert a == (a + multiset{x}) - multiset{x} && b == (b + multiset{x}) - multiset{x};
  }

  /** The playground images are still all there, and some others maybe. */
  ghost predicate HoldsFilterOf(some: seq<Summary>, all: seq<Summary>) {
    forall img :: IsPlaygroundImage(img) ==> multiset(some)[img] == multiset(all)[img]
  }

  lemma AllHoldFilter(all: seq<Summary>)
    ensures HoldsFilterOf(all, all)
  {
  }

  lemma PopKeepsFilter(some: seq<Summary>, i: nat, all: seq<Summary>)
    requires i < |some| && HoldsFilterOf(some, all) && !IsPlaygroundImage(some[i])
    ensures HoldsFilterOf(some[i := some[|some| - 1]][..|some| - 1], all)
  {
    hide IsPlaygroundImage;
    SwapAndPop(some, i);
  }

  lemma KeptAll(kept: seq<Summary>, all: seq<Summary>)
    requires forall k :: 0 <= k < |kept| ==> IsPlaygroundImage(kept[k])
    requires HoldsFilterOf(kept, all)
    ensures IsFilterOf(kept, all)
  {
    hide IsPlaygroundImage;
    forall img
      ensures multiset(kept)[img] == if IsPlaygroundImage(img) then multiset(all)[img] else 0
    {
      if !IsPlaygroundImage(img) {
        assert img !in kept;
      }
    }
  }

  method HasPlaygroundTag(img: Summary) returns (matched: bool)
    ensures matched <==> IsPlaygroundImage(img)
    ensures matched <==> exists tag <- img.repoTags :: "chp-" <= tag
  {
    matched := false;
    for k := 0 to |img.repoTags|
      invariant !matched && forall l :: 0 <= l < k ==> !IsPlaygroundImageName(img.repoTags[l])
    {
      if IsPlaygroundImageName(img.repoTags[k]) {
        assert img.repoTags[k] in img.repoTags;
        return true;
      }
    }
  }

  /** The loop of `getImages`; the images that stay are the first `n` of the array. */
  method FilterInPlace(images: array<Summary>) returns (n: nat)
    modifies images
    ensures n <= images.Length && IsFilterOf(images[..n], old(images[..]))
  {
    hide IsPlaygroundImage, HoldsFilterOf, IsFilterOf;
    n := images.Length;
    assert images[..n] == images[..];
    AllHoldFilter(images[..n]);
    var i := 0;
    while i < n
      invariant 0 <= i <= n <= images.Length
      invariant forall k :: 0 <= k < i ==> IsPlaygroundImage(images[k])
      invariant HoldsFilterOf(images[..n], old(images[..]))
      decreases n - i
    {
      var matched := HasPlaygroundTag(images[i]);
      if !matched {
        ghost var before := images[..n];
        PopKeepsFilter(before, i, old(images[..]));
        images[i] := images[n - 1];
        assert images[..n - 1] == before[i := before[n - 1]][..n - 1];
        n := n - 1;
        i := i - 1;
      }
      i := i + 1;
    }
    KeptAll(images[..n], old(images[..]));
  }

  /** `getImages`, given the engine's list of images or its error; the images are the first `n` of the list. */
  method GetImages(images: Option<array<Summary>>, filterChp: bool) returns (n: Option<nat>)
    modifies if images.Some? then {images.value} else {}
    ensures n.Some? <==> images.Some?
    ensures n.Some? ==> n.value <= images.value.Length
    ensures n.Some? && filterChp ==> IsFilterOf(images.value[..n.value], old(images.value[..]))
    ensures n.Some? && filterChp ==>
              forall img :: multiset(images.value[..n.value])[img]
                         == if exists tag <- img.repoTags :: "chp-" <= tag
                            then multiset(old(images.value[..]))[img] else 0
    ensures n.Some? && !filterChp ==> images.value[..n.value] == old(images.value[..])
  {
    if images.None? {
      return None;
    }
    if !filterChp {
      assert images.value[..images.value.Length] == images.value[..];
      return Some(images.value.Length);
    }
    var count := FilterInPlace(images.value);
    n := Some(count);
  }

  // ---------------------------------------------------------------------------------------
  // collectImages
  // ---------------------------------------------------------------------------------------

  /** The inspections that gave an answer. */
  function Answered(answers: nat -> Option<Inspected>, n: nat): seq<Inspected> {
    if n == 0 then []
    else Answered(answers, n - 1) + match answers(n - 1) case None => [] case Some(img) => [img]
  }

  /** They are in the order of the images, each once, and none is missing. */
  lemma {:induction false} AnsweredInOrder(answers: nat -> Option<Inspected>, n: nat) returns (ks: seq<nat>)
    ensures |ks| == |Answered(answers, n)| && forall i, j :: 0 <= i < j < |ks| ==> ks[i] < ks[j]
    ensures forall i :: 0 <= i < |ks| ==> ks[i] < n && answers(ks[i]) == Some(Answered(answers, n)[i])
    ensures forall k :: 0 <= k < n && answers(k).Some? ==> k in ks
  {
    if n == 0 {
      ks := [];
    } else {
      ks := AnsweredInOrder(answers, n - 1);
      assert forall i :: 0 <= i < |ks| ==> ks[i] in ks;
      if answers(n - 1).Some? {
        ks := ks + [n - 1];
        assert ks[|ks| - 1] == n - 1;
      }
    }
  }

  predicate TaggedEarlier(a: Inspected, b: Inspected) {
    a.lastTagTime < b.lastTagTime
  }

  /** Up to `buffer` images are kept, and none of the others was tagged before any of them. */
  ghost predicate IsSplit(kept: seq<Inspected>, removed: seq<Inspected>, detailed: seq<Inspected>, buffer: nat) {
    && multiset(kept + removed) == multiset(detailed)
    && |kept| == (if |detailed| <= buffer then |detailed| else buffer)
    && forall i, j :: 0 <= i < |kept| && 0 <= j < |removed| ==> kept[i].lastTagTime <= removed[j].lastTagTime
  }

  function AllTags(images: seq<Inspected>): seq<string> {
    if images == [] then [] else AllTags(images[..|images| - 1]) + images[|images| - 1].repoTags
  }

  /** None of `n` removals, from the one numbered `start`, fails. */
  predicate NoneFails(fails: nat -> bool, start: nat, n: nat) {
    forall k :: start <= k < start + n ==> !fails(k)
  }

  /** The images of which every tag is gone. */
  function Gone(images: seq<Inspected>, fails: nat -> bool): seq<Inspected> {
    if images == [] then []
    else
      var front, last := images[..|images| - 1], images[|images| - 1];
      Gone(front, fails) + if NoneFails(fails, |AllTags(front)|, |last.repoTags|) then [last] else []
  }

  function TotalSize(images: seq<Inspected>): nat {
    if images == [] then 0 else TotalSize(images[..|images| - 1]) + images[|images| - 1].size
  }

  lemma {:induction false} TagsConcat(front: seq<Inspected>, back: seq<Inspected>)
    ensures AllTags(front + back) == AllTags(front) + AllTags(back)
    ensures TotalSize(front + back) == TotalSize(front) + TotalSize(back)
    ensures forall img: Inspected :: AllTags([img]) == img.repoTags && TotalSize([img]) == img.size
  {
    forall img: Inspected
      ensures AllTags([img]) == img.repoTags && TotalSize([img]) == img.size
    {
      assert [img][..0] == [];
    }
    if back == [] {
      assert front + back == front;
    } else {
      var rest, last := back[..|back| - 1], back[|back| - 1];
      TagsConcat(front, rest);
      assert (front + back)[..|front + back| - 1] == front + rest;
    }
  }

  /** No removal of a tag of the k-th image fails. */
  predicate IsGone(images: seq<Inspected>, fails: nat -> bool, k: nat) {
    k < |images| && NoneFails(fails, |AllTags(images[..k])|, |images[k].repoTags|)
  }

  lemma GoneFront(front: seq<Inspected>, last: Inspected, fails: nat -> bool, k: nat)
    requires k <= |front|
    ensures IsGone(front + [last], fails, k)
            == if k < |front| then IsGone(front, fails, k) else NoneFails(fails, |AllTags(front)|, |last.repoTags|)
  {
    hide NoneFails, AllTags;
    assert (front + [last])[..k] == front[..k];
    assert front[..|front|] == front;
  }

  /** The images gone are those of which no removal failed, in their order. */
  lemma {:induction false} GoneInOrder(images: seq<Inspected>, fails: nat -> bool) returns (ks: seq<nat>)
    ensures |ks| == |Gone(images, fails)| && forall i, j :: 0 <= i < j < |ks| ==> ks[i] < ks[j]
    ensures forall i :: 0 <= i < |ks| ==> ks[i] < |images| && images[ks[i]] == Gone(images, fails)[i]
    ensures forall k: nat :: k in ks <==> IsGone(images, fails, k)
  {
    if images == [] {
      ks := [];
    } else {
      var front, last := images[..|images| - 1], images[|images| - 1];
      ks := GoneInOrder(front, fails);
      assert images == front + [last] && forall i :: 0 <= i < |ks| ==> ks[i] in ks;
      forall k: nat | k <= |front|
        ensures IsGone(images, fails, k)
                == if k < |front| then IsGone(front, fails, k) else NoneFails(fails, |AllTags(front)|, |last.repoTags|)
      {
        GoneFront(front, last, fails, k);
      }
      hide AllTags, NoneFails;
      if NoneFails(fails, |AllTags(front)|, |last.repoTags|) {
        ks := ks + [|front|];
        assert ks[|ks| - 1] == |front|;
      }
    }
  }

  /** `calls`: the tags passed to `removeImage`, in order. */
  method RemoveImages(images: seq<Inspected>, fails: nat -> bool)
      returns (count: nat, spaceReclaimed: nat, calls: seq<string>)
    ensures calls == AllTags(images)
    ensures count == |Gone(images, fails)| && spaceReclaimed == TotalSize(Gone(images, fails))
  {
    count, spaceReclaimed, calls := 0, 0, [];
    NothingGone(fails);
    hide AllTags, Gone, TotalSize;
    for i := 0 to |images|
      invariant calls == AllTags(images[..i])
      invariant count == |Gone(images[..i], fails)| && spaceReclaimed == TotalSize(Gone(images[..i], fails))
    {
      var img := images[i];
      var ok := true;
      ghost var start := |calls|;
      for t := 0 to |img.repoTags|
        invariant calls == AllTags(images[..i]) + img.repoTags[..t] && |calls| == start + t
        invariant ok <==> NoneFails(fails, start, t)
      {
        if fails(|calls|) {
          ok := false;
        }
        calls := calls + [img.repoTags[t]];
      }
      assert img.repoTags[..|img.repoTags|] == img.repoTags;
      GoneSnoc(images[..i], img, fails);
      assert images[..i + 1] == images[..i] + [img];
      if !ok {
        continue;
      }
      count := count + 1;
      spaceReclaimed := spaceReclaimed + img.size;
    }
    assert images[..|images|] == images;
  }

  lemma NothingGone(fails: nat -> bool)
    ensures AllTags([]) == [] && Gone([], fails) == [] && TotalSize([]) == 0
  {
  }

  lemma GoneSnoc(front: seq<Inspected>, img: Inspected, fails: nat -> bool)
    ensures AllTags(front + [img]) == AllTags(front) + img.repoTags
    ensures var ok := NoneFails(fails, |AllTags(front)|, |img.repoTags|);
            && |Gone(front + [img], fails)| == |Gone(front, fails)| + (if ok then 1 else 0)
            && TotalSize(Gone(front + [img], fails)) == TotalSize(Gone(front, fails)) + (if ok then img.size else 0)
  {
    hide NoneFails;
    assert (front + [img])[..|front|] == front;
    var gone := Gone(front, fails);
    assert (gone + [img])[..|gone|] == gone;
    assert gone + [] == gone;
  }

  /** The sort: images tagged first come first. */
  method SortByTagTime(detailed: seq<Inspected>) returns (sorted: seq<Inspected>)
    ensures multiset(sorted) == multiset(detailed) && |sorted| == |detailed|
    ensures forall i, j :: 0 <= i < j < |sorted| ==> sorted[i].lastTagTime <= sorted[j].lastTagTime
  {
    sorted := Sort(detailed, TaggedEarlier);
    assert |sorted| == |multiset(sorted)| == |multiset(detailed)| == |detailed|;
  }

  lemma SplitOfSorted(detailed: seq<Inspected>, sorted: seq<Inspected>, buffer: nat)
    requires multiset(sorted) == multiset(detailed) && |sorted| == |detailed|
    requires forall i, j :: 0 <= i < j < |sorted| ==> sorted[i].lastTagTime <= sorted[j].lastTagTime
    ensures var cut := if |sorted| <= buffer then |sorted| else buffer;
            && sorted[..cut] + sorted[cut..] == sorted
            && IsSplit(sorted[..cut], sorted[cut..], detailed, buffer)
  {
  }

  /**
   * `listed` are the images of the playground. Without a list there is an error; below the threshold
   * nothing is removed; otherwise removal is tried for every image that could be inspected, but for
   * the `buffer` tagged first.
   */
  method CollectImages(images: Option<array<Summary>>, threshold: nat, buffer: nat,
                       answers: nat -> Option<Inspected>, fails: nat -> bool)
      returns (failed: bool, count: nat, spaceReclaimed: nat, calls: seq<string>,
               ghost listed: seq<Summary>, ghost kept: seq<Inspected>, ghost removed: seq<Inspected>)
    modifies if images.Some? then {images.value} else {}
    ensures failed <==> images.None?
    ensures failed ==> removed == []
    ensures !failed ==> IsFilterOf(listed, old(images.value[..]))
    ensures !failed && |listed| < threshold ==> removed == []
    ensures !failed && |listed| >= threshold ==> IsSplit(kept, removed, Answered(answers, |listed|), buffer)
    ensures forall i, j :: 0 <= i < |kept| && 0 <= j < |removed| ==> kept[i].lastTagTime <= removed[j].lastTagTime
    ensures !failed && |listed| >= threshold ==>
              var detailed := Answered(answers, |listed|);
              && multiset(kept + removed) == multiset(detailed)
              && |removed| == if |detailed| > buffer then |detailed| - buffer else 0
    ensures calls == AllTags(removed)
    ensures count == |Gone(removed, fails)| && spaceReclaimed == TotalSize(Gone(removed, fails))
  {
    hide IsFilterOf;
    count, spaceReclaimed, calls, listed, kept, removed := 0, 0, [], [], [], [];
    var found := GetImages(images, true);
    failed := found.None?;
    if failed {
      return;
    }
    var n := found.value;
    listed := images.value[..n];
    if n < threshold {
      return;
    }
    var detailed := [];
    for k := 0 to n
      invariant detailed == Answered(answers, k)
    {
      match answers(k)
      case None => {}
      case Some(inspect) => detailed := detailed + [inspect];
    }
    var sorted := SortByTagTime(detailed);
    SplitOfSorted(detailed, sorted, buffer);
    hide IsSplit, Answered, Gone, TotalSize, AllTags;
    if |sorted| > buffer {
      kept, removed := sorted[..buffer], sorted[buffer..];
      count, spaceReclaimed, calls := RemoveImages(sorted[buffer..], fails);
    } else {
      kept := sorted;
      assert sorted[..|sorted|] == sorted && sorted[|sorted|..] == [];
    }
  }

  // ---------------------------------------------------------------------------------------
  // What that means
  // ---------------------------------------------------------------------------------------

  /** If the engine answers about the image it is asked about, only playground images are removed. */
  lemma OnlyPlaygroundImagesGo(all: seq<Summary>, listed: seq<Summary>, answers: nat -> Option<Inspected>,
                               kept: seq<Inspected>, removed: seq<Inspected>, buffer: nat, img: Inspected)
    requires IsFilterOf(listed, all) && IsSplit(kept, removed, Answered(answers, |listed|), buffer)
    requires forall k :: 0 <= k < |listed| && answers(k).Some? ==> answers(k).value.id == listed[k].id
    requires img in removed
    ensures exists s :: s in all && s.id == img.id && exists tag <- s.repoTags :: "chp-" <= tag
  {
    hide IsPlaygroundImage;
    assert img in multiset(kept + removed);
    assert img in Answered(answers, |listed|);
    AnsweredFrom(answers, |listed|, img);
    var k: nat :| k < |listed| && answers(k) == Some(img);
    ListedIsPlayground(listed, all, k);
  }

  lemma ListedIsPlayground(listed: seq<Summary>, all: seq<Summary>, k: nat)
    requires IsFilterOf(listed, all) && k < |listed|
    ensures listed[k] in all && exists tag <- listed[k].repoTags :: "chp-" <= tag
  {
    assert IsPlaygroundImage(listed[k]) ==> exists tag <- listed[k].repoTags :: "chp-" <= tag;
    hide IsPlaygroundImage;
    assert listed[k] in multiset(listed);
    assert multiset(listed)[listed[k]] > 0;
    assert listed[k] in multiset(all);
  }

  lemma {:induction false} AnsweredFrom(answers: nat -> Option<Inspected>, n: nat, img: Inspected)
    requires img in Answered(answers, n)
    ensures exists k: nat :: k < n && answers(k) == Some(img)
  {
    if answers(n - 1) != Some(img) {
      AnsweredFrom(answers, n - 1, img);
    }
  }

  /** Of two splits of the same images, what only the one keeps is tagged when what only the other keeps is. */
  lemma SplitsDifferInTies(kept: seq<Inspected>, removed: seq<Inspected>, kept': seq<Inspected>,
                           removed': seq<Inspected>, detailed: seq<Inspected>, detailed': seq<Inspected>, buffer: nat,
                           x: Inspected, y: Inspected)
    requires IsSplit(kept, removed, detailed, buffer) && IsSplit(kept', removed', detailed', buffer)
    requires multiset(detailed) == multiset(detailed')
    requires multiset(kept)[x] > multiset(kept')[x] && multiset(kept')[y] > multiset(kept)[y]
    ensures x in detailed && y in detailed && x.lastTagTime == y.lastTagTime
  {
    var k, k', r, r' := multiset(kept), multiset(kept'), multiset(removed), multiset(removed');
    assert k + r == multiset(kept + removed) == multiset(kept' + removed') == k' + r';
    assert (k + r)[x] == (k' + r')[x] && (k + r)[y] == (k' + r')[y];
    assert x in k && x in r' && y in k' && y in r;
    assert x in kept && x in removed' && y in kept' && y in removed;
    assert x in multiset(detailed) && y in multiset(detailed);
  }

  /** Which images are kept depends neither on the order of the list nor on that of the sort. */
  lemma SplitIsUnique(kept: seq<Inspected>, removed: seq<Inspected>, kept': seq<Inspected>, removed': seq<Inspected>,
                      detailed: seq<Inspected>, detailed': seq<Inspected>, buffer: nat)
    requires IsSplit(kept, removed, detailed, buffer) && IsSplit(kept', removed', detailed', buffer)
    requires multiset(detailed) == multiset(detailed')
    requires forall a, b | a in detailed && b in detailed && a != b :: a.lastTagTime != b.lastTagTime
    ensures multiset(kept) == multiset(kept') && multiset(removed) == multiset(removed')
  {
    var k, k', r, r' := multiset(kept), multiset(kept'), multiset(removed), multiset(removed');
    assert k + r == multiset(kept + removed) == multiset(kept' + removed') == k' + r';
    assert |detailed| == |multiset(detailed)| == |multiset(detailed')| == |detailed'|;
    if k != k' {
      var x := MoreOf(k, k');
      var y := MoreOf(k', k);
      SplitsDifferInTies(kept, removed, kept', removed', detailed, detailed', buffer, x, y);
      assert false;
    }
    assert r == (k + r) - k && r' == (k' + r') - k';
  }

  lemma NoneMore<T>(a: multiset<T>, b: multiset<T>)
    requires |a| == |b|
    ensures a <= b ==> a == b
  {
    if a <= b {
      assert b == a + (b - a);
      assert |b - a| == 0;
    }
  }

  lemma MoreOf<T>(a: multiset<T>, b: multiset<T>) returns (x: T)
    requires |a| == |b| && a != b
    ensures a[x] > b[x]
  {
    NoneMore(a, b);
    x :| a[x] > b[x];
  }

  /** If no removal fails, every image is counted; if each has a tag, this is so only then. */
  lemma {:induction false} AllGone(images: seq<Inspected>, fails: nat -> bool)
    ensures (forall k: nat :: k < |AllTags(images)| ==> !fails(k)) ==> Gone(images, fails) == images
    ensures |Gone(images, fails)| <= |images|
    ensures (forall i :: 0 <= i < |images| ==> images[i].repoTags != []) && Gone(images, fails) == images
            ==> forall k: nat :: k < |AllTags(images)| ==> !fails(k)
  {
    if images != [] {
      var front, last := images[..|images| - 1], images[|images| - 1];
      AllGone(front, fails);
      assert images == front + [last];
      assert Gone(images, fails) == images ==> NoneFails(fails, |AllTags(front)|, |last.repoTags|);
    }
  }
}
