/**
 * internal/dockertag/cache.go: collecting the tags of several repositories into one map, and the
 * order in which they are shown. `normalizeTag` is a parameter, `norm`; the registry's answers
 * and the order in which goroutines finish and maps are traversed are parameters too.
 */
module TagList {
  import opened Options
  import opened Semver
  import opened Sorting
  import opened WeightedChoice

  datatype Image = Image(repository: string, tag: string, digest: string)

  type ImageMap = map<string, Image>

  // ---------------------------------------------------------------------------------------
  // Merging the repositories
  // ---------------------------------------------------------------------------------------

  /** `imagesByRepo[i][j]` is the first with its tag: no earlier repository has it, nor this one before. */
  ghost predicate IsFirstAt(imagesByRepo: seq<seq<Image>>, norm: string -> string, i: nat, j: nat) {
    && i < |imagesByRepo| && j < |imagesByRepo[i]|
    && forall p, q | 0 <= p <= i && 0 <= q < |imagesByRepo[p]| && (p < i || q < j) ::
         norm(imagesByRepo[p][q].tag) != norm(imagesByRepo[i][j].tag)
  }

  /** The first `j` images of repository `i`, and those of the repositories before it, are merged. */
  ghost predicate MergedUpTo(m: ImageMap, imagesByRepo: seq<seq<Image>>, norm: string -> string, i: nat, j: nat) {
    && (forall p, q | 0 <= p <= i && p < |imagesByRepo| && 0 <= q < |imagesByRepo[p]| && (p < i || q < j) ::
          norm(imagesByRepo[p][q].tag) in m)
    && (forall key :: key in m ==> exists p: nat, q: nat ::
         IsFirstImage(m[key], imagesByRepo, norm, key, p, q) && (p < i || (p == i && q < j)))
  }

  ghost predicate IsFirstImage(img: Image, imagesByRepo: seq<seq<Image>>, norm: string -> string, key: string,
                               p: nat, q: nat)
  {
    IsFirstAt(imagesByRepo, norm, p, q) && imagesByRepo[p][q] == img && norm(img.tag) == key
  }

  lemma MergeOne(m: ImageMap, imagesByRepo: seq<seq<Image>>, norm: string -> string, i: nat, j: nat)
    requires i < |imagesByRepo| && j < |imagesByRepo[i]| && MergedUpTo(m, imagesByRepo, norm, i, j)
    ensures var img := imagesByRepo[i][j];
            MergedUpTo(if norm(img.tag) in m then m else m[norm(img.tag) := img], imagesByRepo, norm, i, j + 1)
  {
    var img := imagesByRepo[i][j];
    if norm(img.tag) !in m {
      assert IsFirstImage(img, imagesByRepo, norm, norm(img.tag), i, j);
    }
  }

  /** Every tag has the first of its images, and nothing else is in the map. */
  ghost predicate TakesFirsts(m: ImageMap, imagesByRepo: seq<seq<Image>>, norm: string -> string) {
    && (forall i, j | 0 <= i < |imagesByRepo| && 0 <= j < |imagesByRepo[i]| ::
          && norm(imagesByRepo[i][j].tag) in m
          && ((forall p, q | 0 <= p <= i && 0 <= q < |imagesByRepo[p]| && (p < i || q < j) ::
                 norm(imagesByRepo[p][q].tag) != norm(imagesByRepo[i][j].tag))
              ==> m[norm(imagesByRepo[i][j].tag)] == imagesByRepo[i][j]))
    && (forall key :: key in m ==>
          exists i, j :: 0 <= i < |imagesByRepo| && 0 <= j < |imagesByRepo[i]|
                         && imagesByRepo[i][j] == m[key] && norm(imagesByRepo[i][j].tag) == key)
  }

  lemma FirstIsTaken(m: ImageMap, imagesByRepo: seq<seq<Image>>, norm: string -> string, i: nat, j: nat)
    requires MergedUpTo(m, imagesByRepo, norm, |imagesByRepo|, 0) && IsFirstAt(imagesByRepo, norm, i, j)
    ensures norm(imagesByRepo[i][j].tag) in m && m[norm(imagesByRepo[i][j].tag)] == imagesByRepo[i][j]
  {
    var key := norm(imagesByRepo[i][j].tag);
    var p: nat, q: nat :| IsFirstImage(m[key], imagesByRepo, norm, key, p, q);
    assert norm(imagesByRepo[p][q].tag) == key;
    assert p == i && q == j;
  }

  lemma AllMerged(m: ImageMap, imagesByRepo: seq<seq<Image>>, norm: string -> string)
    requires MergedUpTo(m, imagesByRepo, norm, |imagesByRepo|, 0)
    ensures TakesFirsts(m, imagesByRepo, norm)
  {
    forall i, j | 0 <= i < |imagesByRepo| && 0 <= j < |imagesByRepo[i]| && IsFirstAt(imagesByRepo, norm, i, j)
      ensures m[norm(imagesByRepo[i][j].tag)] == imagesByRepo[i][j]
    {
      FirstIsTaken(m, imagesByRepo, norm, i, j);
    }
    forall key | key in m
      ensures exists i, j :: 0 <= i < |imagesByRepo| && 0 <= j < |imagesByRepo[i]|
                             && imagesByRepo[i][j] == m[key] && norm(imagesByRepo[i][j].tag) == key
    {
      var p: nat, q: nat :| IsFirstImage(m[key], imagesByRepo, norm, key, p, q);
    }
  }

  /** The goroutines: each writes its own slot, in whatever order they finish. */
  method FetchAll(answers: seq<Option<seq<Image>>>, order: seq<nat>) returns (imagesByRepo: Option<seq<seq<Image>>>)
    requires |order| == |answers| && (forall k :: 0 <= k < |order| ==> order[k] < |answers|)
    requires forall i :: 0 <= i < |answers| ==> i in order
    ensures imagesByRepo.Some? <==> forall i :: 0 <= i < |answers| ==> answers[i].Some?
    ensures imagesByRepo.Some? ==> |imagesByRepo.value| == |answers|
                                   && forall i :: 0 <= i < |answers| ==> answers[i] == Some(imagesByRepo.value[i])
  {
    var slots := new seq<Image>[|answers|](_ => []);
    var failed := false;
    for k := 0 to |order|
      invariant failed <==> exists l :: 0 <= l < k && answers[order[l]].None?
      invariant forall l :: 0 <= l < k && answers[order[l]].Some? ==> Some(slots[order[l]]) == answers[order[l]]
    {
      match answers[order[k]]
      case None => failed := true;
      case Some(images) => slots[order[k]] := images;
    }
    if failed {
      return None;
    }
    assert forall i :: 0 <= i < |answers| ==> i in order && answers[i] == Some(slots[i]);
    return Some(slots[..]);
  }

  /** The merge: an image is kept unless its tag was seen, in this repository or an earlier one. */
  method Merge(imagesByRepo: seq<seq<Image>>, norm: string -> string) returns (imgByTag: ImageMap)
    ensures TakesFirsts(imgByTag, imagesByRepo, norm)
  {
    imgByTag := map[];
    hide TakesFirsts;
    for i := 0 to |imagesByRepo|
      invariant MergedUpTo(imgByTag, imagesByRepo, norm, i, 0)
    {
      var images := imagesByRepo[i];
      for j := 0 to |images|
        invariant MergedUpTo(imgByTag, imagesByRepo, norm, i, j)
      {
        var tag := norm(images[j].tag);
        MergeOne(imgByTag, imagesByRepo, norm, i, j);
        if tag in imgByTag {
          continue;
        }
        imgByTag := imgByTag[tag := images[j]];
      }
    }
    AllMerged(imgByTag, imagesByRepo, norm);
  }

  // ---------------------------------------------------------------------------------------
  // Sorting
  // ---------------------------------------------------------------------------------------

  predicate InRange(ids: seq<nat>, n: nat) {
    forall i :: 0 <= i < |ids| ==> ids[i] < n
  }

  /** A permutation of the ids below `n`. */
  ghost predicate Permutes(ids: seq<nat>, n: nat) {
    && |ids| == n && InRange(ids, n)
    && (forall i, j :: 0 <= i < j < n ==> ids[i] != ids[j])
    && (forall x: nat :: x < n ==> x in ids)
  }

  /** No later element is greater than an earlier one. */
  predicate Descending(parsed: seq<Version>, ids: seq<nat>)
    requires InRange(ids, |parsed|)
  {
    forall i, j :: 0 <= i < j < |ids| ==> !Greater(parsed[ids[j]], parsed[ids[i]])
  }

  predicate AllVersionsClean(parsed: seq<Version>) {
    forall v <- parsed :: AllClean(v)
  }

  /** The argument of `sort.Slice`. */
  predicate Before(parsed: seq<Version>, i: nat, j: nat) {
    i < |parsed| && j < |parsed| && Greater(parsed[i], parsed[j])
  }

  lemma CleanVersionsAreOrdered(parsed: seq<Version>, ids: seq<nat>)
    requires AllVersionsClean(parsed) && InRange(ids, |parsed|)
    ensures Orders((i, j) => Before(parsed, i, j), ids)
  {
    hide Greater, AllClean;
    assert forall i | i in ids :: i < |parsed| && parsed[i] in parsed;
    forall i, j | i in ids && j in ids
      ensures Before(parsed, i, j) ==> !Before(parsed, j, i)
    {
      if Before(parsed, i, j) {
        GreaterAsymmetric(parsed[i], parsed[j]);
      }
    }
    forall i, j, k | i in ids && j in ids && k in ids
      ensures Before(parsed, i, k) ==> Before(parsed, i, j) || Before(parsed, j, k)
    {
      if Before(parsed, i, k) {
        GreaterNegativelyTransitive(parsed[i], parsed[j], parsed[k]);
      }
    }
  }

  lemma RearrangedPermutes(ids: seq<nat>, sorted: seq<nat>)
    requires multiset(sorted) == multiset(ids) && forall i :: 0 <= i < |ids| ==> ids[i] == i
    ensures Permutes(sorted, |ids|)
  {
    RearrangedHasNoDuplicates(ids, sorted);
    RearrangedHasSame(ids, sorted);
    assert forall i :: 0 <= i < |sorted| ==> sorted[i] in ids;
    forall x: nat | x < |ids|
      ensures x in sorted
    {
      assert ids[x] == x;
    }
  }

  /** The ids sorted by `sort.Slice`. */
  method SortIds(parsed: seq<Version>) returns (ids: seq<nat>)
    ensures Permutes(ids, |parsed|)
    ensures AllVersionsClean(parsed) ==> Descending(parsed, ids)
  {
    hide Greater, AllVersionsClean, Orders;
    var all: seq<nat> := seq(|parsed|, i => i);
    ids := Sort(all, (i, j) => Before(parsed, i, j));
    RearrangedPermutes(all, ids);
    if AllVersionsClean(parsed) {
      CleanVersionsAreOrdered(parsed, all);
    }
  }

  // ---------------------------------------------------------------------------------------
  // sortImages
  // ---------------------------------------------------------------------------------------

  const HEAD_OF_LIST_TAGS := ["head-alpine", "head", "latest-alpine", "latest"]

  const TAGS_TO_DROP := ["12334", "12334-eefeec2519f5bdfec4516395a684ff570b5560a6"]

  function Elements(s: seq<string>): (e: set<string>)
    ensures forall t :: t in e <==> t in s
  {
    if s == [] then {} else Elements(s[..|s| - 1]) + {s[|s| - 1]}
  }

  /** The keys that are there, in the order of the list. */
  function Present(list: seq<string>, keys: set<string>): seq<string> {
    if list == [] then []
    else Present(list[..|list| - 1], keys) + if list[|list| - 1] in keys then [list[|list| - 1]] else []
  }

  /** Orders of disjoint sets of keys, one after the other. */
  lemma OrdersConcat(a: seq<string>, b: seq<string>, ka: set<string>, kb: set<string>)
    requires IsOrder(a, ka) && IsOrder(b, kb) && ka !! kb
    ensures IsOrder(a + b, ka + kb)
  {
    assert |ka + kb| == |ka| + |kb|;
    forall i, j | 0 <= i < j < |a + b|
      ensures (a + b)[i] != (a + b)[j]
    {
      assert i < |a| ==> (a + b)[i] in ka;
      assert j >= |a| ==> (a + b)[j] in kb;
    }
  }

  lemma SingleOrder(k: string)
    ensures IsOrder([k], {k})
  {
  }

  lemma EmptyOrder()
    ensures IsOrder([], {})
  {
  }

  lemma ElementsSnoc(list: seq<string>, keys: set<string>)
    requires list != [] && list[|list| - 1] !in list[..|list| - 1]
    ensures var front, last := list[..|list| - 1], list[|list| - 1];
            && last !in Elements(front)
            && Elements(list) * keys == Elements(front) * keys + if last in keys then {last} else {}
  {
  }

  lemma {:induction false} PresentIsOrder(list: seq<string>, keys: set<string>)
    requires forall i, j :: 0 <= i < j < |list| ==> list[i] != list[j]
    ensures IsOrder(Present(list, keys), Elements(list) * keys)
  {
    hide IsOrder;
    if list == [] {
      EmptyOrder();
      assert Elements(list) * keys == {};
    } else {
      var front, last := list[..|list| - 1], list[|list| - 1];
      PresentIsOrder(front, keys);
      ElementsSnoc(list, keys);
      hide Elements;
      if last in keys {
        SingleOrder(last);
        OrdersConcat(Present(front, keys), [last], Elements(front) * keys, {last});
      } else {
        assert Present(list, keys) == Present(front, keys);
        assert Elements(list) * keys == Elements(front) * keys;
      }
    }
  }

  /** Those of the list that are there, in the order of the list. */
  lemma {:induction false} PresentFollowsList(list: seq<string>, keys: set<string>, present: seq<string>)
    requires present == Present(list, keys)
    ensures forall k :: k in present <==> k in list && k in keys
    ensures forall i, j :: 0 <= i < j < |present| ==> ComesBefore(list, present[i], present[j])
  {
    if list != [] {
      var front, last := list[..|list| - 1], list[|list| - 1];
      var earlier := Present(front, keys);
      PresentFollowsList(front, keys, earlier);
      assert list == front + [last];
      forall i, j | 0 <= i < j < |present|
        ensures ComesBefore(list, present[i], present[j])
      {
        if j < |earlier| {
          assert ComesBefore(front, earlier[i], earlier[j]);
          var a: nat, b: nat :| a < b < |front| && front[a] == present[i] && front[b] == present[j];
          assert list[a] == present[i] && list[b] == present[j];
        } else {
          assert present[j] == last && earlier[i] in front;
          var a: nat :| a < |front| && front[a] == present[i];
          assert list[a] == present[i] && list[|list| - 1] == last;
        }
      }
    }
  }

  predicate ComesBefore(list: seq<string>, x: string, y: string) {
    exists a: nat, b: nat :: a < b < |list| && list[a] == x && list[b] == y
  }

  /** `delete(m, tag)` for every tag of a list. */
  method DeleteAll(m: ImageMap, tags: seq<string>) returns (rest: ImageMap)
    ensures rest == m - Elements(tags)
  {
    rest := m;
    for i := 0 to |tags|
      invariant rest == m - Elements(tags[..i])
    {
      assert tags[..i + 1][..i] == tags[..i];
      rest := rest - {tags[i]};
    }
    assert tags[..|tags|] == tags;
  }

  /** The keys of a map in the order given by ids that permute the places of `order`. */
  lemma PermutedOrder(order: seq<string>, keys: set<string>, ids: seq<nat>) returns (permuted: seq<string>)
    requires IsOrder(order, keys) && Permutes(ids, |order|)
    ensures |permuted| == |ids| && forall i :: 0 <= i < |ids| ==> permuted[i] == order[ids[i]]
    ensures IsOrder(permuted, keys)
  {
    permuted := seq(|ids|, i requires 0 <= i < |ids| => order[ids[i]]);
    forall k | k in keys
      ensures k in permuted
    {
      assert k in order;
      var p :| 0 <= p < |order| && order[p] == k;
      assert p in ids;
      var q :| 0 <= q < |ids| && ids[q] == p;
      assert permuted[q] == k;
    }
  }

  /** The images under the keys. */
  function ImagesAt(m: ImageMap, keys: seq<string>): seq<Image>
    requires forall k <- keys :: k in m
  {
    seq(|keys|, i requires 0 <= i < |keys| => assert keys[i] in keys; m[keys[i]])
  }

  predicate ImagesDescend(images: seq<Image>) {
    forall i, j :: 0 <= i < j < |images| ==> !Greater(Parse(images[j].tag), Parse(images[i].tag))
  }

  predicate TagsClean(images: seq<Image>) {
    forall i :: 0 <= i < |images| ==> AllClean(Parse(images[i].tag))
  }

  /** The images that are no head tags: collected from the map, parsed, sorted through ids. */
  method SortRest(left: ImageMap, order: seq<string>) returns (rest: seq<Image>, ghost keys: seq<string>)
    requires IsOrder(order, left.Keys)
    ensures IsOrder(keys, left.Keys) && rest == ImagesAt(left, keys)
    ensures TagsClean(rest) ==> ImagesDescend(rest)
  {
    hide Greater, Parse, AllClean, AllVersionsClean, TagsClean, Descending, ImagesDescend;
    var images := ImagesAt(left, order);
    var parsed := seq(|images|, i requires 0 <= i < |images| => Parse(images[i].tag));
    var ids := SortIds(parsed);
    keys := PermutedOrder(order, left.Keys, ids);
    rest := [];
    for i := 0 to |ids|
      invariant |rest| == i
      invariant forall k :: 0 <= k < i ==> rest[k] == images[ids[k]]
    {
      rest := rest + [images[ids[i]]];
    }
    if TagsClean(rest) {
      RestIsSorted(images, parsed, ids, rest);
    }
  }

  lemma RestIsSorted(images: seq<Image>, parsed: seq<Version>, ids: seq<nat>, rest: seq<Image>)
    requires |images| == |parsed| == |ids| == |rest| && Permutes(ids, |ids|)
    requires forall i :: 0 <= i < |ids| ==> parsed[i] == Parse(images[i].tag) && rest[i] == images[ids[i]]
    requires AllVersionsClean(parsed) ==> Descending(parsed, ids)
    requires TagsClean(rest)
    ensures ImagesDescend(rest)
  {
    hide Greater, Parse, AllClean;
    forall v | v in parsed
      ensures AllClean(v)
    {
      var x: nat :| x < |parsed| && parsed[x] == v;
      assert x in ids;
      var i :| 0 <= i < |ids| && ids[i] == x;
      assert AllClean(Parse(rest[i].tag));
    }
  }

  /** Head tags first, then the rest of the map without the dropped tags: everything shown, once. */
  lemma HeadsThenRest(m: ImageMap, list: seq<string>, dropped: seq<string>, heads: seq<string>, others: seq<string>)
    requires forall i, j :: 0 <= i < j < |list| ==> list[i] != list[j]
    requires heads == Present(list, m.Keys - Elements(dropped))
    requires IsOrder(others, m.Keys - Elements(dropped) - Elements(list))
    ensures IsOrder(heads + others, m.Keys - Elements(dropped))
  {
    hide IsOrder, Present;
    var shown := m.Keys - Elements(dropped);
    PresentIsOrder(list, shown);
    OrdersConcat(heads, others, Elements(list) * shown, shown - Elements(list));
    assert Elements(list) * shown + (shown - Elements(list)) == shown;
  }

  /** `keys` are those of the images shown, in their order. */
  ghost predicate IsListing(m: ImageMap, list: seq<string>, dropped: seq<string>, images: seq<Image>,
                            keys: seq<string>)
  {
    && IsOrder(keys, m.Keys - Elements(dropped))
    && (forall k <- keys :: k in m)
    && images == ImagesAt(m, keys)
    && var heads := Present(list, m.Keys - Elements(dropped));
       && heads <= keys
       && (TagsClean(images[|heads|..]) ==> ImagesDescend(images[|heads|..]))
  }

  /**
   * The images shown: every entry of the map but the dropped tags, once; first the head tags that
   * are there, in the order of their list; then, if the versions are clean, none greater than one
   * before it.
   */
  ghost predicate IsListed(m: ImageMap, list: seq<string>, dropped: seq<string>, images: seq<Image>) {
    exists keys :: IsListing(m, list, dropped, images, keys)
  }

  /** What a listing is, place by place. */
  lemma ListingMeans(m: ImageMap, list: seq<string>, dropped: seq<string>, images: seq<Image>, keys: seq<string>)
    requires IsListing(m, list, dropped, images, keys)
    ensures |keys| == |images| && forall i :: 0 <= i < |keys| ==> keys[i] in m && images[i] == m[keys[i]]
    ensures (forall k :: k in keys <==> k in m && k !in dropped)
            && forall i, j :: 0 <= i < j < |keys| ==> keys[i] != keys[j]
    ensures forall i, j :: 0 <= i < j < |keys| && keys[j] in list ==> ComesBefore(list, keys[i], keys[j])
    ensures (forall i :: 0 <= i < |keys| && keys[i] !in list ==> AllClean(Parse(images[i].tag))) ==>
              forall i, j :: 0 <= i < j < |keys| && keys[i] !in list ==>
                !Greater(Parse(images[j].tag), Parse(images[i].tag))
  {
    var shown := m.Keys - Elements(dropped);
    var heads := Present(list, shown);
    hide Present, Elements, ComesBefore, Greater, Parse, AllClean;
    HeadsComeFirst(list, shown, heads, keys);
    var rest := images[|heads|..];
    if forall i :: 0 <= i < |keys| && keys[i] !in list ==> AllClean(Parse(images[i].tag)) {
      assert forall i :: 0 <= i < |rest| ==> rest[i] == images[|heads| + i] && keys[|heads| + i] !in list;
      forall i, j | 0 <= i < j < |keys| && keys[i] !in list
        ensures !Greater(Parse(images[j].tag), Parse(images[i].tag))
      {
        assert rest[i - |heads|] == images[i] && rest[j - |heads|] == images[j];
      }
    }
  }

  lemma HeadsComeFirst(list: seq<string>, shown: set<string>, heads: seq<string>, keys: seq<string>)
    requires heads == Present(list, shown) && heads <= keys && IsOrder(keys, shown)
    ensures forall i, j :: 0 <= i < j < |keys| && keys[j] in list ==> ComesBefore(list, keys[i], keys[j])
    ensures forall i :: 0 <= i < |keys| ==> (i < |heads| <==> keys[i] in list)
  {
    PresentFollowsList(list, shown, heads);
    hide Present, ComesBefore;
    assert forall i :: 0 <= i < |keys| ==> keys[i] in keys;
    assert forall i :: 0 <= i < |heads| ==> keys[i] == heads[i] && heads[i] in heads;
    assert forall i :: |heads| <= i < |keys| ==> keys[i] !in heads;
    forall i, j | 0 <= i < j < |keys| && keys[j] in list
      ensures ComesBefore(list, keys[i], keys[j])
    {
      assert j < |heads| && ComesBefore(list, heads[i], heads[j]);
    }
  }

  lemma MakeListing(m: ImageMap, list: seq<string>, dropped: seq<string>, heads: seq<string>, others: seq<string>,
                    head: seq<Image>, rest: seq<Image>)
    requires heads == Present(list, m.Keys - Elements(dropped))
    requires IsOrder(heads + others, m.Keys - Elements(dropped))
    requires forall k <- heads + others :: k in m
    requires |head| == |heads| && head + rest == ImagesAt(m, heads + others)
    requires TagsClean(rest) ==> ImagesDescend(rest)
    ensures IsListing(m, list, dropped, head + rest, heads + others)
  {
    hide TagsClean, ImagesDescend, IsOrder, Present, Elements;
    assert (head + rest)[|heads|..] == rest;
  }

  /**
   * `sortImages` with the lists of head tags and dropped tags as parameters: `keys[i]` is the key of
   * the image at place i. All are shown once, except those dropped; head tags come first, as in
   * their list; the others descend if their versions are clean.
   */
  method SortWith(imgByTag: ImageMap, list: seq<string>, dropped: seq<string>, traverse: set<string> -> seq<string>)
      returns (sortedImages: seq<Image>, ghost keys: seq<string>)
    requires forall i, j :: 0 <= i < j < |list| ==> list[i] != list[j]
    requires forall keys :: IsOrder(traverse(keys), keys)
    ensures IsListed(imgByTag, list, dropped, sortedImages)
    ensures |keys| == |sortedImages|
            && forall i :: 0 <= i < |keys| ==> keys[i] in imgByTag && sortedImages[i] == imgByTag[keys[i]]
    ensures (forall k :: k in keys <==> k in imgByTag && k !in dropped)
            && forall i, j :: 0 <= i < j < |keys| ==> keys[i] != keys[j]
    ensures forall i, j | 0 <= i < j < |keys| && keys[j] in list ::
              exists a: nat, b: nat :: a < b < |list| && list[a] == keys[i] && list[b] == keys[j]
    ensures (forall i :: 0 <= i < |keys| && keys[i] !in list ==> AllClean(Parse(sortedImages[i].tag))) ==>
              forall i, j :: 0 <= i < j < |keys| && keys[i] !in list ==>
                !Greater(Parse(sortedImages[j].tag), Parse(sortedImages[i].tag))
  {
    hide TagsClean, ImagesDescend, Present, IsListing, Elements, IsOrder, Greater, Parse, AllClean;
    var shown := DeleteAll(imgByTag, dropped);
    var head := SelectHeads(shown, list);
    ghost var heads := Present(list, shown.Keys);
    var left := DeleteAll(shown, list);
    var rest;
    ghost var others;
    rest, others := SortRest(left, traverse(left.Keys));
    HeadsThenRest(imgByTag, list, dropped, heads, others);
    KeysOfOrder(others, left.Keys);
    ImagesConcat(imgByTag, shown, left, heads, others);
    MakeListing(imgByTag, list, dropped, heads, others, head, rest);
    sortedImages, keys := head + rest, heads + others;
    ListingMeans(imgByTag, list, dropped, sortedImages, keys);
  }

  lemma KeysOfOrder(order: seq<string>, keys: set<string>)
    requires IsOrder(order, keys)
    ensures forall k <- order :: k in keys
  {
  }

  /** `sortImages`; `traverse` is the order in which a map is iterated. */
  method SortImages(imgByTag: ImageMap, traverse: set<string> -> seq<string>)
      returns (sortedImages: seq<Image>, ghost keys: seq<string>)
    requires forall keys :: IsOrder(traverse(keys), keys)
    ensures IsListed(imgByTag, HEAD_OF_LIST_TAGS, TAGS_TO_DROP, sortedImages)
    ensures |keys| == |sortedImages|
            && forall i :: 0 <= i < |keys| ==> keys[i] in imgByTag && sortedImages[i] == imgByTag[keys[i]]
    ensures (forall k :: k in keys <==>
                           && k in imgByTag
                           && k != "12334" && k != "12334-eefeec2519f5bdfec4516395a684ff570b5560a6")
            && forall i, j :: 0 <= i < j < |keys| ==> keys[i] != keys[j]
    ensures var list := ["head-alpine", "head", "latest-alpine", "latest"];
            forall i, j | 0 <= i < j < |keys| && keys[j] in list ::
              exists a: nat, b: nat :: a < b < 4 && list[a] == keys[i] && list[b] == keys[j]
  {
    hide IsListed, IsOrder, Greater, Parse, AllClean;
    var list := HEAD_OF_LIST_TAGS;
    assert list == ["head-alpine", "head", "latest-alpine", "latest"];
    sortedImages, keys := SortWith(imgByTag, list, TAGS_TO_DROP, traverse);
    forall i, j | 0 <= i < j < |keys| && keys[j] in list
      ensures exists a: nat, b: nat :: a < b < 4 && list[a] == keys[i] && list[b] == keys[j]
    {
      var a: nat, b: nat :| a < b < |list| && list[a] == keys[i] && list[b] == keys[j];
    }
  }

  lemma ImagesConcat(m: ImageMap, ma: ImageMap, mb: ImageMap, a: seq<string>, b: seq<string>)
    requires (forall k <- a :: k in ma) && (forall k <- b :: k in mb)
    requires (forall k :: k in ma ==> k in m && ma[k] == m[k]) && (forall k :: k in mb ==> k in m && mb[k] == m[k])
    ensures forall k <- a + b :: k in m
    ensures ImagesAt(m, a + b) == ImagesAt(ma, a) + ImagesAt(mb, b)
  {
  }

  /** The loop over the head tags. */
  method SelectHeads(left: ImageMap, list: seq<string>) returns (head: seq<Image>)
    ensures forall k <- Present(list, left.Keys) :: k in left
    ensures head == ImagesAt(left, Present(list, left.Keys))
  {
    head := [];
    for i := 0 to |list|
      invariant forall k <- Present(list[..i], left.Keys) :: k in left
      invariant head == ImagesAt(left, Present(list[..i], left.Keys))
    {
      var tag := list[i];
      assert list[..i + 1][..i] == list[..i];
      if tag !in left {
        continue;
      }
      head := head + [left[tag]];
    }
    assert list[..|list|] == list;
  }
}
