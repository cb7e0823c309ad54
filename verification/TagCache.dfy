/**
 * internal/dockertag/cache.go: the cache of image tags, refreshed in the background and filled in
 * lazily with digests, as a transition system and as an object. One step is one critical section
 * of the cache's lock, one atomic operation, or the return of a call to the registry.
 */
module TagCache {
  import opened Options
  import opened TagList
  import opened WeightedChoice

  type Normalizer = string -> string

  /** `normalizeTag`, the expiration time, the head tags and the dropped tags. */
  datatype Config = Config(norm: Normalizer, expiration: nat, heads: seq<string>, dropped: seq<string>)

  // ---------------------------------------------------------------------------------------
  // What the steps share
  // ---------------------------------------------------------------------------------------

  /** The fields of `Cache`. */
  datatype Fields = Fields(imageByTag: ImageMap, images: seq<Image>, updatedAt: int, updating: bool)

  /** The second critical section of `Find`: only fill the resolved digest in. */
  function Filled(m: ImageMap, key: string, img: Image): ImageMap {
    if key in m && m[key].repository == img.repository && m[key].digest == "" then m[key := img] else m
  }

  /** The fill changes the spelling of the tag in an entry. */
  predicate Respells(m: ImageMap, key: string, img: Image) {
    key in m && m[key].repository == img.repository && m[key].digest == "" && m[key].tag != img.tag
  }

  /** `updateIfExpired` launches an update: expired, and the swap of `updating` succeeds. */
  predicate Launches(c: Fields, now: int, expiration: nat) {
    now - c.updatedAt >= expiration && !c.updating
  }

  // ---------------------------------------------------------------------------------------
  // The transition system
  // ---------------------------------------------------------------------------------------

  /**
   * A call of `Find` that has found an image without a digest; then one that has got a digest.
   * `since`, history: how many refreshes had completed when it looked the image up.
   */
  datatype Finder =
    | Resolving(key: string, img: Image, since: nat)
    | Resolved(key: string, img: Image, since: nat)

  /** A call of `fetchAndStore`, from `asyncUpdate` or not. */
  datatype Refresher =
    | Fetching(async: bool)
    | Fetched(async: bool, imageByTag: ImageMap, images: seq<Image>)
    | Ending(async: bool)

  /**
   * History: `answered` holds the digests the registry has given, with what they were asked for;
   * `refreshed` is the map stored by the last refresh that completed, `refreshes` their number;
   * `late` the keys filled since by a `Find` that had looked its image up before that refresh and
   * under another spelling of the tag.
   */
  datatype State = State(cache: Fields, finders: map<nat, Finder>, refreshers: map<nat, Refresher>,
                         answered: set<Image>, refreshed: ImageMap, refreshes: nat, late: set<string>)

  datatype Step =
    | Lookup(f: nat, key: string)                      // Find, first critical section
    | Resolve(f: nat, digest: Option<string>)          // GetDigest returns
    | Fill(f: nat)                                     // Find, second critical section
    | Launch(r: nat, now: int)                         // updateIfExpired, as far as `go c.asyncUpdate()`
    | CallUpdate(r: nat)                               // Update
    | Fetch(r: nat, answer: Option<ImageMap>, images: seq<Image>)   // getImagesFromSeveralRepositories returns
    | Store(r: nat, now: int)                          // fetchAndStore under the lock
    | End(r: nat)                                      // the atomic store of updating, or return

  /** Merged tags under their normal form, without digests. */
  ghost predicate IsFresh(m: ImageMap, norm: Normalizer) {
    forall k :: k in m ==> norm(m[k].tag) == k && m[k].digest == ""
  }

  /** The list is the map's, as `sortImages` makes it. */
  ghost predicate IsListOf(cfg: Config, m: ImageMap, images: seq<Image>) {
    IsListed(m, cfg.heads, cfg.dropped, images)
  }

  /** The registry client gives no empty digest: it makes that an error. */
  ghost predicate Enabled(cfg: Config, s: State, step: Step) {
    match step
    case Lookup(f, _) => f !in s.finders
    case Resolve(f, digest) => f in s.finders && s.finders[f].Resolving? && digest != Some("")
    case Fill(f) => f in s.finders && s.finders[f].Resolved?
    case Launch(r, now) => r !in s.refreshers && Launches(s.cache, now, cfg.expiration)
    case CallUpdate(r) => r !in s.refreshers
    case Fetch(r, answer, images) =>
      && r in s.refreshers && s.refreshers[r].Fetching?
      && (answer.Some? ==> IsFresh(answer.value, cfg.norm) && IsListOf(cfg, answer.value, images))
    case Store(r, _) => r in s.refreshers && s.refreshers[r].Fetched?
    case End(r) => r in s.refreshers && s.refreshers[r].Ending?
  }

  ghost function Apply(cfg: Config, s: State, step: Step): State
    requires Enabled(cfg, s, step)
  {
    match step
    case Lookup(f, key) =>
      if key in s.cache.imageByTag && s.cache.imageByTag[key].digest == "" then
        s.(finders := s.finders[f := Resolving(key, s.cache.imageByTag[key], s.refreshes)])
      else s
    case Resolve(f, digest) =>
      if digest.None? then s.(finders := s.finders - {f})
      else
        var img := s.finders[f].img.(digest := digest.value);
        s.(finders := s.finders[f := Resolved(s.finders[f].key, img, s.finders[f].since)],
           answered := s.answered + {img})
    case Fill(f) =>
      s.(cache := s.cache.(imageByTag := Filled(s.cache.imageByTag, s.finders[f].key, s.finders[f].img)),
         late := if s.finders[f].since < s.refreshes && Respells(s.cache.imageByTag, s.finders[f].key, s.finders[f].img)
                 then s.late + {s.finders[f].key} else s.late,
         finders := s.finders - {f})
    case Launch(r, _) =>
      s.(cache := s.cache.(updating := true), refreshers := s.refreshers[r := Fetching(true)])
    case CallUpdate(r) => s.(refreshers := s.refreshers[r := Fetching(false)])
    case Fetch(r, answer, images) =>
      s.(refreshers := s.refreshers[r := if answer.None? then Ending(s.refreshers[r].async)
                                         else Fetched(s.refreshers[r].async, answer.value, images)])
    case Store(r, now) =>
      var m := s.refreshers[r].imageByTag;
      s.(cache := s.cache.(imageByTag := m, images := s.refreshers[r].images, updatedAt := now),
         refreshers := s.refreshers[r := Ending(s.refreshers[r].async)],
         refreshed := m, refreshes := s.refreshes + 1, late := {})
    case End(r) =>
      s.(cache := if s.refreshers[r].async then s.cache.(updating := false) else s.cache,
         refreshers := s.refreshers - {r})
  }

  function Init(updatedAt: int): State {
    State(Fields(map[], [], updatedAt, false), map[], map[], {}, map[], 0, {})
  }

  ghost predicate IsRun(cfg: Config, s: State, steps: seq<Step>)
    decreases |steps|
  {
    steps == [] || (Enabled(cfg, s, steps[0])
                    && IsRun(cfg, Apply(cfg, s, steps[0]), steps[1..]))
  }

  ghost function After(cfg: Config, s: State, steps: seq<Step>): State
    requires IsRun(cfg, s, steps)
    decreases |steps|
  {
    if steps == [] then s else After(cfg, Apply(cfg, s, steps[0]), steps[1..])
  }

  ghost predicate Reachable(cfg: Config, s: State) {
    exists start, steps :: IsRun(cfg, Init(start), steps)
                           && After(cfg, Init(start), steps) == s
  }

  // ---------------------------------------------------------------------------------------
  // The invariant
  // ---------------------------------------------------------------------------------------

  /** An entry: the one of the last refresh, or that with a digest of its own. */
  ghost predicate EntryOk(cfg: Config, s: State, k: string)
    requires k in s.cache.imageByTag && k in s.refreshed
  {
    var img := s.cache.imageByTag[k];
    && cfg.norm(img.tag) == k && img.repository == s.refreshed[k].repository
    && (img.digest != "" ==> img in s.answered)
    && (img.digest == "" ==> img == s.refreshed[k])
    && (k !in s.late <==> img.tag == s.refreshed[k].tag)
  }

  ghost predicate EntriesOk(cfg: Config, s: State) {
    && s.cache.imageByTag.Keys == s.refreshed.Keys
    && (forall k :: k in s.cache.imageByTag ==> EntryOk(cfg, s, k))
  }

  ghost predicate FinderOk(cfg: Config, s: State, f: Finder) {
    && cfg.norm(f.img.tag) == f.key && f.since <= s.refreshes
    && (f.Resolved? ==> f.img in s.answered && f.img.digest != "")
    && (f.since == s.refreshes ==> f.key in s.refreshed && f.img.tag == s.refreshed[f.key].tag)
  }

  ghost predicate FindersOk(cfg: Config, s: State) {
    forall f :: f in s.finders ==> FinderOk(cfg, s, s.finders[f])
  }

  ghost predicate FetchedOk(cfg: Config, s: State) {
    && IsListOf(cfg, s.refreshed, s.cache.images)
    && forall r :: r in s.refreshers && s.refreshers[r].Fetched? ==>
         && IsFresh(s.refreshers[r].imageByTag, cfg.norm)
         && IsListOf(cfg, s.refreshers[r].imageByTag, s.refreshers[r].images)
  }

  predicate IsAsync(s: State, r: nat) { r in s.refreshers && s.refreshers[r].async }

  /** `updating` is a lock: it is set exactly while the one asynchronous update runs. */
  ghost predicate UpdatingOk(s: State) {
    && (forall q, r :: IsAsync(s, q) && IsAsync(s, r) ==> q == r)
    && (s.cache.updating <==> exists r :: IsAsync(s, r))
  }

  ghost predicate Inv(cfg: Config, s: State) {
    EntriesOk(cfg, s) && FindersOk(cfg, s) && FetchedOk(cfg, s) && UpdatingOk(s)
  }

  lemma StoreKeepsEntries(cfg: Config, s: State, step: Step)
    requires step.Store? && FetchedOk(cfg, s) && Enabled(cfg, s, step)
    ensures EntriesOk(cfg, Apply(cfg, s, step))
  {
    hide IsListOf;
  }

  lemma FillKeepsEntries(cfg: Config, s: State, step: Step)
    requires step.Fill? && EntriesOk(cfg, s) && FindersOk(cfg, s) && Enabled(cfg, s, step)
    ensures EntriesOk(cfg, Apply(cfg, s, step))
  {
    var s', f := Apply(cfg, s, step), s.finders[step.f];
    assert FinderOk(cfg, s, f);
    forall k | k in s'.cache.imageByTag
      ensures k in s'.refreshed && EntryOk(cfg, s', k)
    {
      assert EntryOk(cfg, s, k);
    }
  }

  lemma OthersKeepEntries(cfg: Config, s: State, step: Step)
    requires !step.Fill? && !step.Store? && EntriesOk(cfg, s) && Enabled(cfg, s, step)
    ensures EntriesOk(cfg, Apply(cfg, s, step))
  {
    hide IsListOf, IsFresh;
    var s' := Apply(cfg, s, step);
    forall k | k in s'.cache.imageByTag
      ensures k in s'.refreshed && EntryOk(cfg, s', k)
    {
      assert EntryOk(cfg, s, k);
    }
  }

  lemma FindersStayOk(cfg: Config, s: State, step: Step)
    requires EntriesOk(cfg, s) && FindersOk(cfg, s) && Enabled(cfg, s, step)
    ensures FindersOk(cfg, Apply(cfg, s, step))
  {
    hide IsListOf, IsFresh;
  }

  lemma FetchedStaysOk(cfg: Config, s: State, step: Step)
    requires FetchedOk(cfg, s) && Enabled(cfg, s, step)
    ensures FetchedOk(cfg, Apply(cfg, s, step))
  {
    hide IsListOf, IsFresh;
  }

  lemma UpdatingStaysOk(cfg: Config, s: State, step: Step)
    requires UpdatingOk(s) && Enabled(cfg, s, step)
    ensures UpdatingOk(Apply(cfg, s, step))
  {
    hide IsListOf, IsFresh;
    var s' := Apply(cfg, s, step);
    if step.Launch? {
      assert IsAsync(s', step.r);
      assert forall q :: IsAsync(s', q) && q != step.r ==> IsAsync(s, q);
    } else if step.End? && s.refreshers[step.r].async {
      var r := step.r;
      assert forall q :: IsAsync(s', q) ==> IsAsync(s, q) && IsAsync(s, r) && q != r;
    } else {
      assert forall q :: IsAsync(s', q) <==> IsAsync(s, q);
    }
  }

  /** Every step keeps the invariant. */
  lemma StepKeepsInv(cfg: Config, s: State, step: Step)
    requires Inv(cfg, s) && Enabled(cfg, s, step)
    ensures Inv(cfg, Apply(cfg, s, step))
  {
    hide EntriesOk, FindersOk, FetchedOk, UpdatingOk, Apply, Enabled;
    if step.Store? {
      StoreKeepsEntries(cfg, s, step);
    } else if step.Fill? {
      FillKeepsEntries(cfg, s, step);
    } else {
      OthersKeepEntries(cfg, s, step);
    }
    FindersStayOk(cfg, s, step);
    FetchedStaysOk(cfg, s, step);
    UpdatingStaysOk(cfg, s, step);
  }

  lemma {:induction false} RunKeepsInv(cfg: Config, s: State, steps: seq<Step>)
    requires Inv(cfg, s) && IsRun(cfg, s, steps)
    ensures Inv(cfg, After(cfg, s, steps))
    decreases |steps|
  {
    hide Inv, Apply, Enabled;
    if steps != [] {
      StepKeepsInv(cfg, s, steps[0]);
      RunKeepsInv(cfg, Apply(cfg, s, steps[0]), steps[1..]);
    }
  }

  lemma {:induction false} NothingPresent(list: seq<string>)
    ensures Present(list, {}) == []
  {
    if list != [] {
      NothingPresent(list[..|list| - 1]);
    }
  }

  lemma EmptyIsListed(cfg: Config)
    ensures IsListOf(cfg, map[], [])
  {
    var none: ImageMap := map[];
    assert none.Keys - Elements(cfg.dropped) == {};
    NothingPresent(cfg.heads);
    assert IsListing(none, cfg.heads, cfg.dropped, [], []);
  }

  lemma InitOk(cfg: Config, start: int)
    ensures Inv(cfg, Init(start))
  {
    EmptyIsListed(cfg);
    hide IsListOf;
  }

  lemma ReachableOk(cfg: Config, s: State)
    requires Reachable(cfg, s)
    ensures Inv(cfg, s)
  {
    var start, steps :| IsRun(cfg, Init(start), steps) && After(cfg, Init(start), steps) == s;
    InitOk(cfg, start);
    hide Inv, IsRun, After;
    RunKeepsInv(cfg, Init(start), steps);
  }

  // ---------------------------------------------------------------------------------------
  // The main results
  // ---------------------------------------------------------------------------------------

  /**
   * Whatever calls of `Find`, `Update` and background updates interleave, the cache agrees with
   * the last refresh that completed: same tags, each from the same repository, under its normal
   * form; a digest in the cache was answered for just that repository and tag; and what has no
   * digest is as the refresh stored it. `GetAll` lists the same refresh.
   */
  lemma CacheAgreesWithLastRefresh(cfg: Config, s: State)
    requires Reachable(cfg, s)
    ensures s.cache.imageByTag.Keys == s.refreshed.Keys
    ensures forall k :: k in s.cache.imageByTag ==>
              && cfg.norm(s.cache.imageByTag[k].tag) == k
              && s.cache.imageByTag[k].repository == s.refreshed[k].repository
              && (s.cache.imageByTag[k].digest != "" ==> s.cache.imageByTag[k] in s.answered)
              && (s.cache.imageByTag[k].digest == "" ==> s.cache.imageByTag[k] == s.refreshed[k])
    ensures IsListOf(cfg, s.refreshed, s.cache.images)
  {
    ReachableOk(cfg, s);
    hide Reachable, IsListOf, IsFresh;
    forall k | k in s.cache.imageByTag
      ensures k in s.refreshed && EntryOk(cfg, s, k)
    {
    }
  }

  /** At most one background update is under way, and `updating` tells whether one is. */
  lemma OneAsyncUpdate(cfg: Config, s: State)
    requires Reachable(cfg, s)
    ensures forall q, r :: IsAsync(s, q) && IsAsync(s, r) ==> q == r
    ensures s.cache.updating <==> exists r :: IsAsync(s, r)
  {
    ReachableOk(cfg, s);
  }

  /** An update in the background can start at a time exactly if the list has expired and none is under way. */
  lemma LaunchIffExpired(cfg: Config, s: State, r: nat, now: int)
    requires Reachable(cfg, s) && r !in s.refreshers
    ensures Enabled(cfg, s, Launch(r, now))
            <==> now >= s.cache.updatedAt + cfg.expiration && forall q :: q in s.refreshers ==> !s.refreshers[q].async
  {
    OneAsyncUpdate(cfg, s);
    assert forall q :: q in s.refreshers && s.refreshers[q].async <==> IsAsync(s, q);
  }

  lemma {:induction false} TimeStays(cfg: Config, s: State, steps: seq<Step>)
    requires IsRun(cfg, s, steps) && forall i :: 0 <= i < |steps| ==> !steps[i].Store?
    ensures After(cfg, s, steps).cache.updatedAt == s.cache.updatedAt
    decreases |steps|
  {
    hide IsListOf, IsFresh;
    if steps != [] {
      TimeStays(cfg, Apply(cfg, s, steps[0]), steps[1..]);
    }
  }

  /** After a refresh that completes at time t no update is launched before t plus the expiration time. */
  lemma NoLaunchBeforeExpiry(cfg: Config, s: State, refresh: Step, steps: seq<Step>, launch: Step)
    requires refresh.Store? && Enabled(cfg, s, refresh)
    requires IsRun(cfg, Apply(cfg, s, refresh), steps) && forall i :: 0 <= i < |steps| ==> !steps[i].Store?
    requires launch.Launch? && Enabled(cfg, After(cfg, Apply(cfg, s, refresh), steps), launch)
    ensures launch.now >= refresh.now + cfg.expiration
  {
    TimeStays(cfg, Apply(cfg, s, refresh), steps);
  }

  /** A call of `Find` returns a digest that was answered for the repository and tag it returns. */
  lemma FindReturnsItsOwnDigest(cfg: Config, s: State, f: nat)
    requires Reachable(cfg, s)
    requires f in s.finders && s.finders[f].Resolved?
    ensures s.finders[f].img in s.answered && cfg.norm(s.finders[f].img.tag) == s.finders[f].key
  {
    ReachableOk(cfg, s);
    hide Reachable;
    assert FinderOk(cfg, s, s.finders[f]);
  }

  /**
   * An entry is spelled as in the last refresh if and only if no `Find` has filled it in since that
   * had looked it up before, under another spelling.
   */
  lemma SpelledAsRefreshed(cfg: Config, s: State, k: string)
    requires Reachable(cfg, s) && k in s.cache.imageByTag
    ensures k in s.refreshed
    ensures s.cache.imageByTag[k].tag == s.refreshed[k].tag <==> k !in s.late
  {
    ReachableOk(cfg, s);
    hide Reachable;
    assert EntryOk(cfg, s, k);
  }

  /** What a caller can tell before a fill: it changes the spelling only of an image looked up before a refresh. */
  lemma FillAfterSameRefreshKeepsSpelling(cfg: Config, s: State, f: nat)
    requires Reachable(cfg, s) && f in s.finders && s.finders[f].Resolved? && s.finders[f].since == s.refreshes
    ensures !Respells(s.cache.imageByTag, s.finders[f].key, s.finders[f].img)
  {
    ReachableOk(cfg, s);
    hide Reachable;
    assert FinderOk(cfg, s, s.finders[f]);
    assert s.finders[f].key in s.cache.imageByTag ==> EntryOk(cfg, s, s.finders[f].key);
  }

  lemma {:induction false} RunSnoc(cfg: Config, s: State, steps: seq<Step>, step: Step)
    requires IsRun(cfg, s, steps) && Enabled(cfg, After(cfg, s, steps), step)
    ensures IsRun(cfg, s, steps + [step])
    ensures After(cfg, s, steps + [step]) == Apply(cfg, After(cfg, s, steps), step)
    decreases |steps|
  {
    hide Apply, Enabled;
    if steps == [] {
      assert [step][1..] == [];
    } else {
      assert (steps + [step])[1..] == steps[1..] + [step];
      RunSnoc(cfg, Apply(cfg, s, steps[0]), steps[1..], step);
    }
  }

  lemma Take(cfg: Config, s: State, step: Step) returns (s': State)
    requires Reachable(cfg, s) && Enabled(cfg, s, step)
    ensures s' == Apply(cfg, s, step) && Reachable(cfg, s')
  {
    hide Apply, Enabled;
    s' := Apply(cfg, s, step);
    var start, steps :| IsRun(cfg, Init(start), steps) && After(cfg, Init(start), steps) == s;
    RunSnoc(cfg, Init(start), steps, step);
  }

  /** The flag is not lost: an update under way can by itself go on to where it is free again. */
  lemma UpdatingCanBeFreed(cfg: Config, s: State, r: nat, now: int)
    requires Reachable(cfg, s) && IsAsync(s, r)
    ensures exists s' :: Reachable(cfg, s') && !s'.cache.updating && s'.finders == s.finders
                         && s'.refreshers == s.refreshers - {r}
  {
    hide Reachable, IsListOf, IsFresh;
    var s' := s;
    if s'.refreshers[r].Fetching? {
      s' := Take(cfg, s', Fetch(r, None, []));
    } else if s'.refreshers[r].Fetched? {
      s' := Take(cfg, s', Store(r, now));
    }
    s' := Take(cfg, s', End(r));
    assert s'.refreshers == s.refreshers - {r};
  }

  /** A background update that brings one tag. */
  lemma RefreshOne(cfg: Config, s: State, img: Image, images: seq<Image>) returns (s': State)
    requires Reachable(cfg, s) && 0 !in s.refreshers && !s.cache.updating
    requires img.digest == "" && IsListOf(cfg, map[cfg.norm(img.tag) := img], images)
    ensures Reachable(cfg, s') && s'.refreshers == s.refreshers && s'.finders == s.finders && !s'.cache.updating
    ensures s'.cache.imageByTag == s'.refreshed == map[cfg.norm(img.tag) := img]
  {
    hide Reachable, IsListOf;
    var now := s.cache.updatedAt + cfg.expiration;
    s' := Take(cfg, s, Launch(0, now));
    s' := Take(cfg, s', Fetch(0, Some(map[cfg.norm(img.tag) := img]), images));
    s' := Take(cfg, s', Store(0, now));
    s' := Take(cfg, s', End(0));
  }

  /** A digest that is answered for the image a `Find` has looked up is filled in. */
  lemma FillOne(cfg: Config, s: State, digest: string) returns (s': State)
    requires Reachable(cfg, s) && 0 in s.finders && s.finders[0].Resolving? && digest != ""
    requires s.finders[0].key in s.cache.imageByTag
    requires var cur := s.cache.imageByTag[s.finders[0].key];
             cur.digest == "" && cur.repository == s.finders[0].img.repository
    ensures Reachable(cfg, s') && s'.refreshed == s.refreshed && s.finders[0].key in s'.cache.imageByTag
    ensures s'.cache.imageByTag[s.finders[0].key] == s.finders[0].img.(digest := digest)
  {
    hide Reachable;
    s' := Take(cfg, s, Resolve(0, Some(digest)));
    s' := Take(cfg, s', Fill(0));
  }

  /**
   * That exception is real. `first` and `second` are spellings of one tag; a `Find` looks up the
   * first, a refresh brings the second, and the fill puts the first back.
   */
  lemma LateFillKeepsOldSpelling(cfg: Config, first: Image, second: Image, digest: string,
                                 images: seq<Image>, others: seq<Image>)
    requires cfg.norm(first.tag) == cfg.norm(second.tag) && first.repository == second.repository
    requires first.digest == "" && second.digest == "" && digest != ""
    requires IsListOf(cfg, map[cfg.norm(first.tag) := first], images)
    requires IsListOf(cfg, map[cfg.norm(first.tag) := second], others)
    ensures exists s :: Reachable(cfg, s) && s.refreshed == map[cfg.norm(first.tag) := second]
                        && s.cache.imageByTag == map[cfg.norm(first.tag) := first.(digest := digest)]
  {
    var k := cfg.norm(first.tag);
    InitReachable(cfg);
    hide Reachable, IsListOf;
    var s := RefreshOne(cfg, Init(0), first, images);
    s := Take(cfg, s, Lookup(0, k));
    s := RefreshOne(cfg, s, second, others);
    s := FillOne(cfg, s, digest);
    CacheAgreesWithLastRefresh(cfg, s);
    assert s.cache.imageByTag == map[k := first.(digest := digest)];
  }

  lemma InitReachable(cfg: Config)
    ensures Reachable(cfg, Init(0))
  {
    assert IsRun(cfg, Init(0), []) && After(cfg, Init(0), []) == Init(0);
  }

  /** A digest in the cache stays until the next refresh: only Store replaces an entry that has one. */
  lemma {:induction false} DigestStays(cfg: Config, s: State, steps: seq<Step>, k: string)
    requires IsRun(cfg, s, steps)
    requires forall i :: 0 <= i < |steps| ==> !steps[i].Store?
    requires k in s.cache.imageByTag && s.cache.imageByTag[k].digest != ""
    ensures var after := After(cfg, s, steps).cache.imageByTag;
            k in after && after[k] == s.cache.imageByTag[k]
    decreases |steps|
  {
    hide IsListOf, IsFresh;
    if steps != [] {
      DigestStays(cfg, Apply(cfg, s, steps[0]), steps[1..], k);
    }
  }

  // ---------------------------------------------------------------------------------------
  // What a fetch comes back with
  // ---------------------------------------------------------------------------------------

  /** The images of one repository have no digest yet. */
  ghost predicate AreTagsOf(images: seq<Image>, repository: string, tags: seq<string>) {
    |images| == |tags| && forall i :: 0 <= i < |tags| ==> images[i] == Image(repository, tags[i], "")
  }

  /** `getImages`, for one repository. */
  method GetImages(repository: string, tags: Option<seq<string>>) returns (images: Option<seq<Image>>)
    ensures images.Some? <==> tags.Some?
    ensures images.Some? ==> AreTagsOf(images.value, repository, tags.value)
  {
    if tags.None? {
      return None;
    }
    var found := [];
    for i := 0 to |tags.value|
      invariant |found| == i && forall j :: 0 <= j < i ==> found[j] == Image(repository, tags.value[j], "")
    {
      found := found + [Image(repository, tags.value[i], "")];
    }
    images := Some(found);
  }

  /** The goroutines of `getImagesFromSeveralRepositories`, and the wait for them. */
  method FetchTags(repositories: seq<string>, tags: seq<Option<seq<string>>>, order: seq<nat>)
      returns (imagesByRepo: Option<seq<seq<Image>>>)
    requires |repositories| == |tags| == |order| && (forall k :: 0 <= k < |order| ==> order[k] < |tags|)
    requires forall i :: 0 <= i < |tags| ==> i in order
    ensures imagesByRepo.Some? <==> forall i :: 0 <= i < |tags| ==> tags[i].Some?
    ensures imagesByRepo.Some? ==>
              && |imagesByRepo.value| == |tags|
              && forall i :: 0 <= i < |tags| ==> AreTagsOf(imagesByRepo.value[i], repositories[i], tags[i].value)
  {
    var answers: seq<Option<seq<Image>>> := [];
    for i := 0 to |tags|
      invariant |answers| == i
      invariant forall j :: 0 <= j < i ==> (answers[j].Some? <==> tags[j].Some?)
      invariant forall j :: 0 <= j < i && tags[j].Some? ==> AreTagsOf(answers[j].value, repositories[j], tags[j].value)
    {
      var answer := GetImages(repositories[i], tags[i]);
      answers := answers + [answer];
    }
    imagesByRepo := FetchAll(answers, order);
  }

  /**
   * `getImagesFromSeveralRepositories`: `tags[i]` is the registry's answer for repository i, `order`
   * that in which the goroutines finish, `traverse` how the map is iterated. A tag is under its
   * normal form, spelled and attributed as where it comes first, and without a digest. So this is
   * what the step `Fetch` may give.
   */
  method FetchRepositories(cfg: Config, repositories: seq<string>, tags: seq<Option<seq<string>>>, order: seq<nat>,
                           traverse: set<string> -> seq<string>)
      returns (imageByTag: Option<ImageMap>, images: seq<Image>)
    requires |repositories| == |tags| == |order| && (forall k :: 0 <= k < |order| ==> order[k] < |tags|)
    requires forall i :: 0 <= i < |tags| ==> i in order
    requires forall keys :: IsOrder(traverse(keys), keys)
    requires forall i, j :: 0 <= i < j < |cfg.heads| ==> cfg.heads[i] != cfg.heads[j]
    ensures imageByTag.Some? <==> forall i :: 0 <= i < |tags| ==> tags[i].Some?
    ensures imageByTag.Some? ==>
              forall i, j | 0 <= i < |tags| && 0 <= j < |tags[i].value| ::
                var key := cfg.norm(tags[i].value[j]);
                && key in imageByTag.value
                && ((forall p, q | 0 <= p <= i && 0 <= q < |tags[p].value| && (p < i || q < j) ::
                       cfg.norm(tags[p].value[q]) != key)
                    ==> imageByTag.value[key] == Image(repositories[i], tags[i].value[j], ""))
    ensures imageByTag.Some? ==>
              forall key :: key in imageByTag.value ==>
                exists i, j :: 0 <= i < |tags| && 0 <= j < |tags[i].value| && cfg.norm(tags[i].value[j]) == key
                               && imageByTag.value[key] == Image(repositories[i], tags[i].value[j], "")
    ensures imageByTag.Some? ==> IsFresh(imageByTag.value, cfg.norm) && IsListOf(cfg, imageByTag.value, images)
  {
    hide IsOrder, IsListed;
    var slots := FetchTags(repositories, tags, order);
    imageByTag, images := None, [];
    if slots.None? {
      return;
    }
    var merged := Merge(slots.value, cfg.norm);
    assert IsFresh(merged, cfg.norm);
    hide IsFresh;
    var sorted, _ := SortWith(merged, cfg.heads, cfg.dropped, traverse);
    imageByTag, images := Some(merged), sorted;
  }

  // ---------------------------------------------------------------------------------------
  // The object
  // ---------------------------------------------------------------------------------------

  /** `Cache`. Each method is one critical section, as in the steps above. */
  class Cache {
    const expiration: nat
    const norm: Normalizer
    var imageByTag: ImageMap
    var images: seq<Image>
    var updatedAt: int
    var updating: bool

    ghost function View(): Fields
      reads this
    {
      Fields(imageByTag, images, updatedAt, updating)
    }

    constructor (expiration: nat, norm: Normalizer, zeroTime: int)
      ensures this.expiration == expiration && this.norm == norm && View() == Init(zeroTime).cache
    {
      this.expiration, this.norm := expiration, norm;
      imageByTag, images, updatedAt, updating := map[], [], zeroTime, false;
    }

    /** `now` is the time; `launched` says that the caller starts an update. */
    method UpdateIfExpired(now: int) returns (launched: bool)
      modifies `updating
      ensures launched <==> now >= old(updatedAt) + expiration && !old(updating)
      ensures launched <==> Launches(old(View()), now, expiration)
      ensures View() == old(View()).(updating := launched || old(updating))
    {
      if now - updatedAt < expiration {
        return false;
      }
      if updating {
        return false;
      }
      updating := true;
      launched := true;
    }

    /** The first critical section of `Find`: the image, and whether its digest is to be asked for. */
    method FindLookup(tag: string, now: int) returns (img: Option<Image>, ask: bool, launched: bool)
      modifies `updating
      ensures img == if norm(tag) in imageByTag then Some(imageByTag[norm(tag)]) else None
      ensures ask <==> img.Some? && img.value.digest == ""
      ensures launched <==> now >= old(updatedAt) + expiration && !old(updating)
      ensures View() == old(View()).(updating := launched || old(updating))
    {
      var key := norm(tag);
      img := if key in imageByTag then Some(imageByTag[key]) else None;
      launched := UpdateIfExpired(now);
      ask := img.Some? && img.value.digest == "";
    }

    /** The second critical section of `Find`. */
    method FindFill(key: string, img: Image)
      modifies `imageByTag
      ensures View() == old(View()).(imageByTag := Filled(old(imageByTag), key, img))
      ensures forall k :: k in imageByTag <==> k in old(imageByTag)
      ensures forall k :: k in imageByTag ==>
                imageByTag[k] == if k == key && old(imageByTag)[k].repository == img.repository
                                    && old(imageByTag)[k].digest == ""
                                 then img else old(imageByTag)[k]
    {
      if key in imageByTag {
        var cur := imageByTag[key];
        if cur.repository == img.repository && cur.digest == "" {
          imageByTag := imageByTag[key := img];
        }
      }
    }

    /** `fetchAndStore`: what was fetched is stored in one critical section; a failed fetch changes nothing. */
    method FetchAndStore(fetched: Option<ImageMap>, listed: seq<Image>, now: int) returns (ok: bool)
      modifies `imageByTag, `images, `updatedAt
      ensures ok <==> fetched.Some?
      ensures View() == if ok then Fields(fetched.value, listed, now, old(updating)) else old(View())
    {
      if fetched.None? {
        return false;
      }
      updatedAt := now;
      images := listed;
      imageByTag := fetched.value;
      ok := true;
    }

    /** `asyncUpdate`, undisturbed: the flag is free again however the fetch came out. */
    method AsyncUpdate(fetched: Option<ImageMap>, listed: seq<Image>, now: int)
      modifies this
      ensures !updating
      ensures View() == (if fetched.Some? then Fields(fetched.value, listed, now, false)
                         else old(View()).(updating := false))
    {
      var _ := FetchAndStore(fetched, listed, now);
      updating := false;
    }
  }
}
