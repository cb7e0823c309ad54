/**
 * internal/qrunner/dockerengine/prewarmer.go and container.go: the set of warm containers as a
 * transition system. The worker stores new containers and ejects old ones; each container has a
 * goroutine that pauses it after a while; any number of requests fetch containers and unpause
 * them. One step is one critical section of the prewarmer's lock, or one operation under the lock
 * of a container.
 */
module WarmContainers {
  import opened Options

  // ---------------------------------------------------------------------------------------
  // The state
  // ---------------------------------------------------------------------------------------

  datatype Status = StatusRunning | StatusPaused | StatusFetched

  /** Who holds the lock of a container. */
  datatype Holder = Pauser | Fetcher(fetch: nat)

  /** Sleeping; in the critical section; `pauseContainer` has returned without error; done. */
  datatype PauserPhase = Sleeping | Locked | PauseReturned | Finished

  /** `containerState`, its lock, and the goroutine that pauses it. `fetch`, history: who got it. */
  datatype Container = Container(imageFQN: string, createdAt: int, status: Status, lock: Option<Holder>,
                                 pauser: PauserPhase, fetch: Option<nat>)

  /**
   * A call of `Fetch`: it has taken `id` out of the map; it holds the lock; the engine work is
   * done with or without error; it has returned the id, an error, or that there was none.
   */
  datatype Fetch =
    | Extracted(id: string)
    | Holding(id: string)
    | EngineDone(id: string, ok: bool)
    | Found(id: string)
    | Failed(id: string)
    | Miss

  /**
   * `warm` is the map of the prewarmer, `paused` the containers the engine has paused. History:
   * `ejected`, `orphaned` (created, but not stored), and `phantom`, the containers that a pause
   * reported as failed did pause.
   */
  datatype State = State(warm: map<string, string>, all: map<string, Container>, fetches: map<nat, Fetch>,
                         paused: set<string>, ejected: set<string>, orphaned: set<string>, phantom: set<string>,
                         now: int)

  datatype Step =
    | Store(imageFQN: string, id: string, later: int, victim: string)  // runContainer under the lock
    | LockToPause(id: string)                        // the pausing goroutine wakes up
    | FindNotRunning(id: string)                     // container.status != statusRunning
    | PauseEngine(id: string, ok: bool, effect: bool)    // pauseContainer
    | SetPaused(id: string)                          // setStatus(statusPaused)
    | Extract(f: nat, imageFQN: string)              // extractContainer
    | LockToFetch(f: nat)                            // unpauseIfNecessary
    | FindRunning(f: nat)                            // c.status == statusRunning
    | UnpauseEngine(f: nat, ok: bool, effect: bool)  // unpauseContainer
    | SetFetched(f: nat)                             // defer c.setStatus(statusFetched)
    | Tick(now: int)

  /** `ejectContainer` at time `now` can choose `imageFQN`: it has the oldest of the containers. */
  ghost predicate IsOldest(warm: map<string, string>, all: map<string, Container>, now: int, imageFQN: string) {
    && imageFQN in warm && warm[imageFQN] in all && all[warm[imageFQN]].createdAt < now
    && forall other :: other in warm && warm[other] in all ==>
         all[warm[imageFQN]].createdAt <= all[warm[other]].createdAt
  }

  function Created(imageFQN: string, now: int): Container {
    Container(imageFQN, now, StatusRunning, None, Sleeping, None)
  }

  ghost predicate HasPauser(s: State, id: string, phase: PauserPhase) {
    id in s.all && s.all[id].pauser == phase
  }

  ghost predicate HoldsLock(s: State, f: nat) {
    f in s.fetches && s.fetches[f].Holding? && s.fetches[f].id in s.all
  }

  ghost predicate Enabled(maxWarm: nat, s: State, step: Step) {
    match step
    case Store(imageFQN, id, later, victim) =>
      // The engine gives fresh ids; the clock has moved past the oldest container to eject.
      && id !in s.all && id !in s.orphaned && later >= s.now
      && (imageFQN !in s.warm && |s.warm| + 1 > maxWarm ==>
            IsOldest(s.warm[imageFQN := id], s.all[id := Created(imageFQN, s.now)], later, victim))
    case LockToPause(id) => HasPauser(s, id, Sleeping) && s.all[id].lock.None?
    case FindNotRunning(id) => HasPauser(s, id, Locked) && !s.all[id].status.StatusRunning?
    case PauseEngine(id, ok, effect) => HasPauser(s, id, Locked) && s.all[id].status.StatusRunning? && (ok ==> effect)
    case SetPaused(id) => HasPauser(s, id, PauseReturned)
    case Extract(f, imageFQN) => f !in s.fetches && (imageFQN in s.warm ==> s.warm[imageFQN] in s.all)
    case LockToFetch(f) => f in s.fetches && s.fetches[f].Extracted? && s.fetches[f].id in s.all
                           && s.all[s.fetches[f].id].lock.None?
    case FindRunning(f) => HoldsLock(s, f) && s.all[s.fetches[f].id].status.StatusRunning?
    case UnpauseEngine(f, ok, effect) =>
      HoldsLock(s, f) && !s.all[s.fetches[f].id].status.StatusRunning? && (ok ==> effect)
    case SetFetched(f) => f in s.fetches && s.fetches[f].EngineDone? && s.fetches[f].id in s.all
    case Tick(now) => now >= s.now
  }

  function With(s: State, id: string, c: Container): map<string, Container> { s.all[id := c] }

  ghost function Apply(maxWarm: nat, s: State, step: Step): State
    requires Enabled(maxWarm, s, step)
  {
    match step
    case Store(imageFQN, id, later, victim) =>
      if imageFQN in s.warm then s.(orphaned := s.orphaned + {id}, now := later)
      else
        var warm, all := s.warm[imageFQN := id], s.all[id := Created(imageFQN, s.now)];
        if |warm| > maxWarm then
          s.(warm := warm - {victim}, all := all, ejected := s.ejected + {warm[victim]}, now := later)
        else s.(warm := warm, all := all, now := later)
    case LockToPause(id) => s.(all := With(s, id, s.all[id].(lock := Some(Pauser), pauser := Locked)))
    case FindNotRunning(id) => s.(all := With(s, id, s.all[id].(lock := None, pauser := Finished)))
    case PauseEngine(id, ok, effect) =>
      s.(all := With(s, id, if ok then s.all[id].(pauser := PauseReturned)
                            else s.all[id].(lock := None, pauser := Finished)),
         paused := if effect then s.paused + {id} else s.paused,
         phantom := if effect && !ok then s.phantom + {id} else s.phantom)
    case SetPaused(id) => s.(all := With(s, id, s.all[id].(status := StatusPaused, lock := None, pauser := Finished)))
    case Extract(f, imageFQN) =>
      if imageFQN !in s.warm then s.(fetches := s.fetches[f := Miss])
      else
        var id := s.warm[imageFQN];
        s.(warm := s.warm - {imageFQN}, all := With(s, id, s.all[id].(fetch := Some(f))),
           fetches := s.fetches[f := Extracted(id)])
    case LockToFetch(f) =>
      var id := s.fetches[f].id;
      s.(all := With(s, id, s.all[id].(lock := Some(Fetcher(f)))), fetches := s.fetches[f := Holding(id)])
    case FindRunning(f) => s.(fetches := s.fetches[f := EngineDone(s.fetches[f].id, true)])
    case UnpauseEngine(f, ok, effect) =>
      var id := s.fetches[f].id;
      s.(fetches := s.fetches[f := EngineDone(id, ok)], paused := if effect then s.paused - {id} else s.paused)
    case SetFetched(f) =>
      var id := s.fetches[f].id;
      s.(all := With(s, id, s.all[id].(status := StatusFetched, lock := None)),
         fetches := s.fetches[f := if s.fetches[f].ok then Found(id) else Failed(id)])
    case Tick(now) => s.(now := now)
  }

  function Init(now: int): State { State(map[], map[], map[], {}, {}, {}, {}, now) }

  ghost predicate IsRun(maxWarm: nat, s: State, steps: seq<Step>)
    decreases |steps|
  {
    steps == [] || (Enabled(maxWarm, s, steps[0]) && IsRun(maxWarm, Apply(maxWarm, s, steps[0]), steps[1..]))
  }

  ghost function After(maxWarm: nat, s: State, steps: seq<Step>): State
    requires IsRun(maxWarm, s, steps)
    decreases |steps|
  {
    if steps == [] then s else After(maxWarm, Apply(maxWarm, s, steps[0]), steps[1..])
  }

  ghost predicate Reachable(maxWarm: nat, s: State) {
    exists now, steps :: IsRun(maxWarm, Init(now), steps) && After(maxWarm, Init(now), steps) == s
  }

  // ---------------------------------------------------------------------------------------
  // The invariant
  // ---------------------------------------------------------------------------------------

  /** How far the fetch of a container has come; Miss when nobody has fetched it. */
  function FetchOf(s: State, id: string): Fetch
    requires id in s.all
  {
    if s.all[id].fetch.Some? && s.all[id].fetch.value in s.fetches then s.fetches[s.all[id].fetch.value] else Miss
  }

  /** A container is in one place: in the map under its image, ejected, or handed to a fetch. */
  ghost predicate PlaceOk(s: State, id: string)
    requires id in s.all
  {
    var c := s.all[id];
    && id !in s.orphaned
    && (id in s.ejected ==> c.fetch.None? && (c.imageFQN in s.warm ==> s.warm[c.imageFQN] != id))
    && (c.fetch.Some? ==> c.imageFQN in s.warm ==> s.warm[c.imageFQN] != id)
    && (c.fetch.Some? ==> c.fetch.value in s.fetches && FetchOf(s, id) != Miss && FetchOf(s, id).id == id)
  }

  /** The lock has the holder that the program counters say it has. */
  ghost predicate LockOk(c: Container, f: Fetch) {
    && (c.pauser.Locked? || c.pauser.PauseReturned? <==> c.lock == Some(Pauser))
    && (f.Holding? || f.EngineDone? <==> c.lock.Some? && c.lock.value.Fetcher?)
  }

  /** How the status, the engine and the two program counters of a container go together. */
  ghost predicate PauseOk(c: Container, f: Fetch, paused: bool, phantom: bool) {
    && (phantom ==> paused && !c.status.StatusPaused? && c.pauser.Finished?)
    && (c.pauser.Sleeping? || c.pauser.Locked? ==> !paused && !c.status.StatusPaused?)
    && (c.pauser.PauseReturned? ==> paused && !phantom && c.status.StatusRunning?)
    && (c.pauser.Finished? && c.status.StatusRunning? ==> (paused <==> phantom))
    && (c.status.StatusPaused? && !f.EngineDone? ==> paused)
    && (c.status.StatusFetched? <==> f.Found? || f.Failed?)
    && (f.Found? || (f.EngineDone? && f.ok) ==> (paused <==> phantom))
  }

  ghost predicate ContainerOk(s: State, id: string)
    requires id in s.all
  {
    && PlaceOk(s, id)
    && LockOk(s.all[id], FetchOf(s, id))
    && PauseOk(s.all[id], FetchOf(s, id), id in s.paused, id in s.phantom)
  }

  ghost predicate WarmOk(s: State, imageFQN: string)
    requires imageFQN in s.warm
  {
    && s.warm[imageFQN] in s.all
    && s.all[s.warm[imageFQN]].imageFQN == imageFQN && s.all[s.warm[imageFQN]].createdAt <= s.now
  }

  ghost predicate FetchOk(s: State, f: nat)
    requires f in s.fetches
  {
    s.fetches[f].Miss? || (s.fetches[f].id in s.all && s.all[s.fetches[f].id].fetch == Some(f))
  }

  ghost predicate Inv(maxWarm: nat, s: State) {
    && (forall id :: id in s.all ==> ContainerOk(s, id))
    && (forall imageFQN :: imageFQN in s.warm ==> WarmOk(s, imageFQN))
    && (forall f :: f in s.fetches ==> FetchOk(s, f))
    && s.ejected <= s.all.Keys && s.paused <= s.all.Keys && s.phantom <= s.all.Keys
    && |s.warm| <= maxWarm
  }

  /** The container a step of a pausing goroutine or of a fetch past `extractContainer` works on. */
  ghost function Target(s: State, step: Step): string {
    match step
    case LockToPause(id) => id
    case FindNotRunning(id) => id
    case PauseEngine(id, _, _) => id
    case SetPaused(id) => id
    case LockToFetch(f) => IdOf(s, f)
    case FindRunning(f) => IdOf(s, f)
    case UnpauseEngine(f, _, _) => IdOf(s, f)
    case SetFetched(f) => IdOf(s, f)
    case _ => ""
  }

  ghost function IdOf(s: State, f: nat): string {
    if f in s.fetches && !s.fetches[f].Miss? then s.fetches[f].id else ""
  }

  predicate IsPauserStep(step: Step) {
    step.LockToPause? || step.FindNotRunning? || step.PauseEngine? || step.SetPaused?
  }

  predicate IsFetcherStep(step: Step) {
    step.LockToFetch? || step.FindRunning? || step.UnpauseEngine? || step.SetFetched?
  }

  /** A step on one container leaves the others as they were. */
  lemma OthersStayOk(maxWarm: nat, s: State, step: Step, id: string)
    requires Inv(maxWarm, s) && Enabled(maxWarm, s, step)
    requires IsPauserStep(step) || IsFetcherStep(step)
    requires id in s.all && id != Target(s, step)
    ensures id in Apply(maxWarm, s, step).all && ContainerOk(Apply(maxWarm, s, step), id)
  {
    hide LockOk, PauseOk, WarmOk, IsOldest;
    assert ContainerOk(s, id);
    assert IsFetcherStep(step) ==> FetchOk(s, step.f);
    assert FetchOf(Apply(maxWarm, s, step), id) == FetchOf(s, id);
  }

  lemma PauserKeeps(maxWarm: nat, s: State, step: Step)
    requires Inv(maxWarm, s) && Enabled(maxWarm, s, step) && IsPauserStep(step)
    ensures ContainerOk(Apply(maxWarm, s, step), step.id)
  {
    hide WarmOk, FetchOk, IsOldest;
    assert ContainerOk(s, step.id);
    assert FetchOf(Apply(maxWarm, s, step), step.id) == FetchOf(s, step.id);
  }

  lemma FetcherKeeps(maxWarm: nat, s: State, step: Step)
    requires Inv(maxWarm, s) && Enabled(maxWarm, s, step) && IsFetcherStep(step)
    ensures var id := s.fetches[step.f].id;
            ContainerOk(Apply(maxWarm, s, step), id)
  {
    hide WarmOk, IsOldest;
    assert FetchOk(s, step.f);
    var id := s.fetches[step.f].id;
    assert ContainerOk(s, id);
    assert FetchOf(s, id) == s.fetches[step.f];
    assert FetchOf(Apply(maxWarm, s, step), id) == Apply(maxWarm, s, step).fetches[step.f];
  }

  lemma StoreKeepsOthers(maxWarm: nat, s: State, step: Step, id: string)
    requires Inv(maxWarm, s) && Enabled(maxWarm, s, step) && step.Store?
    requires id in s.all
    ensures id in Apply(maxWarm, s, step).all && ContainerOk(Apply(maxWarm, s, step), id)
  {
    assert step.imageFQN !in s.warm && |s.warm| + 1 > maxWarm ==> step.victim in s.warm[step.imageFQN := step.id];
    hide LockOk, PauseOk, IsOldest, FetchOk;
    assert ContainerOk(s, id);
    assert step.victim in s.warm ==> WarmOk(s, step.victim) && ContainerOk(s, s.warm[step.victim]);
    assert FetchOf(Apply(maxWarm, s, step), id) == FetchOf(s, id);
  }

  lemma StoreKeeps(maxWarm: nat, s: State, step: Step, id: string)
    requires Inv(maxWarm, s) && Enabled(maxWarm, s, step) && step.Store?
    requires id in Apply(maxWarm, s, step).all
    ensures ContainerOk(Apply(maxWarm, s, step), id)
  {
    if id in s.all {
      StoreKeepsOthers(maxWarm, s, step, id);
    } else {
      assert forall imageFQN :: imageFQN in s.warm ==> WarmOk(s, imageFQN);
    }
  }

  lemma ExtractKeeps(maxWarm: nat, s: State, step: Step, id: string)
    requires Inv(maxWarm, s) && Enabled(maxWarm, s, step) && step.Extract?
    requires id in Apply(maxWarm, s, step).all
    ensures ContainerOk(Apply(maxWarm, s, step), id)
  {
    hide FetchOk, IsOldest;
    assert ContainerOk(s, id);
    assert step.imageFQN in s.warm ==> WarmOk(s, step.imageFQN) && ContainerOk(s, s.warm[step.imageFQN]);
  }

  lemma ContainersStayOk(maxWarm: nat, s: State, step: Step, id: string)
    requires Inv(maxWarm, s) && Enabled(maxWarm, s, step) && id in Apply(maxWarm, s, step).all
    ensures ContainerOk(Apply(maxWarm, s, step), id)
  {
    if IsPauserStep(step) || IsFetcherStep(step) {
      if id != Target(s, step) {
        OthersStayOk(maxWarm, s, step, id);
      } else if IsPauserStep(step) {
        PauserKeeps(maxWarm, s, step);
      } else {
        FetcherKeeps(maxWarm, s, step);
      }
    } else if step.Store? {
      StoreKeeps(maxWarm, s, step, id);
    } else if step.Extract? {
      ExtractKeeps(maxWarm, s, step, id);
    } else {
      assert ContainerOk(s, id);
      assert FetchOf(Apply(maxWarm, s, step), id) == FetchOf(s, id);
    }
  }

  lemma WarmStaysOk(maxWarm: nat, s: State, step: Step, imageFQN: string)
    requires Inv(maxWarm, s) && Enabled(maxWarm, s, step) && imageFQN in Apply(maxWarm, s, step).warm
    ensures WarmOk(Apply(maxWarm, s, step), imageFQN)
  {
    hide ContainerOk, FetchOk, IsOldest;
    assert imageFQN in s.warm ==> WarmOk(s, imageFQN);
  }

  lemma ExtractKeepsFetches(maxWarm: nat, s: State, step: Step, f: nat)
    requires Inv(maxWarm, s) && Enabled(maxWarm, s, step) && step.Extract?
    requires f in Apply(maxWarm, s, step).fetches
    ensures FetchOk(Apply(maxWarm, s, step), f)
  {
    hide LockOk, PauseOk;
    assert f in s.fetches ==> FetchOk(s, f);
    assert step.imageFQN in s.warm ==> WarmOk(s, step.imageFQN) && ContainerOk(s, s.warm[step.imageFQN]);
  }

  /** Only `extractContainer` decides who gets a container. */
  lemma HandOverStays(maxWarm: nat, s: State, step: Step, id: string)
    requires Enabled(maxWarm, s, step) && !step.Extract? && id in s.all
    ensures id in Apply(maxWarm, s, step).all && Apply(maxWarm, s, step).all[id].fetch == s.all[id].fetch
  {
    hide IsOldest;
  }

  lemma FetchKeepsId(maxWarm: nat, s: State, step: Step, f: nat)
    requires Enabled(maxWarm, s, step) && !step.Extract? && f in Apply(maxWarm, s, step).fetches
    ensures f in s.fetches && (s.fetches[f].Miss? <==> Apply(maxWarm, s, step).fetches[f].Miss?)
    ensures !s.fetches[f].Miss? ==> Apply(maxWarm, s, step).fetches[f].id == s.fetches[f].id
  {
    hide IsOldest;
  }

  lemma FetchesStayOk(maxWarm: nat, s: State, step: Step, f: nat)
    requires Inv(maxWarm, s) && Enabled(maxWarm, s, step) && f in Apply(maxWarm, s, step).fetches
    ensures FetchOk(Apply(maxWarm, s, step), f)
  {
    if step.Extract? {
      ExtractKeepsFetches(maxWarm, s, step, f);
    } else {
      hide Apply, Enabled, ContainerOk, WarmOk;
      FetchKeepsId(maxWarm, s, step, f);
      assert FetchOk(s, f);
      if !s.fetches[f].Miss? {
        HandOverStays(maxWarm, s, step, s.fetches[f].id);
      }
    }
  }

  lemma SizesStayOk(maxWarm: nat, s: State, step: Step)
    requires Inv(maxWarm, s) && Enabled(maxWarm, s, step)
    ensures var s' := Apply(maxWarm, s, step);
            s'.ejected <= s'.all.Keys && s'.paused <= s'.all.Keys && s'.phantom <= s'.all.Keys && |s'.warm| <= maxWarm
  {
    hide ContainerOk;
    assert step.Store? && step.victim in s.warm ==> WarmOk(s, step.victim);
    if step.Store? && step.imageFQN !in s.warm {
      var warm := s.warm[step.imageFQN := step.id];
      assert |warm| == |s.warm| + 1;
      assert step.victim in warm ==> |warm - {step.victim}| == |warm| - 1;
    }
  }

  lemma StepKeepsInv(maxWarm: nat, s: State, step: Step)
    requires Inv(maxWarm, s) && Enabled(maxWarm, s, step)
    ensures Inv(maxWarm, Apply(maxWarm, s, step))
  {
    hide ContainerOk, WarmOk, FetchOk;
    var s' := Apply(maxWarm, s, step);
    forall id | id in s'.all
      ensures ContainerOk(s', id)
    {
      ContainersStayOk(maxWarm, s, step, id);
    }
    forall imageFQN | imageFQN in s'.warm
      ensures WarmOk(s', imageFQN)
    {
      WarmStaysOk(maxWarm, s, step, imageFQN);
    }
    forall f | f in s'.fetches
      ensures FetchOk(s', f)
    {
      FetchesStayOk(maxWarm, s, step, f);
    }
    SizesStayOk(maxWarm, s, step);
  }

  lemma {:induction false} RunKeepsInv(maxWarm: nat, s: State, steps: seq<Step>)
    requires Inv(maxWarm, s) && IsRun(maxWarm, s, steps)
    ensures Inv(maxWarm, After(maxWarm, s, steps))
    decreases |steps|
  {
    hide Inv, Apply, Enabled;
    if steps != [] {
      StepKeepsInv(maxWarm, s, steps[0]);
      RunKeepsInv(maxWarm, Apply(maxWarm, s, steps[0]), steps[1..]);
    }
  }

  lemma ReachableOk(maxWarm: nat, s: State)
    requires Reachable(maxWarm, s)
    ensures Inv(maxWarm, s)
  {
    hide ContainerOk, WarmOk, FetchOk;
    var now, steps :| IsRun(maxWarm, Init(now), steps) && After(maxWarm, Init(now), steps) == s;
    RunKeepsInv(maxWarm, Init(now), steps);
  }

  // ---------------------------------------------------------------------------------------
  // Main results
  // ---------------------------------------------------------------------------------------

  /** The call `f` has, or will hand over, the container `id`. */
  predicate HandedTo(s: State, f: nat, id: string) {
    f in s.fetches && !s.fetches[f].Miss? && s.fetches[f].id == id
  }

  /**
   * Every container is in at most one place: in the map, once and under its own image; with
   * exactly one fetch; ejected; or never stored at all.
   */
  lemma HandOutIsExclusive(maxWarm: nat, s: State, id: string)
    requires Reachable(maxWarm, s)
    ensures forall f, g :: HandedTo(s, f, id) && HandedTo(s, g, id) ==> f == g
    ensures forall a, b :: a in s.warm && b in s.warm && s.warm[a] == id == s.warm[b] ==> a == b
    ensures (exists f :: HandedTo(s, f, id)) ==> id !in s.warm.Values && id !in s.ejected && id !in s.orphaned
    ensures id in s.warm.Values ==> id !in s.ejected && id !in s.orphaned
    ensures id in s.ejected ==> id !in s.orphaned
  {
    ReachableOk(maxWarm, s);
    hide LockOk, PauseOk;
    assert id in s.all ==> ContainerOk(s, id);
    assert forall f :: f in s.fetches ==> FetchOk(s, f);
    assert forall a :: a in s.warm ==> WarmOk(s, a);
  }

  /** What a call of `Fetch` takes out of the map was created for the image asked for, and nobody else has it. */
  lemma ExtractedIsOfImage(maxWarm: nat, s: State, f: nat, imageFQN: string)
    requires Reachable(maxWarm, s) && Enabled(maxWarm, s, Extract(f, imageFQN)) && imageFQN in s.warm
    ensures var s' := Apply(maxWarm, s, Extract(f, imageFQN));
            && HandedTo(s', f, s.warm[imageFQN]) && s.warm[imageFQN] in s'.all
            && s'.all[s.warm[imageFQN]].imageFQN == imageFQN
            && forall g :: HandedTo(s', g, s.warm[imageFQN]) ==> g == f
  {
    ReachableOk(maxWarm, s);
    assert WarmOk(s, imageFQN);
    ReachableStep(maxWarm, s, Extract(f, imageFQN));
    hide Reachable;
    HandOutIsExclusive(maxWarm, Apply(maxWarm, s, Extract(f, imageFQN)), s.warm[imageFQN]);
  }

  /**
   * Nobody is stuck at a lock: it is free, and then whoever waits for it can take it, or its one
   * holder can go on, however the engine answers.
   */
  lemma LocksAreGivenBack(maxWarm: nat, s: State, id: string, ok: bool, effect: bool)
    requires Reachable(maxWarm, s) && id in s.all && (ok ==> effect)
    ensures s.all[id].lock.None? ==>
              && (s.all[id].pauser.Sleeping? ==> Enabled(maxWarm, s, LockToPause(id)))
              && (s.all[id].pauser.Sleeping? || s.all[id].pauser.Finished?)
              && forall f :: f in s.fetches && s.fetches[f] == Extracted(id) ==> Enabled(maxWarm, s, LockToFetch(f))
    ensures s.all[id].lock == Some(Pauser) ==>
              || Enabled(maxWarm, s, FindNotRunning(id)) || Enabled(maxWarm, s, PauseEngine(id, ok, effect))
              || Enabled(maxWarm, s, SetPaused(id))
    ensures s.all[id].lock.Some? && s.all[id].lock.value.Fetcher? ==>
              exists f :: HandedTo(s, f, id)
                          && (Enabled(maxWarm, s, FindRunning(f)) || Enabled(maxWarm, s, UnpauseEngine(f, ok, effect))
                              || Enabled(maxWarm, s, SetFetched(f)))
  {
    ReachableOk(maxWarm, s);
    hide Reachable, IsOldest;
    if s.all[id].lock.Some? && s.all[id].lock.value.Fetcher? {
      FetcherGoesOn(maxWarm, s, id, ok, effect);
    } else {
      assert ContainerOk(s, id);
      hide WarmOk, PauseOk;
    }
  }

  lemma FetcherGoesOn(maxWarm: nat, s: State, id: string, ok: bool, effect: bool)
    requires Inv(maxWarm, s) && id in s.all && (ok ==> effect)
    requires s.all[id].lock.Some? && s.all[id].lock.value.Fetcher?
    ensures exists f :: HandedTo(s, f, id)
                        && (Enabled(maxWarm, s, FindRunning(f)) || Enabled(maxWarm, s, UnpauseEngine(f, ok, effect))
                            || Enabled(maxWarm, s, SetFetched(f)))
  {
    assert ContainerOk(s, id);
    hide WarmOk, IsOldest, PauseOk;
    var f := s.all[id].fetch.value;
    assert HandedTo(s, f, id);
  }

  /** The map never holds more containers than configured when the lock is released. */
  lemma CapacityIsKept(maxWarm: nat, s: State)
    requires Reachable(maxWarm, s)
    ensures |s.warm| <= maxWarm
  {
    ReachableOk(maxWarm, s);
  }

  /** A container that is ejected from a full map is as old as any in it, the new one included. */
  lemma OldestIsEjected(maxWarm: nat, s: State, step: Step)
    requires Reachable(maxWarm, s) && Enabled(maxWarm, s, step) && step.Store?
    requires step.imageFQN !in s.warm && |s.warm| == maxWarm
    ensures var s', warm := Apply(maxWarm, s, step), s.warm[step.imageFQN := step.id];
            && step.victim in warm && s'.warm == warm - {step.victim} && s'.ejected == s.ejected + {warm[step.victim]}
            && warm[step.victim] in s'.all
            && forall f :: f in warm ==>
                 warm[f] in s'.all && s'.all[warm[step.victim]].createdAt <= s'.all[warm[f]].createdAt
  {
    hide Inv;
    ReachableOk(maxWarm, s);
    hide Reachable;
    var warm := s.warm[step.imageFQN := step.id];
    assert warm.Keys == s.warm.Keys + {step.imageFQN};
    forall f | f in warm
      ensures warm[f] in s.all || f == step.imageFQN
    {
      assert Inv(maxWarm, s);
      if f != step.imageFQN { WarmIsThere(maxWarm, s, f); }
    }
  }

  lemma WarmIsThere(maxWarm: nat, s: State, imageFQN: string)
    requires Inv(maxWarm, s) && imageFQN in s.warm
    ensures s.warm[imageFQN] in s.all
  {
    assert WarmOk(s, imageFQN);
  }

  /** Nothing is ejected while the map has room, nor when there is a container for the image already. */
  lemma NothingElseIsEjected(maxWarm: nat, s: State, step: Step)
    requires Reachable(maxWarm, s) && Enabled(maxWarm, s, step)
    requires step.Store? && step.imageFQN !in s.warm ==> |s.warm| < maxWarm
    ensures Apply(maxWarm, s, step).ejected == s.ejected
    ensures step.Store? && step.imageFQN !in s.warm ==> Apply(maxWarm, s, step).warm == s.warm[step.imageFQN := step.id]
    ensures step.Store? && step.imageFQN in s.warm ==>
              Apply(maxWarm, s, step).warm == s.warm && step.id in Apply(maxWarm, s, step).orphaned
  {
    if step.Store? && step.imageFQN !in s.warm {
      assert s.warm[step.imageFQN := step.id].Keys == s.warm.Keys + {step.imageFQN};
    }
    hide IsOldest;
  }

  lemma StepKeepsFound(maxWarm: nat, s: State, step: Step, f: nat)
    requires Enabled(maxWarm, s, step) && f in s.fetches && s.fetches[f].Found?
    ensures f in Apply(maxWarm, s, step).fetches && Apply(maxWarm, s, step).fetches[f] == s.fetches[f]
  {
    hide IsOldest;
  }

  /** A container returned as found stays with the call that found it. */
  lemma {:induction false} FoundStays(maxWarm: nat, s: State, steps: seq<Step>, f: nat)
    requires IsRun(maxWarm, s, steps) && f in s.fetches && s.fetches[f].Found?
    ensures f in After(maxWarm, s, steps).fetches && After(maxWarm, s, steps).fetches[f] == s.fetches[f]
    decreases |steps|
  {
    hide Apply, Enabled;
    if steps != [] {
      StepKeepsFound(maxWarm, s, steps[0], f);
      FoundStays(maxWarm, Apply(maxWarm, s, steps[0]), steps[1..], f);
    }
  }

  lemma {:induction false} RunConcat(maxWarm: nat, s: State, a: seq<Step>, b: seq<Step>)
    requires IsRun(maxWarm, s, a) && IsRun(maxWarm, After(maxWarm, s, a), b)
    ensures IsRun(maxWarm, s, a + b) && After(maxWarm, s, a + b) == After(maxWarm, After(maxWarm, s, a), b)
    decreases |a|
  {
    hide Apply, Enabled;
    if a == [] {
      assert a + b == b;
    } else {
      assert (a + b)[1..] == a[1..] + b;
      RunConcat(maxWarm, Apply(maxWarm, s, a[0]), a[1..], b);
    }
  }

  /**
   * Once `Fetch` has returned a container as found, it is unpaused then and at every later time,
   * whatever its pausing goroutine does, if and only if no pause that the engine reported as
   * failed had in fact paused it.
   */
  lemma FoundIsNeverPaused(maxWarm: nat, s: State, f: nat, steps: seq<Step>)
    requires Reachable(maxWarm, s) && f in s.fetches && s.fetches[f].Found?
    requires IsRun(maxWarm, s, steps)
    ensures var id, s' := s.fetches[f].id, After(maxWarm, s, steps);
            id !in s'.paused <==> id !in s'.phantom
  {
    hide Apply, Enabled, IsOldest, LockOk, WarmOk;
    var now, first :| IsRun(maxWarm, Init(now), first) && After(maxWarm, Init(now), first) == s;
    RunConcat(maxWarm, Init(now), first, steps);
    var s' := After(maxWarm, s, steps);
    assert Reachable(maxWarm, s');
    ReachableOk(maxWarm, s');
    FoundStays(maxWarm, s, steps, f);
    assert FetchOk(s', f);
    assert ContainerOk(s', s.fetches[f].id);
    assert FetchOf(s', s.fetches[f].id) == s.fetches[f];
  }

  lemma ReachableStep(maxWarm: nat, s: State, step: Step)
    requires Reachable(maxWarm, s) && Enabled(maxWarm, s, step)
    ensures Reachable(maxWarm, Apply(maxWarm, s, step))
  {
    hide Apply, Enabled;
    var now, steps :| IsRun(maxWarm, Init(now), steps) && After(maxWarm, Init(now), steps) == s;
    assert [step][1..] == [];
    RunConcat(maxWarm, Init(now), steps, [step]);
  }

  /** A pause that is reported as failed, yet took effect, leaves a paused container in the map. */
  lemma PhantomPause(maxWarm: nat, imageFQN: string, id: string) returns (s: State)
    requires maxWarm >= 1
    ensures Reachable(maxWarm, s) && s.warm == map[imageFQN := id] && s.fetches == map[] && s.paused == {id}
    ensures s.all == map[id := Container(imageFQN, 0, StatusRunning, None, Finished, None)]
  {
    hide Reachable;
    InitReachable(maxWarm, 0);
    s := Take(maxWarm, Init(0), Store(imageFQN, id, 0, imageFQN));
    s := Take(maxWarm, s, LockToPause(id));
    s := Take(maxWarm, s, PauseEngine(id, false, true));
  }

  /**
   * The condition of `FoundIsNeverPaused` matters, for every number of warm containers there can be:
   * such a pause surfaces after the fetch.
   */
  lemma PausedAfterFetch(maxWarm: nat, imageFQN: string, id: string)
    requires maxWarm >= 1
    ensures exists s :: Reachable(maxWarm, s) && HandedTo(s, 0, id) && s.fetches[0].Found? && id in s.paused
  {
    hide Reachable;
    var s := PhantomPause(maxWarm, imageFQN, id);
    s := Take(maxWarm, s, Extract(0, imageFQN));
    s := Take(maxWarm, s, LockToFetch(0));
    s := Take(maxWarm, s, FindRunning(0));
    s := Take(maxWarm, s, SetFetched(0));
  }

  lemma InitReachable(maxWarm: nat, now: int)
    ensures Reachable(maxWarm, Init(now))
  {
    assert IsRun(maxWarm, Init(now), []) && After(maxWarm, Init(now), []) == Init(now);
  }

  lemma Take(maxWarm: nat, s: State, step: Step) returns (s': State)
    requires Reachable(maxWarm, s) && Enabled(maxWarm, s, step)
    ensures s' == Apply(maxWarm, s, step) && Reachable(maxWarm, s')
  {
    ReachableStep(maxWarm, s, step);
    s' := Apply(maxWarm, s, step);
  }
}
