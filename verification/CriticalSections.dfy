/**
 * internal/qrunner/dockerengine/prewarmer.go: what the steps of module WarmContainers come to that
 * belong to one critical section of the code.
 */
module CriticalSections {
  import opened Options
  import opened WarmContainers

  /** Storing under the prewarmer's lock, in the terms of the code. */
  lemma StoreIsStep(maxWarm: nat, s: State, imageFQN: string, id: string, later: int, victim: string)
    requires id !in s.all && id !in s.orphaned && later >= s.now
    requires imageFQN !in s.warm && |s.warm| + 1 > maxWarm ==>
               IsOldest(s.warm[imageFQN := id], s.all[id := Created(imageFQN, s.now)], later, victim)
    ensures Enabled(maxWarm, s, Store(imageFQN, id, later, victim))
    ensures Apply(maxWarm, s, Store(imageFQN, id, later, victim)).warm
         == if imageFQN in s.warm then s.warm
            else if |s.warm| + 1 > maxWarm then s.warm[imageFQN := id] - {victim}
            else s.warm[imageFQN := id]
  {
    hide IsOldest;
  }

  // ---------------------------------------------------------------------------------------
  // Critical sections of a container's lock in one go
  // ---------------------------------------------------------------------------------------

  /** What the pausing goroutine leaves behind. */
  function AfterPause(status: Status, ok: bool): Status {
    if status.StatusRunning? && ok then StatusPaused else status
  }

  lemma RunCons(maxWarm: nat, s: State, step: Step, rest: seq<Step>)
    requires Enabled(maxWarm, s, step) && IsRun(maxWarm, Apply(maxWarm, s, step), rest)
    ensures IsRun(maxWarm, s, [step] + rest)
    ensures After(maxWarm, s, [step] + rest) == After(maxWarm, Apply(maxWarm, s, step), rest)
  {
    hide Apply, Enabled;
    assert ([step] + rest)[1..] == rest;
  }

  /** The steps of the pausing goroutine from taking the lock to releasing it, undisturbed. */
  lemma PauseInOneGo(maxWarm: nat, s: State, id: string, ok: bool, effect: bool) returns (steps: seq<Step>)
    requires Enabled(maxWarm, s, LockToPause(id)) && (ok ==> effect)
    ensures IsRun(maxWarm, s, steps)
    ensures After(maxWarm, s, steps).all
         == s.all[id := s.all[id].(status := AfterPause(s.all[id].status, ok), pauser := Finished)]
  {
    var s1 := Apply(maxWarm, s, LockToPause(id));
    if !s.all[id].status.StatusRunning? {
      RunCons(maxWarm, s1, FindNotRunning(id), []);
      RunCons(maxWarm, s, LockToPause(id), [FindNotRunning(id)] + []);
      return [LockToPause(id)] + ([FindNotRunning(id)] + []);
    }
    var s2 := Apply(maxWarm, s1, PauseEngine(id, ok, effect));
    var last: seq<Step> := [];
    if ok {
      RunCons(maxWarm, s2, SetPaused(id), []);
      last := [SetPaused(id)] + [];
    }
    RunCons(maxWarm, s1, PauseEngine(id, ok, effect), last);
    RunCons(maxWarm, s, LockToPause(id), [PauseEngine(id, ok, effect)] + last);
    return [LockToPause(id)] + ([PauseEngine(id, ok, effect)] + last);
  }

  /** The steps of a fetch from taking the lock to releasing it, undisturbed. */
  lemma FetchInOneGo(maxWarm: nat, s: State, f: nat, ok: bool, effect: bool) returns (steps: seq<Step>)
    requires Enabled(maxWarm, s, LockToFetch(f)) && (ok ==> effect)
    ensures IsRun(maxWarm, s, steps)
    ensures var id, s' := s.fetches[f].id, After(maxWarm, s, steps);
            && s'.all == s.all[id := s.all[id].(status := StatusFetched)]
            && s'.fetches == s.fetches[f := if s.all[id].status.StatusRunning? || ok then Found(id) else Failed(id)]
  {
    var s1 := Apply(maxWarm, s, LockToFetch(f));
    var step := if s.all[s.fetches[f].id].status.StatusRunning? then FindRunning(f) else UnpauseEngine(f, ok, effect);
    var s2 := Apply(maxWarm, s1, step);
    RunCons(maxWarm, s2, SetFetched(f), []);
    RunCons(maxWarm, s1, step, [SetFetched(f)] + []);
    RunCons(maxWarm, s, LockToFetch(f), [step] + ([SetFetched(f)] + []));
    return [LockToFetch(f)] + ([step] + ([SetFetched(f)] + []));
  }
}
