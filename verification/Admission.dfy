/**
 * internal/qrunner/coordinator: admission of jobs to runners, as a transition system. Jobs run
 * concurrently, each taking the steps of `processJob`; the liveness loop of the coordinator adds
 * and removes runners in between. One step is one critical section of the balancer's lock, one
 * atomic addition to a counter, or the return of the job's own function.
 */
module Admission {
  import opened Options

  // ---------------------------------------------------------------------------------------
  // What the steps share
  // ---------------------------------------------------------------------------------------

  /** `balancer.runners` (by name) and the `concurrency` counter of every runner. */
  datatype Pool = Pool(members: set<string>, concurrency: map<string, int>)

  /** Whether admitting one more job exhausts the limit: `concurrency >= *maxConcurrency`. */
  predicate Exhausts(pool: Pool, limit: Option<nat>, r: string)
    requires r in pool.concurrency
  {
    limit.Some? && pool.concurrency[r] + 1 >= limit.value
  }

  function AdmitTo(pool: Pool, limit: Option<nat>, r: string): Pool
    requires r in pool.concurrency
  {
    Pool(if Exhausts(pool, limit, r) then pool.members - {r} else pool.members,
         pool.concurrency[r := pool.concurrency[r] + 1])
  }

  function AddTo(pool: Pool, r: string): Pool { pool.(members := pool.members + {r}) }

  function RemoveFrom(pool: Pool, r: string): Pool { pool.(members := pool.members - {r}) }

  function ReleaseFrom(pool: Pool, r: string): Pool
    requires r in pool.concurrency
  {
    pool.(concurrency := pool.concurrency[r := pool.concurrency[r] - 1])
  }

  // ---------------------------------------------------------------------------------------
  // The transition system
  // ---------------------------------------------------------------------------------------

  /** The configured runners: weight, and limit if any. */
  datatype Config = Config(weight: map<string, nat>, limit: map<string, Option<nat>>)

  /** Running the job's function; returned but still to re-add the runner; only the counter left. */
  datatype Phase = Running | Returned | Leaving

  /** `excluded` is the local variable of `processJob`. */
  datatype Job = Job(runner: string, excluded: bool, phase: Phase)

  /**
   * `alive` is the flag the liveness loop sets. Two fields are history, read by no step: `minted`
   * counts the liveness inserts of a runner made while an excluding job had yet to re-add it, since
   * such jobs were last all done with that; `down` holds the runners whose last removal from the
   * balancer was by the liveness loop.
   */
  datatype State = State(pool: Pool, jobs: map<nat, Job>, alive: set<string>, minted: map<string, nat>,
                         down: set<string>)

  datatype Step =
    | Admit(id: nat, r: string)   // processJob under the lock, having selected r
    | Return(id: nat)             // job(runner) returns
    | ReAdd(id: nat)              // defer b.add(runner)
    | Decrement(id: nat)          // defer runner.addConcurrency(-1)
    | Up(r: string)               // liveness probe passed
    | Down(r: string)             // liveness probe failed

  predicate Enabled(cfg: Config, s: State, step: Step) {
    match step
    case Admit(id, r) => id !in s.jobs && r in s.pool.members && r in cfg.weight && cfg.weight[r] > 0
                         && r in cfg.limit && r in s.pool.concurrency
    case Return(id) => id in s.jobs && s.jobs[id].phase.Running?
    case ReAdd(id) => id in s.jobs && s.jobs[id].phase.Returned?
    case Decrement(id) => id in s.jobs && s.jobs[id].phase.Leaving? && s.jobs[id].runner in s.pool.concurrency
    case Up(r) => r in cfg.limit && r in s.minted
    case Down(r) => r in cfg.limit
  }

  ghost function Apply(cfg: Config, s: State, step: Step): State
    requires Enabled(cfg, s, step)
  {
    match step
    case Admit(id, r) =>
      var excluded := Exhausts(s.pool, cfg.limit[r], r);
      s.(pool := AdmitTo(s.pool, cfg.limit[r], r), jobs := s.jobs[id := Job(r, excluded, Running)])
    case Return(id) =>
      s.(jobs := s.jobs[id := s.jobs[id].(phase := if s.jobs[id].excluded then Returned else Leaving)])
    case ReAdd(id) =>
      var r := s.jobs[id].runner;
      var s' := s.(pool := AddTo(s.pool, r), jobs := s.jobs[id := s.jobs[id].(phase := Leaving)], down := s.down - {r});
      if Count(s', r, Pending) == 0 then s'.(minted := s.minted[r := 0]) else s'
    case Decrement(id) =>
      s.(pool := ReleaseFrom(s.pool, s.jobs[id].runner), jobs := s.jobs - {id})
    case Up(r) =>
      var minted := if r !in s.pool.members && Count(s, r, Pending) > 0 then s.minted[r := s.minted[r] + 1]
                    else s.minted;
      s.(pool := AddTo(s.pool, r), alive := s.alive + {r}, down := s.down - {r}, minted := minted)
    case Down(r) =>
      s.(pool := RemoveFrom(s.pool, r), alive := s.alive - {r}, down := s.down + {r})
  }

  /** The balancer starts empty; the liveness loops fill it. */
  function Init(cfg: Config): State {
    State(Pool({}, map r | r in cfg.limit :: 0), map[], {}, map r | r in cfg.limit :: 0, cfg.limit.Keys)
  }

  /** The steps can be taken one after the other from `s`. */
  ghost predicate IsRun(cfg: Config, s: State, steps: seq<Step>)
    decreases |steps|
  {
    steps == [] || (Enabled(cfg, s, steps[0]) && IsRun(cfg, Apply(cfg, s, steps[0]), steps[1..]))
  }

  ghost function After(cfg: Config, s: State, steps: seq<Step>): State
    requires IsRun(cfg, s, steps)
    decreases |steps|
  {
    if steps == [] then s else After(cfg, Apply(cfg, s, steps[0]), steps[1..])
  }

  ghost predicate Reachable(cfg: Config, s: State) {
    exists steps :: IsRun(cfg, Init(cfg), steps) && After(cfg, Init(cfg), steps) == s
  }

  // ---------------------------------------------------------------------------------------
  // Counting the jobs of a runner
  // ---------------------------------------------------------------------------------------

  datatype Kind =
    | Held       // counted by the runner's `concurrency`
    | InFlight   // running the job's function
    | Open       // admitted without excluding the runner
    | Pending    // excluded the runner and has yet to re-add it

  predicate Fits(job: Job, r: string, kind: Kind) {
    job.runner == r && match kind
                       case Held => true
                       case InFlight => job.phase.Running?
                       case Open => !job.excluded
                       case Pending => job.excluded && !job.phase.Leaving?
  }

  ghost function Those(jobs: map<nat, Job>, r: string, kind: Kind): set<nat> {
    set id | id in jobs && Fits(jobs[id], r, kind)
  }

  ghost function Count(s: State, r: string, kind: Kind): nat {
    |Those(s.jobs, r, kind)|
  }

  ghost function Bit(b: bool): nat { if b then 1 else 0 }

  lemma CountNew(jobs: map<nat, Job>, id: nat, job: Job, r: string, kind: Kind)
    requires id !in jobs
    ensures |Those(jobs[id := job], r, kind)| == |Those(jobs, r, kind)| + Bit(Fits(job, r, kind))
  {
    var before, after := Those(jobs, r, kind), Those(jobs[id := job], r, kind);
    assert after == if Fits(job, r, kind) then before + {id} else before;
  }

  lemma CountGone(jobs: map<nat, Job>, id: nat, r: string, kind: Kind)
    requires id in jobs
    ensures |Those(jobs - {id}, r, kind)| == |Those(jobs, r, kind)| - Bit(Fits(jobs[id], r, kind))
  {
    var before, after := Those(jobs, r, kind), Those(jobs - {id}, r, kind);
    assert after == before - {id};
  }

  lemma CountChanged(jobs: map<nat, Job>, id: nat, job: Job, r: string, kind: Kind)
    requires id in jobs
    ensures |Those(jobs[id := job], r, kind)|
         == |Those(jobs, r, kind)| - Bit(Fits(jobs[id], r, kind)) + Bit(Fits(job, r, kind))
  {
    CountGone(jobs, id, r, kind);
    CountNew(jobs - {id}, id, job, r, kind);
    assert (jobs - {id})[id := job] == jobs[id := job];
  }

  /** What runs either was admitted without exclusion or is still to re-add its runner. */
  lemma CountsCompare(s: State, r: string)
    ensures Count(s, r, Open) <= Count(s, r, Held)
    ensures Count(s, r, InFlight) <= Count(s, r, Open) + Count(s, r, Pending)
  {
    var held, open, pending := Those(s.jobs, r, Held), Those(s.jobs, r, Open), Those(s.jobs, r, Pending);
    Subset(open, held);
    Subset(Those(s.jobs, r, InFlight), open + pending);
  }

  lemma Subset(a: set<nat>, b: set<nat>)
    requires a <= b
    ensures |a| <= |b|
  {
    assert b == a + (b - a);
  }

  // ---------------------------------------------------------------------------------------
  // The invariant
  // ---------------------------------------------------------------------------------------

  /** The most jobs a limit admits without excluding the runner. */
  function OpenSlots(limit: nat): nat { if limit == 0 then 0 else limit - 1 }

  ghost predicate RunnerOk(cfg: Config, s: State, r: string) {
    && r in cfg.limit && r in s.minted && r in s.pool.concurrency
    // The counter counts the jobs that have yet to decrement it.
    && s.pool.concurrency[r] == Count(s, r, Held)
    && (cfg.limit[r].Some? ==> Count(s, r, Open) <= OpenSlots(cfg.limit[r].value))
    && (cfg.limit[r].None? ==> Count(s, r, Pending) == 0)
    // The right to admit the last job is a token: in the balancer, or with a job that excluded.
    && Bit(r in s.pool.members) + Count(s, r, Pending) <= 1 + s.minted[r]
    // The token is never lost but to the liveness loop.
    && (r in s.down ==> r !in s.pool.members)
    && (r !in s.pool.members && Count(s, r, Pending) == 0 ==> r in s.down)
  }

  ghost predicate Inv(cfg: Config, s: State) {
    && (forall id :: id in s.jobs ==> JobOk(cfg, s.jobs[id]))
    && forall r :: r in cfg.limit ==> RunnerOk(cfg, s, r)
  }

  predicate JobOk(cfg: Config, job: Job) {
    job.runner in cfg.limit && (job.phase.Returned? ==> job.excluded)
  }

  lemma AdmitKeeps(cfg: Config, s: State, step: Step, r: string)
    requires Enabled(cfg, s, step) && step.Admit? && RunnerOk(cfg, s, r) && RunnerOk(cfg, s, step.r)
    ensures RunnerOk(cfg, Apply(cfg, s, step), r)
  {
    hide Those;
    var job := Job(step.r, Exhausts(s.pool, cfg.limit[step.r], step.r), Running);
    CountNew(s.jobs, step.id, job, r, Held);
    CountNew(s.jobs, step.id, job, r, Open);
    CountNew(s.jobs, step.id, job, r, Pending);
    CountsCompare(s, r);
  }

  lemma ReturnKeeps(cfg: Config, s: State, step: Step, r: string)
    requires Enabled(cfg, s, step) && step.Return? && RunnerOk(cfg, s, r)
    ensures RunnerOk(cfg, Apply(cfg, s, step), r)
  {
    hide Those;
    var job := s.jobs[step.id];
    var job' := job.(phase := if job.excluded then Returned else Leaving);
    CountChanged(s.jobs, step.id, job', r, Held);
    CountChanged(s.jobs, step.id, job', r, Open);
    CountChanged(s.jobs, step.id, job', r, Pending);
  }

  lemma ReAddKeeps(cfg: Config, s: State, step: Step, r: string)
    requires Enabled(cfg, s, step) && step.ReAdd? && RunnerOk(cfg, s, r) && JobOk(cfg, s.jobs[step.id])
    ensures RunnerOk(cfg, Apply(cfg, s, step), r)
  {
    hide Those;
    var job' := s.jobs[step.id].(phase := Leaving);
    CountChanged(s.jobs, step.id, job', r, Held);
    CountChanged(s.jobs, step.id, job', r, Open);
    CountChanged(s.jobs, step.id, job', r, Pending);
  }

  lemma DecrementKeeps(cfg: Config, s: State, step: Step, r: string)
    requires Enabled(cfg, s, step) && step.Decrement? && RunnerOk(cfg, s, r)
    ensures RunnerOk(cfg, Apply(cfg, s, step), r)
  {
    hide Those;
    CountGone(s.jobs, step.id, r, Held);
    CountGone(s.jobs, step.id, r, Open);
    CountGone(s.jobs, step.id, r, Pending);
  }

  lemma LivenessKeeps(cfg: Config, s: State, step: Step, r: string)
    requires Enabled(cfg, s, step) && (step.Up? || step.Down?) && RunnerOk(cfg, s, r)
    ensures RunnerOk(cfg, Apply(cfg, s, step), r)
  {
    hide Those;
  }

  lemma StepKeepsInv(cfg: Config, s: State, step: Step)
    requires Inv(cfg, s) && Enabled(cfg, s, step)
    ensures Inv(cfg, Apply(cfg, s, step))
  {
    var s' := Apply(cfg, s, step);
    forall id | id in s'.jobs
      ensures JobOk(cfg, s'.jobs[id])
    {
      assert id in s.jobs ==> JobOk(cfg, s.jobs[id]);
    }
    hide RunnerOk, Apply, JobOk;
    forall r | r in cfg.limit
      ensures RunnerOk(cfg, s', r)
    {
      match step
      case Admit(_, _) => AdmitKeeps(cfg, s, step, r);
      case Return(_) => ReturnKeeps(cfg, s, step, r);
      case ReAdd(_) => ReAddKeeps(cfg, s, step, r);
      case Decrement(_) => DecrementKeeps(cfg, s, step, r);
      case Up(_) => LivenessKeeps(cfg, s, step, r);
      case Down(_) => LivenessKeeps(cfg, s, step, r);
    }
  }

  lemma InitOk(cfg: Config)
    ensures Inv(cfg, Init(cfg))
  {
    forall r: string, kind: Kind
      ensures Those(Init(cfg).jobs, r, kind) == {}
    {
    }
  }

  lemma {:induction false} RunKeepsInv(cfg: Config, s: State, steps: seq<Step>)
    requires Inv(cfg, s) && IsRun(cfg, s, steps)
    ensures Inv(cfg, After(cfg, s, steps))
    decreases |steps|
  {
    if steps != [] {
      StepKeepsInv(cfg, s, steps[0]);
      RunKeepsInv(cfg, Apply(cfg, s, steps[0]), steps[1..]);
    }
  }

  lemma ReachableOk(cfg: Config, s: State)
    requires Reachable(cfg, s)
    ensures Inv(cfg, s)
  {
    var steps :| IsRun(cfg, Init(cfg), steps) && After(cfg, Init(cfg), steps) == s;
    InitOk(cfg);
    RunKeepsInv(cfg, Init(cfg), steps);
  }

  // ---------------------------------------------------------------------------------------
  // Main results
  // ---------------------------------------------------------------------------------------

  /** A limit of zero still admits one job: the limit is looked at after the selection. */
  function Effective(limit: nat): nat { if limit == 0 then 1 else limit }

  /**
   * In every interleaving, a runner limited to M runs at most M jobs (one, if M is zero), plus
   * one for each time the liveness loop put it back while an excluding job had yet to. Once all
   * such jobs have put it back, the count starts over.
   */
  lemma ConcurrencyIsBounded(cfg: Config, s: State, r: string)
    requires Reachable(cfg, s) && r in cfg.limit && cfg.limit[r].Some?
    ensures r in s.minted
    ensures Count(s, r, InFlight) <= (if cfg.limit[r].value == 0 then 1 else cfg.limit[r].value) + s.minted[r]
  {
    ReachableOk(cfg, s);
    assert RunnerOk(cfg, s, r);
    CountsCompare(s, r);
  }

  /** Whenever the liveness loop puts the runner back, it is there already or no job is to put it back. */
  ghost predicate NoneMinted(cfg: Config, s: State, steps: seq<Step>, r: string)
    requires IsRun(cfg, s, steps)
    decreases |steps|
  {
    steps == []
    || ((steps[0] == Up(r) ==> r in s.pool.members
                               || forall id :: id in s.jobs && s.jobs[id].runner == r && s.jobs[id].excluded
                                               ==> s.jobs[id].phase.Leaving?)
        && NoneMinted(cfg, Apply(cfg, s, steps[0]), steps[1..], r))
  }

  lemma NothingMinted(cfg: Config, s: State, step: Step, r: string)
    requires Enabled(cfg, s, step) && r in s.minted && s.minted[r] == 0
    requires step == Up(r) ==> r in s.pool.members || Those(s.jobs, r, Pending) == {}
    ensures r in Apply(cfg, s, step).minted && Apply(cfg, s, step).minted[r] == 0
  {
  }

  lemma {:induction false} RunMintsNothing(cfg: Config, s: State, steps: seq<Step>, r: string)
    requires IsRun(cfg, s, steps) && NoneMinted(cfg, s, steps, r) && r in s.minted && s.minted[r] == 0
    ensures r in After(cfg, s, steps).minted && After(cfg, s, steps).minted[r] == 0
    decreases |steps|
  {
    if steps != [] {
      assert steps[0] == Up(r) && r !in s.pool.members ==> Those(s.jobs, r, Pending) == {};
      NothingMinted(cfg, s, steps[0], r);
      RunMintsNothing(cfg, Apply(cfg, s, steps[0]), steps[1..], r);
    }
  }

  /** So in a run in which that never happens, a runner limited to M runs at most M jobs, or one. */
  lemma LimitIsKept(cfg: Config, steps: seq<Step>, r: string)
    requires IsRun(cfg, Init(cfg), steps) && r in cfg.limit && cfg.limit[r].Some?
    requires NoneMinted(cfg, Init(cfg), steps, r)
    ensures var s := After(cfg, Init(cfg), steps);
            |set id | id in s.jobs && s.jobs[id].runner == r && s.jobs[id].phase.Running?|
            <= if cfg.limit[r].value == 0 then 1 else cfg.limit[r].value
  {
    RunMintsNothing(cfg, Init(cfg), steps, r);
    var s := After(cfg, Init(cfg), steps);
    hide IsRun, After, Init;
    ConcurrencyIsBounded(cfg, s, r);
    var running := set id | id in s.jobs && s.jobs[id].runner == r && s.jobs[id].phase.Running?;
    assert running == Those(s.jobs, r, InFlight);
  }

  /** Without such inserts, a runner at its limit is out of the balancer: it admits nothing more. */
  lemma FullRunnerIsExcluded(cfg: Config, s: State, r: string)
    requires Reachable(cfg, s) && r in cfg.limit && cfg.limit[r].Some?
    requires r in s.minted && s.minted[r] == 0
    requires Count(s, r, InFlight) == if cfg.limit[r].value == 0 then 1 else cfg.limit[r].value
    ensures r !in s.pool.members
  {
    ReachableOk(cfg, s);
    assert RunnerOk(cfg, s, r);
    CountsCompare(s, r);
  }

  /** A runner out of the balancer will be re-added by a job, or was taken out as not responding. */
  lemma NoRunnerIsForgotten(cfg: Config, s: State, r: string)
    requires Reachable(cfg, s) && r in cfg.limit && r !in s.pool.members
    ensures r in s.down || exists id :: id in s.jobs && Fits(s.jobs[id], r, Pending)
  {
    ReachableOk(cfg, s);
    assert RunnerOk(cfg, s, r);
    if r !in s.down {
      var pending := Those(s.jobs, r, Pending);
      assert |pending| > 0;
      var id :| id in pending;
    }
  }

  /** The counter is exact, so it is back to zero when the runner's jobs are gone. */
  lemma CounterIsExact(cfg: Config, s: State, r: string)
    requires Reachable(cfg, s) && r in cfg.limit
    ensures r in s.pool.concurrency && s.pool.concurrency[r] == Count(s, r, Held)
  {
    ReachableOk(cfg, s);
    assert RunnerOk(cfg, s, r);
  }

  // ---------------------------------------------------------------------------------------
  // The bound is attained, and what the system does not promise
  // ---------------------------------------------------------------------------------------

  lemma {:induction false} RunSnoc(cfg: Config, s: State, steps: seq<Step>, step: Step)
    requires IsRun(cfg, s, steps) && Enabled(cfg, After(cfg, s, steps), step)
    ensures IsRun(cfg, s, steps + [step])
    ensures After(cfg, s, steps + [step]) == Apply(cfg, After(cfg, s, steps), step)
    decreases |steps|
  {
    hide Apply, Enabled;
    if steps == [] {
      assert [step][1..] == [];
    } else {
      assert (steps + [step])[1..] == steps[1..] + [step];
      RunSnoc(cfg, Apply(cfg, s, steps[0]), steps[1..], step);
    }
  }

  lemma ReachableStep(cfg: Config, s: State, step: Step)
    requires Reachable(cfg, s) && Enabled(cfg, s, step)
    ensures Reachable(cfg, Apply(cfg, s, step))
  {
    hide Apply, Enabled;
    var steps :| IsRun(cfg, Init(cfg), steps) && After(cfg, Init(cfg), steps) == s;
    RunSnoc(cfg, Init(cfg), steps, step);
  }

  lemma InitReachable(cfg: Config)
    ensures Reachable(cfg, Init(cfg))
  {
    assert IsRun(cfg, Init(cfg), []) && After(cfg, Init(cfg), []) == Init(cfg);
  }

  /** One runner of weight one with limit `m`. */
  function Single(r: string, m: nat): Config { Config(map[r := 1], map[r := Some(m)]) }

  /** All of the first `n` job ids are running, and the liveness loop minted `k` times. */
  ghost predicate AllRunning(cfg: Config, r: string, s: State, n: nat, k: nat) {
    && Reachable(cfg, s)
    && r in s.pool.concurrency && s.pool.concurrency[r] == n
    && r in s.minted && s.minted[r] == k
    && Count(s, r, InFlight) == n
    && (forall id :: id in s.jobs ==> id < n)
  }

  lemma AdmitNext(cfg: Config, r: string, m: nat, s: State, n: nat, k: nat) returns (s': State)
    requires cfg == Single(r, m) && AllRunning(cfg, r, s, n, k) && r in s.pool.members
    ensures AllRunning(cfg, r, s', n + 1, k)
    ensures n + 1 < m ==> r in s'.pool.members
    ensures n + 1 >= m ==> r !in s'.pool.members && Count(s', r, Pending) > 0
  {
    var step := Admit(n, r);
    s' := Apply(cfg, s, step);
    ReachableStep(cfg, s, step);
    CountNew(s.jobs, n, s'.jobs[n], r, InFlight);
    CountNew(s.jobs, n, s'.jobs[n], r, Pending);
  }

  lemma {:induction false} Filling(r: string, m: nat, n: nat) returns (s: State)
    requires n < Effective(m)
    ensures AllRunning(Single(r, m), r, s, n, 0) && r in s.pool.members
  {
    var cfg := Single(r, m);
    if n == 0 {
      InitReachable(cfg);
      ReachableStep(cfg, Init(cfg), Up(r));
      s := Apply(cfg, Init(cfg), Up(r));
      assert Those(s.jobs, r, InFlight) == {};
    } else {
      var before := Filling(r, m, n - 1);
      s := AdmitNext(cfg, r, m, before, n - 1, 0);
    }
  }

  lemma {:induction false} Overfull(r: string, m: nat, k: nat) returns (s: State)
    ensures AllRunning(Single(r, m), r, s, Effective(m) + k, k)
    ensures r !in s.pool.members && Count(s, r, Pending) > 0
  {
    var cfg := Single(r, m);
    if k == 0 {
      var before := Filling(r, m, Effective(m) - 1);
      s := AdmitNext(cfg, r, m, before, Effective(m) - 1, 0);
    } else {
      var before := Overfull(r, m, k - 1);
      ReachableStep(cfg, before, Up(r));
      s := AdmitNext(cfg, r, m, Apply(cfg, before, Up(r)), Effective(m) + k - 1, k);
    }
  }

  /**
   * The bound cannot be improved: for every limit M and every k, some interleaving with k such
   * inserts runs M + k jobs at once. So "at most M" fails as soon as k is positive.
   */
  lemma BoundIsAttained(r: string, m: nat, k: nat)
    ensures exists s :: Reachable(Single(r, m), s) && r in s.minted && s.minted[r] == k
                        && Count(s, r, InFlight) == (if m == 0 then 1 else m) + k
  {
    var s := Overfull(r, m, k);
  }

  // ---------------------------------------------------------------------------------------
  // When a runner taken out stays out
  // ---------------------------------------------------------------------------------------

  /** None of the steps is a successful probe of `r`. */
  predicate NoneUp(steps: seq<Step>, r: string) {
    forall i :: 0 <= i < |steps| ==> steps[i] != Up(r)
  }

  /** From `s` the runner can get back into the balancer without being found alive. */
  ghost predicate CanRejoin(cfg: Config, s: State, r: string) {
    exists steps :: NoneUp(steps, r) && IsRun(cfg, s, steps) && r in After(cfg, s, steps).pool.members
  }

  /** Out of the balancer, and no job is to put it back. */
  ghost predicate IsOut(s: State, r: string) {
    r !in s.pool.members && Count(s, r, Pending) == 0
  }

  lemma NotPending(s: State, r: string, id: nat)
    requires Count(s, r, Pending) == 0 && id in s.jobs
    ensures !Fits(s.jobs[id], r, Pending)
  {
    var pending := Those(s.jobs, r, Pending);
    assert pending == {} && id !in pending;
  }

  lemma StepKeepsOut(cfg: Config, s: State, step: Step, r: string)
    requires Inv(cfg, s) && Enabled(cfg, s, step) && step != Up(r) && IsOut(s, r)
    ensures IsOut(Apply(cfg, s, step), r)
  {
    match step
    case Admit(id, q) =>
      CountNew(s.jobs, id, Job(q, Exhausts(s.pool, cfg.limit[q], q), Running), r, Pending);
    case Return(id) =>
      NotPending(s, r, id);
      CountChanged(s.jobs, id, s.jobs[id].(phase := if s.jobs[id].excluded then Returned else Leaving), r, Pending);
    case ReAdd(id) =>
      assert JobOk(cfg, s.jobs[id]);
      NotPending(s, r, id);
      CountChanged(s.jobs, id, s.jobs[id].(phase := Leaving), r, Pending);
    case Decrement(id) =>
      CountGone(s.jobs, id, r, Pending);
    case Up(_) =>
    case Down(_) =>
  }

  lemma {:induction false} RunKeepsOut(cfg: Config, s: State, steps: seq<Step>, r: string)
    requires Inv(cfg, s) && IsRun(cfg, s, steps) && NoneUp(steps, r) && IsOut(s, r)
    ensures IsOut(After(cfg, s, steps), r)
    decreases |steps|
  {
    hide Inv, Apply, Enabled, IsOut;
    if steps != [] {
      assert steps[0] != Up(r);
      StepKeepsInv(cfg, s, steps[0]);
      StepKeepsOut(cfg, s, steps[0], r);
      RunKeepsOut(cfg, Apply(cfg, s, steps[0]), steps[1..], r);
    }
  }

  /** A job that is to put the runner back can go straight on to do so. */
  lemma PendingPutsBack(cfg: Config, s: State, r: string, id: nat) returns (steps: seq<Step>)
    requires Inv(cfg, s) && id in s.jobs && Fits(s.jobs[id], r, Pending)
    ensures NoneUp(steps, r) && IsRun(cfg, s, steps) && r in After(cfg, s, steps).pool.members
  {
    assert JobOk(cfg, s.jobs[id]);
    if s.jobs[id].phase.Running? {
      steps := [Return(id), ReAdd(id)];
      var s1 := Apply(cfg, s, Return(id));
      assert steps[1..] == [ReAdd(id)] && Enabled(cfg, s1, ReAdd(id));
      PutBackNow(cfg, s1, id);
    } else {
      steps := [ReAdd(id)];
      PutBackNow(cfg, s, id);
    }
  }

  lemma PutBackNow(cfg: Config, s: State, id: nat)
    requires Enabled(cfg, s, ReAdd(id))
    ensures IsRun(cfg, s, [ReAdd(id)]) && s.jobs[id].runner in After(cfg, s, [ReAdd(id)]).pool.members
  {
    var steps, s' := [ReAdd(id)], Apply(cfg, s, ReAdd(id));
    assert steps[1..] == [] && IsRun(cfg, s', []) && After(cfg, s', []) == s';
    assert After(cfg, s, steps) == After(cfg, s', steps[1..]);
  }

  /**
   * A runner out of the balancer, because its liveness loop took it out say, stays out until it is
   * found alive if and only if no job is to put it back: none that excluded it is still running or
   * yet to re-add it.
   */
  lemma RejoinsIffPending(cfg: Config, s: State, r: string)
    requires Reachable(cfg, s) && r in cfg.limit && r !in s.pool.members
    ensures CanRejoin(cfg, s, r) <==> Count(s, r, Pending) > 0
  {
    ReachableOk(cfg, s);
    hide Reachable, Inv, Apply, Enabled;
    if Count(s, r, Pending) > 0 {
      var pending := Those(s.jobs, r, Pending);
      var id :| id in pending;
      var steps := PendingPutsBack(cfg, s, r, id);
    } else if CanRejoin(cfg, s, r) {
      var steps :| NoneUp(steps, r) && IsRun(cfg, s, steps) && r in After(cfg, s, steps).pool.members;
      RunKeepsOut(cfg, s, steps, r);
    }
  }

  /** A runner of one job is admitted, found dead while it runs, and its job returns. */
  lemma DeadWhileRunning(r: string) returns (s: State)
    ensures Reachable(Single(r, 1), s) && r in s.pool.concurrency && r in s.minted
    ensures s.jobs == map[0 := Job(r, true, Returned)] && r !in s.alive
  {
    hide Reachable, Those;
    var cfg := Single(r, 1);
    InitReachable(cfg);
    s := Init(cfg);
    ReachableStep(cfg, s, Up(r));
    s := Apply(cfg, s, Up(r));
    ReachableStep(cfg, s, Admit(0, r));
    s := Apply(cfg, s, Admit(0, r));
    ReachableStep(cfg, s, Down(r));
    s := Apply(cfg, s, Down(r));
    ReachableStep(cfg, s, Return(0));
    s := Apply(cfg, s, Return(0));
  }

  /** Such a run in full: found dead, put back by the job that finishes, and all jobs gone. */
  lemma DeadRunnerRejoins(r: string)
    ensures exists s :: Reachable(Single(r, 1), s) && s.jobs == map[] && r !in s.alive && r in s.pool.members
  {
    hide Reachable, Those;
    var cfg := Single(r, 1);
    var s := DeadWhileRunning(r);
    ReachableStep(cfg, s, ReAdd(0));
    s := Apply(cfg, s, ReAdd(0));
    ReachableStep(cfg, s, Decrement(0));
    s := Apply(cfg, s, Decrement(0));
    assert s.jobs == map[];
  }
}
