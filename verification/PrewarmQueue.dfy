/**
 * internal/qrunner/dockerengine/prewarmer.go: the queue of images to prewarm, the one-slot signal
 * channel and the single worker of `Start`, as a transition system. Requests push concurrently.
 */
module PrewarmQueue {

  /** `requestState`, as far as the prewarmer looks at it. */
  datatype Request = Request(imageFQN: string, version: string)

  // ---------------------------------------------------------------------------------------
  // The queue
  // ---------------------------------------------------------------------------------------

  predicate IsQueued(queue: seq<Request>, imageFQN: string) {
    exists i :: 0 <= i < |queue| && queue[i].imageFQN == imageFQN
  }

  /** Append, then drop the oldest once the queue has reached the number of warm containers. */
  function Pushed(maxWarm: nat, queue: seq<Request>, request: Request): seq<Request> {
    if IsQueued(queue, request.imageFQN) then queue
    else
      var longer := queue + [request];
      if |longer| >= maxWarm then longer[1..] else longer
  }

  // ---------------------------------------------------------------------------------------
  // The transition system
  // ---------------------------------------------------------------------------------------

  /** Blocked on the channel; signal received; running a container, `count` requests having been there. */
  datatype Worker = Waiting | Woken | Serving(count: nat)

  /** `served` is history: the requests extracted so far. */
  datatype State = State(queue: seq<Request>, signal: bool, worker: Worker, served: seq<Request>)

  datatype Step =
    | Push(request: Request)   // PushNewRequest
    | Wake                     // <-p.signals
    | Extract                  // extractNextRequest
    | Finish                   // runContainer has returned, in whatever way

  predicate Enabled(s: State, step: Step) {
    match step
    case Push(_) => true
    case Wake => s.worker.Waiting? && s.signal
    case Extract => s.worker.Woken?
    case Finish => s.worker.Serving?
  }

  function Apply(maxWarm: nat, s: State, step: Step): State
    requires Enabled(s, step)
  {
    match step
    case Push(request) =>
      if IsQueued(s.queue, request.imageFQN) then s
      else s.(queue := Pushed(maxWarm, s.queue, request), signal := true)
    case Wake => s.(signal := false, worker := Woken)
    case Extract =>
      if s.queue == [] then s.(worker := Waiting)
      else s.(queue := s.queue[1..], worker := Serving(|s.queue|), served := s.served + [s.queue[0]])
    case Finish => s.(signal := s.signal || s.worker.count > 1, worker := Waiting)
  }

  function Init(): State { State([], false, Waiting, []) }

  ghost predicate IsRun(maxWarm: nat, s: State, steps: seq<Step>)
    decreases |steps|
  {
    steps == [] || (Enabled(s, steps[0]) && IsRun(maxWarm, Apply(maxWarm, s, steps[0]), steps[1..]))
  }

  ghost function After(maxWarm: nat, s: State, steps: seq<Step>): State
    requires IsRun(maxWarm, s, steps)
    decreases |steps|
  {
    if steps == [] then s else After(maxWarm, Apply(maxWarm, s, steps[0]), steps[1..])
  }

  ghost predicate Reachable(maxWarm: nat, s: State) {
    exists steps :: IsRun(maxWarm, Init(), steps) && After(maxWarm, Init(), steps) == s
  }

  // ---------------------------------------------------------------------------------------
  // No wakeup is lost
  // ---------------------------------------------------------------------------------------

  /** Somebody will come for what is queued: a signal is pending, or the worker is on its way. */
  predicate WillBeServed(s: State) {
    s.signal || s.worker.Woken? || (s.worker.Serving? && s.worker.count > 1)
  }

  predicate Distinct(queue: seq<Request>) {
    forall i, j :: 0 <= i < j < |queue| ==> queue[i].imageFQN != queue[j].imageFQN
  }

  ghost predicate Inv(maxWarm: nat, s: State) {
    && (s.queue != [] ==> WillBeServed(s))
    && Distinct(s.queue)
    && (s.queue == [] || |s.queue| < maxWarm)
    && (maxWarm < 2 ==> s.served == [])
  }

  lemma StepKeepsInv(maxWarm: nat, s: State, step: Step)
    requires Inv(maxWarm, s) && Enabled(s, step)
    ensures Inv(maxWarm, Apply(maxWarm, s, step))
  {
  }

  lemma {:induction false} RunKeepsInv(maxWarm: nat, s: State, steps: seq<Step>)
    requires Inv(maxWarm, s) && IsRun(maxWarm, s, steps)
    ensures Inv(maxWarm, After(maxWarm, s, steps))
    decreases |steps|
  {
    if steps != [] {
      StepKeepsInv(maxWarm, s, steps[0]);
      RunKeepsInv(maxWarm, Apply(maxWarm, s, steps[0]), steps[1..]);
    }
  }

  lemma ReachableOk(maxWarm: nat, s: State)
    requires Reachable(maxWarm, s)
    ensures Inv(maxWarm, s)
  {
    var steps :| IsRun(maxWarm, Init(), steps) && After(maxWarm, Init(), steps) == s;
    RunKeepsInv(maxWarm, Init(), steps);
  }

  /** In every reachable state, what is queued will be served, is queued once, and is bounded. */
  lemma NoLostWakeup(maxWarm: nat, s: State)
    requires Reachable(maxWarm, s)
    ensures s.queue != [] ==> s.signal || s.worker.Woken? || (s.worker.Serving? && s.worker.count > 1)
    ensures forall i, j :: 0 <= i < j < |s.queue| ==> s.queue[i].imageFQN != s.queue[j].imageFQN
    ensures s.queue == [] || |s.queue| < maxWarm
  {
    ReachableOk(maxWarm, s);
  }

  // ---------------------------------------------------------------------------------------
  // The queue holds the newest requests
  // ---------------------------------------------------------------------------------------

  /** A push puts the request last, and drops the oldest only when there is no room for one more. */
  lemma PushDropsOldest(maxWarm: nat, s: State, request: Request)
    requires Reachable(maxWarm, s)
    ensures var s' := Apply(maxWarm, s, Push(request));
            if exists r <- s.queue :: r.imageFQN == request.imageFQN then s' == s
            else
              && s'.signal
              && s'.queue == if maxWarm < 2 then []
                             else if |s.queue| + 1 < maxWarm then s.queue + [request] else s.queue[1..] + [request]
  {
    ReachableOk(maxWarm, s);
    assert (exists r <- s.queue :: r.imageFQN == request.imageFQN) <==> IsQueued(s.queue, request.imageFQN);
  }

  /** The requests pushed in a run, but for those whose image was in the queue already. */
  ghost function Accepted(maxWarm: nat, s: State, steps: seq<Step>): seq<Request>
    requires IsRun(maxWarm, s, steps)
    decreases |steps|
  {
    if steps == [] then []
    else
      var rest := Accepted(maxWarm, Apply(maxWarm, s, steps[0]), steps[1..]);
      if steps[0].Push? && forall r <- s.queue :: r.imageFQN != steps[0].request.imageFQN
      then [steps[0].request] + rest else rest
  }

  ghost predicate IsSuffix(queue: seq<Request>, all: seq<Request>) {
    |queue| <= |all| && queue == all[|all| - |queue|..]
  }

  lemma SuffixGrows(last: seq<Request>, queue': seq<Request>, queue: seq<Request>, pushed: seq<Request>,
                    rest: seq<Request>)
    requires IsSuffix(queue', queue + pushed) && IsSuffix(last, queue' + rest)
    ensures IsSuffix(last, queue + (pushed + rest))
  {
    var all := queue + pushed;
    assert queue + (pushed + rest) == all + rest;
    assert (all + rest)[|all| - |queue'|..] == queue' + rest;
  }

  lemma AcceptedStep(maxWarm: nat, s: State, step: Step) returns (pushed: seq<Request>)
    requires Enabled(s, step)
    ensures pushed == if step.Push? && forall r <- s.queue :: r.imageFQN != step.request.imageFQN
                      then [step.request] else []
    ensures IsSuffix(Apply(maxWarm, s, step).queue, s.queue + pushed)
  {
    pushed := if step.Push? && forall r <- s.queue :: r.imageFQN != step.request.imageFQN then [step.request] else [];
    assert step.Push? ==> (pushed == [] <==> IsQueued(s.queue, step.request.imageFQN));
    assert s.queue + [] == s.queue;
  }

  lemma AcceptedCons(maxWarm: nat, s: State, steps: seq<Step>, pushed: seq<Request>)
    requires IsRun(maxWarm, s, steps) && steps != []
    requires pushed == if steps[0].Push? && forall r <- s.queue :: r.imageFQN != steps[0].request.imageFQN
                       then [steps[0].request] else []
    ensures After(maxWarm, s, steps) == After(maxWarm, Apply(maxWarm, s, steps[0]), steps[1..])
    ensures Accepted(maxWarm, s, steps) == pushed + Accepted(maxWarm, Apply(maxWarm, s, steps[0]), steps[1..])
  {
    hide Apply, Enabled;
  }

  /** At all times the queue is the end of the list of the requests accepted, oldest first. */
  lemma {:induction false} QueueIsNewest(maxWarm: nat, s: State, steps: seq<Step>)
    requires IsRun(maxWarm, s, steps)
    ensures IsSuffix(After(maxWarm, s, steps).queue, s.queue + Accepted(maxWarm, s, steps))
    decreases |steps|
  {
    if steps == [] {
      assert s.queue + [] == s.queue;
    } else {
      var pushed := AcceptedStep(maxWarm, s, steps[0]);
      var s' := Apply(maxWarm, s, steps[0]);
      QueueIsNewest(maxWarm, s', steps[1..]);
      var last, rest := After(maxWarm, s', steps[1..]).queue, Accepted(maxWarm, s', steps[1..]);
      AcceptedCons(maxWarm, s, steps, pushed);
      hide *;
      SuffixGrows(last, s'.queue, s.queue, pushed, rest);
    }
  }

  // ---------------------------------------------------------------------------------------
  // Without new pushes the queue drains
  // ---------------------------------------------------------------------------------------

  /** An upper bound on the steps the worker can still take by itself. */
  function Measure(s: State): nat {
    3 * |s.queue| + match s.worker
                    case Waiting => if s.signal then 2 else 0
                    case Woken => if s.signal then 3 else 1
                    case Serving(_) => if s.queue == [] && !s.signal && s.worker.count <= 1 then 1 else 3
  }

  predicate ByWorker(steps: seq<Step>) {
    forall i :: 0 <= i < |steps| ==> !steps[i].Push?
  }

  lemma WorkerStepDecreases(maxWarm: nat, s: State, step: Step)
    requires Inv(maxWarm, s) && Enabled(s, step) && !step.Push?
    ensures Measure(Apply(maxWarm, s, step)) < Measure(s)
    ensures Apply(maxWarm, s, step).served + Apply(maxWarm, s, step).queue == s.served + s.queue
  {
  }

  /**
   * However the worker runs on alone, it stops after boundedly many steps; and wherever it can go
   * no further, the queue is empty and all that was queued has been served, in order.
   */
  lemma {:induction false} QueueDrains(maxWarm: nat, s: State, steps: seq<Step>)
    requires Inv(maxWarm, s) && IsRun(maxWarm, s, steps) && ByWorker(steps)
    ensures |steps| <= Measure(s)
    ensures var s' := After(maxWarm, s, steps);
            (forall step :: Enabled(s', step) ==> step.Push?) ==> s'.queue == [] && s'.served == s.served + s.queue
    decreases |steps|
  {
    if steps == [] {
      assert Enabled(s, Wake) || Enabled(s, Extract) || Enabled(s, Finish) || s.queue == [];
    } else {
      WorkerStepDecreases(maxWarm, s, steps[0]);
      StepKeepsInv(maxWarm, s, steps[0]);
      QueueDrains(maxWarm, Apply(maxWarm, s, steps[0]), steps[1..]);
    }
  }

  // ---------------------------------------------------------------------------------------
  // With room for fewer than two warm containers nothing is ever prewarmed
  // ---------------------------------------------------------------------------------------

  /**
   * The trim drops a request as soon as the queue is as long as the number of warm containers:
   * with room for one, the request that was just pushed. Some request is ever served if and only
   * if the configured number is at least two.
   */
  lemma PrewarmsIffRoomForTwo(maxWarm: nat)
    ensures (exists s :: Reachable(maxWarm, s) && s.served != []) <==> maxWarm >= 2
  {
    if maxWarm >= 2 {
      var r := Request("image", "head");
      var steps := [Push(r), Wake, Extract];
      var s1 := Apply(maxWarm, Init(), Push(r));
      assert s1.queue == [r];
      var s2 := Apply(maxWarm, s1, Wake);
      var s3 := Apply(maxWarm, s2, Extract);
      assert steps[1..] == [Wake, Extract] && steps[1..][1..] == [Extract] && steps[1..][1..][1..] == [];
      assert IsRun(maxWarm, s3, []) && IsRun(maxWarm, s2, [Extract]) && IsRun(maxWarm, s1, [Wake, Extract]);
      assert After(maxWarm, s2, [Extract]) == s3 && After(maxWarm, s1, [Wake, Extract]) == s3;
      assert After(maxWarm, Init(), steps) == s3;
      assert Reachable(maxWarm, s3) && s3.served == [r];
    }
    forall s | Reachable(maxWarm, s) && s.served != []
      ensures maxWarm >= 2
    {
      ReachableOk(maxWarm, s);
    }
  }
}
