/**
 * internal/qrunner/dockerengine/build_manager.go as a transition system: requests start image
 * builds, builds queue for a slot, run, stream their output, finish and give the slot back. One
 * step is one critical section of the manager's mutex, or one operation on the semaphore.
 */
module Builds {
  import opened Options
  import opened BuildLog

  // ---------------------------------------------------------------------------------------
  // The records
  // ---------------------------------------------------------------------------------------

  datatype ImageState = ImageBuilding | ImageReady | ImageFailed | NoState

  /** `buildRecord`; NoState is the zero value of the state. */
  datatype Record = Record(state: ImageState, stage: string, logLines: seq<string>, err: Option<string>,
                           finishedAt: int)

  type Records = map<string, Record>

  const STAGE_STARTING := "Starting build"
  const STAGE_QUEUED := "Waiting in build queue"
  const STAGE_PREPARING := "Preparing build"

  /** A minute, in the unit of the clock. */
  const RETRY_COOLDOWN: nat := 60

  const ZERO_RECORD := Record(NoState, "", [], None, 0)

  const FRESH_RECORD := Record(ImageBuilding, STAGE_STARTING, [], None, 0)

  predicate IsBuilding(records: Records, fqn: string) {
    fqn in records && records[fqn].state.ImageBuilding?
  }

  predicate InCooldown(records: Records, fqn: string, now: int) {
    fqn in records && records[fqn].state.ImageFailed? && now - records[fqn].finishedAt < RETRY_COOLDOWN
  }

  /** `Ensure` starts a build unless one is under way or failed less than a cooldown ago. */
  predicate StartsBuild(records: Records, fqn: string, now: int) {
    !IsBuilding(records, fqn) && !InCooldown(records, fqn, now)
  }

  function WithStage(records: Records, fqn: string, stage: string): Records {
    if IsBuilding(records, fqn) then records[fqn := records[fqn].(stage := stage)] else records
  }

  /** `onBuildLine` on a chunk that was split into `lines` and signalled `stage`, "" for none. */
  function WithChunk(records: Records, fqn: string, lines: seq<string>, stage: string): Records {
    if (lines == [] && stage == "") || !IsBuilding(records, fqn) then records
    else
      var rec := records[fqn];
      records[fqn := rec.(stage := if stage != "" then stage else rec.stage,
                          logLines := BuildLog.AppendLogs(rec.logLines, lines))]
  }

  function Finished(records: Records, fqn: string, err: Option<string>, now: int): Records {
    var rec := if fqn in records then records[fqn] else ZERO_RECORD;
    records[fqn := rec.(finishedAt := now, err := err,
                        state := if err.Some? then ImageFailed else ImageReady,
                        logLines := if err.Some? then rec.logLines else [])]
  }

  // ---------------------------------------------------------------------------------------
  // The transition system
  // ---------------------------------------------------------------------------------------

  /** Where the goroutine of a build is. Done: `finish` was called, its slot is still to go back. */
  datatype Phase = Started | Queued | Acquired | Running | Done

  datatype Build = Build(fqn: string, phase: Phase)

  /**
   * `used` is the number of elements in the semaphore channel. Two fields are history: `owner` is
   * the build a record was made for, `emitted` the chunks each build has delivered so far.
   */
  datatype State = State(records: Records, builds: map<nat, Build>, used: nat, now: int,
                         owner: map<string, nat>, emitted: map<nat, seq<seq<string>>>)

  datatype Step =
    | Start(id: nat, fqn: string)                            // Ensure, as far as `go m.build(...)`
    | Enqueue(id: nat)                                       // setStage(fqn, stageQueued)
    | Acquire(id: nat)                                       // m.sem <- struct{}{}
    | GiveUp(id: nat, reason: string)                        // <-m.mainCtx.Done()
    | Prepare(id: nat)                                       // setStage(fqn, stagePreparing)
    | Output(id: nat, lines: seq<string>, stage: string)     // onBuildLine
    | Finish(id: nat, err: Option<string>)                   // finish
    | Release(id: nat)                                       // <-m.sem, if there is a semaphore
    | Tick(now: int)

  predicate At(s: State, id: nat, phase: Phase) { id in s.builds && s.builds[id].phase == phase }

  /** `maxConcurrent` is the configured bound; zero makes the semaphore nil. */
  predicate Enabled(maxConcurrent: nat, s: State, step: Step) {
    match step
    case Start(id, fqn) => id !in s.emitted && id !in s.builds && StartsBuild(s.records, fqn, s.now)
    case Enqueue(id) => At(s, id, Started) && maxConcurrent > 0
    case Acquire(id) => At(s, id, Queued) && s.used < maxConcurrent
    case GiveUp(id, _) => At(s, id, Queued)
    case Prepare(id) => At(s, id, Acquired) || (At(s, id, Started) && maxConcurrent == 0)
    case Output(id, _, _) => At(s, id, Running) && id in s.emitted
    case Finish(id, _) => At(s, id, Running)
    case Release(id) => At(s, id, Done) && (maxConcurrent > 0 ==> s.used > 0)
    case Tick(now) => now >= s.now
  }

  function Move(s: State, id: nat, phase: Phase): map<nat, Build>
    requires id in s.builds
  {
    s.builds[id := s.builds[id].(phase := phase)]
  }

  function Apply(maxConcurrent: nat, s: State, step: Step): State
    requires Enabled(maxConcurrent, s, step)
  {
    match step
    case Start(id, fqn) =>
      s.(records := s.records[fqn := FRESH_RECORD], builds := s.builds[id := Build(fqn, Started)],
         owner := s.owner[fqn := id], emitted := s.emitted[id := []])
    case Enqueue(id) =>
      s.(records := WithStage(s.records, s.builds[id].fqn, STAGE_QUEUED), builds := Move(s, id, Queued))
    case Acquire(id) => s.(used := s.used + 1, builds := Move(s, id, Acquired))
    case GiveUp(id, reason) =>
      s.(records := Finished(s.records, s.builds[id].fqn, Some(reason), s.now), builds := s.builds - {id})
    case Prepare(id) =>
      s.(records := WithStage(s.records, s.builds[id].fqn, STAGE_PREPARING), builds := Move(s, id, Running))
    case Output(id, lines, stage) =>
      s.(records := WithChunk(s.records, s.builds[id].fqn, lines, stage),
         emitted := if lines == [] && stage == "" then s.emitted else s.emitted[id := s.emitted[id] + [lines]])
    case Finish(id, err) =>
      s.(records := Finished(s.records, s.builds[id].fqn, err, s.now), builds := Move(s, id, Done))
    case Release(id) =>
      s.(used := if maxConcurrent > 0 then s.used - 1 else s.used, builds := s.builds - {id})
    case Tick(now) => s.(now := now)
  }

  function Init(now: int): State { State(map[], map[], 0, now, map[], map[]) }

  ghost predicate IsRun(maxConcurrent: nat, s: State, steps: seq<Step>)
    decreases |steps|
  {
    steps == [] || (Enabled(maxConcurrent, s, steps[0])
                    && IsRun(maxConcurrent, Apply(maxConcurrent, s, steps[0]), steps[1..]))
  }

  ghost function After(maxConcurrent: nat, s: State, steps: seq<Step>): State
    requires IsRun(maxConcurrent, s, steps)
    decreases |steps|
  {
    if steps == [] then s else After(maxConcurrent, Apply(maxConcurrent, s, steps[0]), steps[1..])
  }

  ghost predicate Reachable(maxConcurrent: nat, s: State) {
    exists now, steps :: IsRun(maxConcurrent, Init(now), steps) && After(maxConcurrent, Init(now), steps) == s
  }

  // ---------------------------------------------------------------------------------------
  // The invariant
  // ---------------------------------------------------------------------------------------

  /** A build that has not called `finish`. */
  predicate Live(s: State, id: nat) { id in s.builds && !s.builds[id].phase.Done? }

  /** A build that is past the queue and has not given its slot back. */
  predicate Holds(build: Build) { build.phase.Acquired? || build.phase.Running? || build.phase.Done? }

  ghost function Holders(builds: map<nat, Build>): set<nat> {
    set id | id in builds && Holds(builds[id])
  }

  /** A live build is the one its record is for, and the record says so. */
  predicate BuildOk(s: State, id: nat) {
    id in s.builds && id in s.emitted
    && (Live(s, id) ==>
          var fqn := s.builds[id].fqn;
          IsBuilding(s.records, fqn) && fqn in s.owner && s.owner[fqn] == id)
  }

  /** A record said to be building has a live build; its log is what its own build streamed. */
  predicate RecordOk(s: State, fqn: string) {
    && fqn in s.records && fqn in s.owner && s.owner[fqn] in s.emitted
    && !s.records[fqn].state.NoState?
    && (IsBuilding(s.records, fqn) ==> Live(s, s.owner[fqn]))
    && (s.owner[fqn] in s.builds ==> s.builds[s.owner[fqn]].fqn == fqn)
    && s.records[fqn].logLines
       == if s.records[fqn].state.ImageReady? then [] else Streamed(s.emitted[s.owner[fqn]])
  }

  ghost predicate SlotsOk(maxConcurrent: nat, s: State) {
    && (maxConcurrent > 0 ==> s.used == |Holders(s.builds)| <= maxConcurrent)
    && (maxConcurrent == 0 ==>
          && s.used == 0
          && forall id :: id in s.builds ==> !s.builds[id].phase.Queued? && !s.builds[id].phase.Acquired?)
  }

  ghost predicate Inv(maxConcurrent: nat, s: State) {
    && (forall id :: id in s.builds ==> BuildOk(s, id))
    && (forall fqn :: fqn in s.records ==> RecordOk(s, fqn))
    && SlotsOk(maxConcurrent, s)
  }

  lemma BuildsStayOk(maxConcurrent: nat, s: State, step: Step, id: nat)
    requires Inv(maxConcurrent, s) && Enabled(maxConcurrent, s, step)
    requires id in Apply(maxConcurrent, s, step).builds
    ensures BuildOk(Apply(maxConcurrent, s, step), id)
  {
    hide SlotsOk;
    if id in s.builds {
      assert BuildOk(s, id);
    }
    if !step.Start? && !step.Tick? {
      assert BuildOk(s, step.id);
    }
  }

  lemma StreamedSnoc(chunks: seq<seq<string>>, lines: seq<string>)
    ensures Streamed(chunks + [lines]) == BuildLog.AppendLogs(Streamed(chunks), lines)
  {
    var all := chunks + [lines];
    assert all[..|all| - 1] == chunks;
  }

  lemma StartKeepsRecord(maxConcurrent: nat, s: State, step: Step, fqn: string)
    requires Enabled(maxConcurrent, s, step) && step.Start?
    requires fqn in s.records ==> RecordOk(s, fqn)
    requires fqn in Apply(maxConcurrent, s, step).records
    ensures RecordOk(Apply(maxConcurrent, s, step), fqn)
  {
    assert Streamed([]) == [];
    hide Streamed, InCooldown;
  }

  lemma OutputKeepsRecord(maxConcurrent: nat, s: State, step: Step, fqn: string)
    requires Enabled(maxConcurrent, s, step) && step.Output?
    requires fqn in s.records && RecordOk(s, fqn) && BuildOk(s, step.id)
    ensures RecordOk(Apply(maxConcurrent, s, step), fqn)
  {
    StreamedSnoc(s.emitted[step.id], step.lines);
    hide Streamed, BuildLog.AppendLogs;
  }

  lemma FinishKeepsRecord(maxConcurrent: nat, s: State, step: Step, fqn: string)
    requires Enabled(maxConcurrent, s, step) && (step.Finish? || step.GiveUp?)
    requires fqn in s.records && RecordOk(s, fqn) && BuildOk(s, step.id)
    ensures RecordOk(Apply(maxConcurrent, s, step), fqn)
  {
    hide Streamed;
  }

  lemma MoveKeepsRecord(maxConcurrent: nat, s: State, step: Step, fqn: string)
    requires Enabled(maxConcurrent, s, step)
    requires step.Enqueue? || step.Acquire? || step.Prepare? || step.Release?
    requires fqn in s.records && RecordOk(s, fqn) && BuildOk(s, step.id)
    ensures RecordOk(Apply(maxConcurrent, s, step), fqn)
  {
    hide Streamed;
  }

  lemma RecordsStayOk(maxConcurrent: nat, s: State, step: Step, fqn: string)
    requires Inv(maxConcurrent, s) && Enabled(maxConcurrent, s, step)
    requires fqn in Apply(maxConcurrent, s, step).records
    ensures RecordOk(Apply(maxConcurrent, s, step), fqn)
  {
    assert fqn in s.records ==> RecordOk(s, fqn);
    assert !step.Start? && !step.Tick? ==> BuildOk(s, step.id);
    assert !step.Start? ==> fqn in s.records;
    hide RecordOk, BuildOk, SlotsOk;
    match step
    case Start(_, _) => StartKeepsRecord(maxConcurrent, s, step, fqn);
    case Output(_, _, _) => OutputKeepsRecord(maxConcurrent, s, step, fqn);
    case Finish(_, _) => FinishKeepsRecord(maxConcurrent, s, step, fqn);
    case GiveUp(_, _) => FinishKeepsRecord(maxConcurrent, s, step, fqn);
    case Tick(now) => TickKeepsRecord(s, now, fqn);
    case _ => MoveKeepsRecord(maxConcurrent, s, step, fqn);
  }

  lemma TickKeepsRecord(s: State, now: int, fqn: string)
    requires RecordOk(s, fqn)
    ensures RecordOk(s.(now := now), fqn)
  {
    hide Streamed;
  }

  lemma SlotsStayOk(maxConcurrent: nat, s: State, step: Step)
    requires SlotsOk(maxConcurrent, s) && Enabled(maxConcurrent, s, step)
    ensures SlotsOk(maxConcurrent, Apply(maxConcurrent, s, step))
  {
    var s' := Apply(maxConcurrent, s, step);
    if !step.Tick? {
      HoldersWithout(s.builds, step.id);
      HoldersWithout(s'.builds, step.id);
      assert s.builds - {step.id} == s'.builds - {step.id};
    }
    hide Holders;
  }

  lemma HoldersWithout(builds: map<nat, Build>, id: nat)
    ensures |Holders(builds)| == |Holders(builds - {id})| + if id in builds && Holds(builds[id]) then 1 else 0
  {
    var others := Holders(builds - {id});
    assert Holders(builds) == others + if id in builds && Holds(builds[id]) then {id} else {};
  }

  lemma StepKeepsInv(maxConcurrent: nat, s: State, step: Step)
    requires Inv(maxConcurrent, s) && Enabled(maxConcurrent, s, step)
    ensures Inv(maxConcurrent, Apply(maxConcurrent, s, step))
  {
    hide BuildOk, RecordOk, SlotsOk;
    var s' := Apply(maxConcurrent, s, step);
    forall id | id in s'.builds
      ensures BuildOk(s', id)
    {
      BuildsStayOk(maxConcurrent, s, step, id);
    }
    forall fqn | fqn in s'.records
      ensures RecordOk(s', fqn)
    {
      RecordsStayOk(maxConcurrent, s, step, fqn);
    }
    SlotsStayOk(maxConcurrent, s, step);
  }

  lemma {:induction false} RunKeepsInv(maxConcurrent: nat, s: State, steps: seq<Step>)
    requires Inv(maxConcurrent, s) && IsRun(maxConcurrent, s, steps)
    ensures Inv(maxConcurrent, After(maxConcurrent, s, steps))
    decreases |steps|
  {
    hide Inv, Apply, Enabled;
    if steps != [] {
      StepKeepsInv(maxConcurrent, s, steps[0]);
      RunKeepsInv(maxConcurrent, Apply(maxConcurrent, s, steps[0]), steps[1..]);
    }
  }

  lemma ReachableOk(maxConcurrent: nat, s: State)
    requires Reachable(maxConcurrent, s)
    ensures Inv(maxConcurrent, s)
  {
    var now, steps :| IsRun(maxConcurrent, Init(now), steps) && After(maxConcurrent, Init(now), steps) == s;
    assert Holders(Init(now).builds) == {};
    RunKeepsInv(maxConcurrent, Init(now), steps);
  }

  // ---------------------------------------------------------------------------------------
  // Main results
  // ---------------------------------------------------------------------------------------

  /** In every run, at most one live build exists per image, exactly while its record is building. */
  lemma OneLiveBuildPerImage(maxConcurrent: nat, s: State, fqn: string)
    requires Reachable(maxConcurrent, s)
    ensures forall a, b :: Live(s, a) && Live(s, b) && s.builds[a].fqn == fqn == s.builds[b].fqn ==> a == b
    ensures IsBuilding(s.records, fqn) <==> exists id :: Live(s, id) && s.builds[id].fqn == fqn
  {
    ReachableOk(maxConcurrent, s);
    forall id | Live(s, id)
      ensures BuildOk(s, id)
    {
    }
    if IsBuilding(s.records, fqn) {
      assert RecordOk(s, fqn);
    }
  }

  /** What a build leaves in its record, step by step. */
  ghost function Recorded(rec: Record, step: Step, now: int): Record {
    match step
    case Enqueue(_) => rec.(stage := "Waiting in build queue")
    case Prepare(_) => rec.(stage := "Preparing build")
    case Output(_, lines, stage) =>
      rec.(stage := if stage == "" then rec.stage else stage,
           logLines := if lines == [] then rec.logLines else AppendLogs(rec.logLines, lines))
    case GiveUp(_, reason) => Record(ImageFailed, rec.stage, rec.logLines, Some(reason), now)
    case Finish(_, None) => Record(ImageReady, rec.stage, [], None, now)
    case Finish(_, Some(e)) => Record(ImageFailed, rec.stage, rec.logLines, Some(e), now)
    case _ => rec
  }

  /** In every run a step of a build changes the record of its own image, and no other. */
  lemma StepsAreRecorded(maxConcurrent: nat, s: State, step: Step)
    requires Reachable(maxConcurrent, s) && Enabled(maxConcurrent, s, step)
    ensures step.Start? ==>
              Apply(maxConcurrent, s, step).records
              == s.records[step.fqn := Record(ImageBuilding, "Starting build", [], None, 0)]
    ensures step.Tick? || step.Release? ==> Apply(maxConcurrent, s, step).records == s.records
    ensures !step.Start? && !step.Tick? && !step.Release? ==>
              var fqn := s.builds[step.id].fqn;
              fqn in s.records
              && Apply(maxConcurrent, s, step).records == s.records[fqn := Recorded(s.records[fqn], step, s.now)]
  {
    ReachableOk(maxConcurrent, s);
    if !step.Start? && !step.Tick? && !step.Release? {
      assert BuildOk(s, step.id) && RecordOk(s, s.builds[step.id].fqn);
      if step.Output? { TrimmedAlready(s.emitted[step.id]); }
    }
  }

  lemma TrimmedAlready(chunks: seq<seq<string>>)
    ensures AppendLogs(Streamed(chunks), []) == Streamed(chunks)
  {
    StreamingEqualsBatch(chunks);
  }

  /** A build can start unless one is under way, or has failed within the last 60 seconds. */
  lemma StartIffCooledDown(maxConcurrent: nat, s: State, id: nat, fqn: string)
    requires Reachable(maxConcurrent, s) && id !in s.builds && id !in s.emitted
    ensures Enabled(maxConcurrent, s, Start(id, fqn))
            <==> && (forall other :: other in s.builds && s.builds[other].fqn == fqn ==> s.builds[other].phase.Done?)
                 && (fqn in s.records && s.records[fqn].state == ImageFailed ==>
                       s.now >= s.records[fqn].finishedAt + 60)
  {
    OneLiveBuildPerImage(maxConcurrent, s, fqn);
    hide Reachable;
    assert forall other :: Live(s, other) <==> other in s.builds && !s.builds[other].phase.Done?;
  }

  /** Without a new build of the image the record of one that is over stays as it is. */
  lemma {:induction false} RecordStays(maxConcurrent: nat, s: State, steps: seq<Step>, fqn: string)
    requires Inv(maxConcurrent, s) && IsRun(maxConcurrent, s, steps)
    requires fqn in s.records && !IsBuilding(s.records, fqn)
    requires forall i :: 0 <= i < |steps| ==> !(steps[i].Start? && steps[i].fqn == fqn)
    ensures var records := After(maxConcurrent, s, steps).records;
            fqn in records && records[fqn] == s.records[fqn]
    decreases |steps|
  {
    hide BuildOk, RecordOk, SlotsOk;
    if steps != [] {
      var step := steps[0];
      StepKeepsInv(maxConcurrent, s, step);
      assert !step.Start? && !step.Tick? ==> BuildOk(s, step.id);
      OtherRecordsStay(maxConcurrent, s, step, fqn);
      hide Apply, Enabled, Inv;
      RecordStays(maxConcurrent, Apply(maxConcurrent, s, step), steps[1..], fqn);
    }
  }

  lemma OtherRecordsStay(maxConcurrent: nat, s: State, step: Step, fqn: string)
    requires Enabled(maxConcurrent, s, step) && fqn in s.records && !IsBuilding(s.records, fqn)
    requires step.Start? ==> step.fqn != fqn
    requires !step.Start? && !step.Tick? ==> BuildOk(s, step.id)
    ensures var records := Apply(maxConcurrent, s, step).records;
            fqn in records && records[fqn] == s.records[fqn]
  {
  }

  /** A build that fails, or gives up in the queue, at time t: the image is not built again before t + 60. */
  lemma NoRetryForAMinute(maxConcurrent: nat, s: State, failure: Step, steps: seq<Step>, retry: Step)
    requires Reachable(maxConcurrent, s) && Enabled(maxConcurrent, s, failure)
    requires failure.GiveUp? || (failure.Finish? && failure.err.Some?)
    requires IsRun(maxConcurrent, Apply(maxConcurrent, s, failure), steps)
    requires Enabled(maxConcurrent, After(maxConcurrent, Apply(maxConcurrent, s, failure), steps), retry)
    requires retry.Start? && retry.fqn == s.builds[failure.id].fqn
    requires forall i :: 0 <= i < |steps| ==> !(steps[i].Start? && steps[i].fqn == retry.fqn)
    ensures After(maxConcurrent, Apply(maxConcurrent, s, failure), steps).now >= s.now + 60
  {
    ReachableOk(maxConcurrent, s);
    StepKeepsInv(maxConcurrent, s, failure);
    hide Inv, Reachable, IsRun, After;
    RecordStays(maxConcurrent, Apply(maxConcurrent, s, failure), steps, retry.fqn);
  }

  /** Slots in use are the builds past the queue, on every path out of `build`; never too many. */
  lemma SlotsAreConserved(maxConcurrent: nat, s: State)
    requires Reachable(maxConcurrent, s) && maxConcurrent > 0
    ensures s.used == |Holders(s.builds)| <= maxConcurrent
    ensures |InProgress(s.builds)| <= maxConcurrent
  {
    hide BuildOk, RecordOk;
    ReachableOk(maxConcurrent, s);
    var holders, running := Holders(s.builds), InProgress(s.builds);
    assert holders == running + (holders - running);
  }

  /** The builds for which the engine is building an image right now. */
  ghost function InProgress(builds: map<nat, Build>): set<nat> {
    set id | id in builds && builds[id].phase.Running?
  }

  /** Nothing but a full semaphore holds a build up: it can take its next step in any reachable state. */
  lemma OnlySlotsHoldUp(maxConcurrent: nat, s: State, id: nat, lines: seq<string>, stage: string, err: Option<string>,
                        reason: string)
    requires Reachable(maxConcurrent, s) && id in s.builds
    ensures s.builds[id].phase.Started? ==>
              Enabled(maxConcurrent, s, if maxConcurrent > 0 then Enqueue(id) else Prepare(id))
    ensures s.builds[id].phase.Queued? ==>
              && Enabled(maxConcurrent, s, GiveUp(id, reason))
              && (Enabled(maxConcurrent, s, Acquire(id)) <==> |Holders(s.builds)| < maxConcurrent)
    ensures s.builds[id].phase.Acquired? ==> Enabled(maxConcurrent, s, Prepare(id))
    ensures s.builds[id].phase.Running? ==>
              Enabled(maxConcurrent, s, Output(id, lines, stage)) && Enabled(maxConcurrent, s, Finish(id, err))
    ensures s.builds[id].phase.Done? ==> Enabled(maxConcurrent, s, Release(id))
  {
    ReachableOk(maxConcurrent, s);
    assert BuildOk(s, id);
    if s.builds[id].phase.Done? {
      assert id in Holders(s.builds);
    }
  }

  lemma Take(maxConcurrent: nat, s: State, step: Step) returns (s': State)
    requires Reachable(maxConcurrent, s) && Enabled(maxConcurrent, s, step)
    ensures s' == Apply(maxConcurrent, s, step) && Reachable(maxConcurrent, s')
  {
    hide Apply, Enabled;
    s' := Apply(maxConcurrent, s, step);
    var now, steps :| IsRun(maxConcurrent, Init(now), steps) && After(maxConcurrent, Init(now), steps) == s;
    RunSnoc(maxConcurrent, Init(now), steps, step);
  }

  lemma {:induction false} RunSnoc(maxConcurrent: nat, s: State, steps: seq<Step>, step: Step)
    requires IsRun(maxConcurrent, s, steps) && Enabled(maxConcurrent, After(maxConcurrent, s, steps), step)
    ensures IsRun(maxConcurrent, s, steps + [step])
    ensures After(maxConcurrent, s, steps + [step]) == Apply(maxConcurrent, After(maxConcurrent, s, steps), step)
    decreases |steps|
  {
    hide Apply, Enabled;
    if steps == [] {
      assert [step][1..] == [];
    } else {
      assert (steps + [step])[1..] == steps[1..] + [step];
      RunSnoc(maxConcurrent, Apply(maxConcurrent, s, steps[0]), steps[1..], step);
    }
  }

  ghost predicate CanRun(maxConcurrent: nat, s: State, id: nat) {
    exists steps: seq<Step> :: IsRun(maxConcurrent, s, steps) && At(After(maxConcurrent, s, steps), id, Running)
                    && forall i :: 0 <= i < |steps| ==> !steps[i].Start? && !steps[i].GiveUp?
  }

  lemma CanRunCons(maxConcurrent: nat, s: State, step: Step, id: nat)
    requires Enabled(maxConcurrent, s, step) && CanRun(maxConcurrent, Apply(maxConcurrent, s, step), id)
    requires !step.Start? && !step.GiveUp?
    ensures CanRun(maxConcurrent, s, id)
  {
    hide Apply, Enabled;
    var s' := Apply(maxConcurrent, s, step);
    var rest: seq<Step> :| IsRun(maxConcurrent, s', rest) && At(After(maxConcurrent, s', rest), id, Running)
                && forall i :: 0 <= i < |rest| ==> !rest[i].Start? && !rest[i].GiveUp?;
    var steps := [step] + rest;
    assert steps[1..] == rest;
    assert IsRun(maxConcurrent, s, steps) && After(maxConcurrent, s, steps) == After(maxConcurrent, s', rest);
  }

  /** The steps a build that holds a slot is away from giving it back. */
  function ToRelease(phase: Phase): nat {
    match phase
    case Started => 0
    case Queued => 0
    case Acquired => 3
    case Running => 2
    case Done => 1
  }

  /** With a slot free for it, or one that some build is to give back, a queued build gets to run. */
  lemma {:induction false} QueuedCanRun(maxConcurrent: nat, s: State, id: nat, holder: nat)
    requires Reachable(maxConcurrent, s) && At(s, id, Queued)
    requires s.used < maxConcurrent || (holder in s.builds && Holds(s.builds[holder]))
    ensures CanRun(maxConcurrent, s, id)
    decreases s.used >= maxConcurrent, if holder in s.builds then ToRelease(s.builds[holder].phase) else 0
  {
    hide Reachable, CanRun;
    if s.used < maxConcurrent {
      var s1 := Take(maxConcurrent, s, Acquire(id));
      var s2 := Take(maxConcurrent, s1, Prepare(id));
      RunsAlready(maxConcurrent, s2, id);
      CanRunCons(maxConcurrent, s1, Prepare(id), id);
      CanRunCons(maxConcurrent, s, Acquire(id), id);
    } else {
      OnlySlotsHoldUp(maxConcurrent, s, holder, [], "", None, "");
      UsedIsBounded(maxConcurrent, s, id);
      var step := match s.builds[holder].phase
        case Acquired => Prepare(holder)
        case Running => Finish(holder, None)
        case _ => Release(holder);
      var s' := Take(maxConcurrent, s, step);
      QueuedCanRun(maxConcurrent, s', id, holder);
      CanRunCons(maxConcurrent, s, step, id);
    }
  }

  lemma RunsAlready(maxConcurrent: nat, s: State, id: nat)
    requires At(s, id, Running)
    ensures CanRun(maxConcurrent, s, id)
  {
    var steps: seq<Step> := [];
    assert IsRun(maxConcurrent, s, steps) && After(maxConcurrent, s, steps) == s;
  }

  lemma UsedIsBounded(maxConcurrent: nat, s: State, id: nat)
    requires Reachable(maxConcurrent, s) && At(s, id, Queued)
    ensures maxConcurrent > 0 && s.used == |Holders(s.builds)| <= maxConcurrent
  {
    ReachableOk(maxConcurrent, s);
  }

  /** No slot is lost, so every build can get to run, without new builds or others giving up. */
  lemma EveryBuildCanRun(maxConcurrent: nat, s: State, id: nat)
    requires Reachable(maxConcurrent, s) && (At(s, id, Started) || At(s, id, Queued))
    ensures CanRun(maxConcurrent, s, id)
  {
    hide Reachable, CanRun;
    OnlySlotsHoldUp(maxConcurrent, s, id, [], "", None, "");
    if s.builds[id].phase.Started? {
      if maxConcurrent == 0 {
        var s' := Take(maxConcurrent, s, Prepare(id));
        RunsAlready(maxConcurrent, s', id);
        CanRunCons(maxConcurrent, s, Prepare(id), id);
      } else {
        var s' := Take(maxConcurrent, s, Enqueue(id));
        QueuedGetsSlot(maxConcurrent, s', id);
        CanRunCons(maxConcurrent, s, Enqueue(id), id);
      }
    } else {
      QueuedGetsSlot(maxConcurrent, s, id);
    }
  }

  lemma QueuedGetsSlot(maxConcurrent: nat, s: State, id: nat)
    requires Reachable(maxConcurrent, s) && At(s, id, Queued)
    ensures CanRun(maxConcurrent, s, id)
  {
    hide Reachable, CanRun;
    UsedIsBounded(maxConcurrent, s, id);
    if s.used < maxConcurrent {
      QueuedCanRun(maxConcurrent, s, id, id);
    } else {
      var holder :| holder in Holders(s.builds);
      QueuedCanRun(maxConcurrent, s, id, holder);
    }
  }

  /**
   * What a request is shown of a build under way or failed is the tail of that build's own
   * output, and nothing of an earlier attempt at the same image.
   */
  lemma LogIsOfOwnBuild(maxConcurrent: nat, s: State, fqn: string)
    requires Reachable(maxConcurrent, s) && fqn in s.records && !s.records[fqn].state.ImageReady?
    ensures fqn in s.owner && s.owner[fqn] in s.emitted
    ensures s.records[fqn].logLines == Tail(Collapsed(Flatten(s.emitted[s.owner[fqn]])))
  {
    ReachableOk(maxConcurrent, s);
    assert RecordOk(s, fqn);
    StreamingEqualsBatch(s.emitted[s.owner[fqn]]);
  }

  /** `finish` always finds a record: the branch that makes one up is never taken. */
  lemma FinishFindsRecord(maxConcurrent: nat, s: State, step: Step)
    requires Reachable(maxConcurrent, s) && Enabled(maxConcurrent, s, step) && (step.Finish? || step.GiveUp?)
    ensures IsBuilding(s.records, s.builds[step.id].fqn)
  {
    ReachableOk(maxConcurrent, s);
    assert BuildOk(s, step.id);
  }
}
