/**
 * internal/qrunner/dockerengine/build_manager.go: the manager and its records as objects. Their
 * methods are the critical sections that the transition system in module Builds is made of.
 */
module BuildManager {
  import opened Options
  import opened Strings
  import BuildLog
  import opened Builds

  class BuildRecord {
    var state: ImageState
    var stage: string
    var logLines: seq<string>
    var err: Option<string>
    var finishedAt: int

    constructor (state: ImageState, stage: string)
      ensures Value() == Record(state, stage, [], None, 0)
    {
      this.state, this.stage, logLines, err, finishedAt := state, stage, [], None, 0;
    }

    ghost function Value(): Record
      reads this
    {
      Record(state, stage, logLines, err, finishedAt)
    }

    /** The part of `finish` that works on the record. */
    method Finish(err: Option<string>, now: int)
      modifies this
      ensures Value() == old(Value()).(finishedAt := now, err := err,
                                       state := if err.Some? then ImageFailed else ImageReady,
                                       logLines := if err.Some? then old(logLines) else [])
    {
      finishedAt := now;
      this.err := err;
      if err.Some? {
        state := ImageFailed;
      } else {
        state := ImageReady;
        logLines := [];
      }
    }

    method AppendLogs(lines: seq<string>)
      modifies this`logLines
      ensures logLines == BuildLog.AppendLogs(old(logLines), lines)
    {
      hide BuildLog.IsProgressLine;
      for i := 0 to |lines|
        invariant BuildLog.AppendLines(logLines, lines[i..]) == BuildLog.AppendLines(old(logLines), lines)
      {
        var line, n := lines[i], |logLines|;
        assert lines[i..][0] == line && lines[i..][1..] == lines[i + 1..];
        if BuildLog.IsProgressLine(line) && n > 0 && BuildLog.IsProgressLine(logLines[n - 1]) {
          logLines := logLines[n - 1 := line];
        } else {
          logLines := logLines + [line];
        }
      }
      if |logLines| > BuildLog.MAX_LOG_LINES {
        logLines := logLines[|logLines| - BuildLog.MAX_LOG_LINES..];
      }
    }
  }

  /** `qrunner.ImageStatus`. */
  datatype ImageStatus = ImageStatus(state: ImageState, detail: string, error: string, logs: string)

  function ErrString(err: Option<string>): string {
    match err
    case None => ""
    case Some(e) => e
  }

  /** What `Ensure` returns: a status or one of its errors. */
  datatype Answer = Status(status: ImageStatus) | BuildsNotSupported | NotResolved

  class Manager {
    const enabled: bool
    var records: map<string, BuildRecord>

    /** No record is shared by two images. */
    ghost predicate Valid()
      reads this
    {
      forall f, g :: f in records && g in records && f != g ==> records[f] != records[g]
    }

    ghost function View(): Records
      reads this, records.Values
    {
      map f | f in records :: records[f].Value()
    }

    constructor (enabled: bool)
      ensures Valid() && View() == map[] && this.enabled == enabled
    {
      this.enabled, records := enabled, map[];
    }

    /**
     * `resolved` is the image name the version and build type resolve to, `imageExists` the engine's
     * answer about the image, `started` whether a goroutine was launched to build it. Nothing
     * changes unless a build is started.
     */
    method Ensure(resolved: Option<string>, imageExists: bool, now: int) returns (answer: Answer, started: bool)
      requires Valid()
      modifies this`records
      ensures Valid()
      ensures !enabled ==> answer == BuildsNotSupported
      ensures enabled && resolved.None? ==> answer == NotResolved
      ensures enabled && resolved.Some? && imageExists ==> answer == Status(ImageStatus(ImageReady, "", "", ""))
      ensures enabled && resolved.Some? && !imageExists ==>
                var fqn, was := resolved.value, old(View());
                if started then
                  && answer == Status(ImageStatus(ImageBuilding, "Starting build", "", ""))
                  && View() == was[fqn := Record(ImageBuilding, "Starting build", [], None, 0)]
                else
                  && fqn in was
                  && var rec := was[fqn];
                     answer == Status(if rec.state == ImageBuilding
                                      then ImageStatus(ImageBuilding, rec.stage, "", Joined(rec.logLines, '\n'))
                                      else ImageStatus(ImageFailed, "", if rec.err.Some? then rec.err.value else "",
                                                       Joined(rec.logLines, '\n')))
      ensures started <==> && enabled && resolved.Some? && !imageExists
                           && (resolved.value in old(View()) ==>
                                 var rec := old(View())[resolved.value];
                                 && rec.state != ImageBuilding
                                 && (rec.state == ImageFailed ==> now >= rec.finishedAt + 60))
      ensures started ==> StartsBuild(old(View()), resolved.value, now)
      ensures started ==> View() == old(View())[resolved.value := FRESH_RECORD]
      ensures !started ==> View() == old(View())
    {
      started := false;
      if !enabled {
        return BuildsNotSupported, false;
      }
      if resolved.None? {
        return NotResolved, false;
      }
      var fqn := resolved.value;
      if imageExists {
        return Status(ImageStatus(ImageReady, "", "", "")), false;
      }
      ghost var was := View();
      if fqn in records {
        var rec := records[fqn];
        assert was[fqn] == rec.Value();
        if rec.state == ImageBuilding {
          return Status(ImageStatus(ImageBuilding, rec.stage, "", Joined(rec.logLines, '\n'))), false;
        }
        if rec.state == ImageFailed && now - rec.finishedAt < RETRY_COOLDOWN {
          return Status(ImageStatus(ImageFailed, "", ErrString(rec.err), Joined(rec.logLines, '\n'))), false;
        }
      }
      var fresh' := new BuildRecord(ImageBuilding, STAGE_STARTING);
      records := records[fqn := fresh'];
      return Status(ImageStatus(ImageBuilding, STAGE_STARTING, "", "")), true;
    }

    method SetStage(fqn: string, stage: string)
      requires Valid()
      modifies records.Values
      ensures Valid() && records == old(records)
      ensures View() == WithStage(old(View()), fqn, stage)
      ensures forall f :: f in View() <==> f in old(View())
      ensures forall f :: f in View() ==>
                var was := old(View())[f];
                View()[f] == if f == fqn && was.state == ImageBuilding then was.(stage := stage) else was
    {
      if fqn in records && records[fqn].state == ImageBuilding {
        records[fqn].stage := stage;
      }
    }

    /** `onBuildLine`, given what the chunk was split into and the stage it signals, if any. */
    method OnBuildLine(fqn: string, lines: seq<string>, stage: string)
      requires Valid()
      modifies records.Values
      ensures Valid() && records == old(records)
      ensures View() == WithChunk(old(View()), fqn, lines, stage)
    {
      if lines == [] && stage == "" {
        return;
      }
      if fqn !in records || records[fqn].state != ImageBuilding {
        return;
      }
      var rec := records[fqn];
      if stage != "" {
        rec.stage := stage;
      }
      rec.AppendLogs(lines);
    }

    method Finish(fqn: string, err: Option<string>, now: int)
      requires Valid()
      modifies this`records, records.Values
      ensures Valid()
      ensures View() == Finished(old(View()), fqn, err, now)
    {
      if fqn !in records {
        var made := new BuildRecord(NoState, "");
        records := records[fqn := made];
      }
      records[fqn].Finish(err, now);
    }
  }
}
