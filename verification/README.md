# ClickHouse Playground: models and proofs

Dafny models of the parts of the ClickHouse playground that hold the most state, branching and
arithmetic, with proofs of what they guarantee. `dafny verify dfyconfig.toml` checks all of it.

Three kinds of modules:

- **Transition systems** for code that runs concurrently: `Admission` (the load balancer of the
  coordinator), `PrewarmQueue` and `WarmContainers` (prewarmed containers), `Builds` (image builds),
  `TagCache` (the cache of image tags). One step is one critical section, one atomic operation, or
  the return of a call to something outside: the Docker engine, the registry, a job's function. Such
  calls may succeed or fail in any way. The results hold for every reachable state or every run.
  Fields described as history are written by the steps and read by none.
- **Objects**: `Balancer`, `Prewarmer`, `BuildManager`, `TagCache.Cache` and
  `Resolver.CachingResolver` are the program's own types with their fields. Each critical section is
  a method proved against a specification: where there is a transition system, against its step or
  the functions its steps are made of. The methods of `Prewarmer.ContainerState` each stand for the
  few steps taken under a container's lock; `CriticalSections.PauseInOneGo` and `FetchInOneGo` say what
  these come to.
- **Algorithms**: `HexViewer` and `Utf` (bytes against text), `HighlightRanges`, `Tokens`, `Brackets`,
  `DigitGroups` and `Decorations` (the query editor), `WeightedChoice`, `BuildLog`, `Semver`,
  `TagList`, `CiReport`, `ImageGc`. Loops that update variables are methods proved against functions or
  declarative specifications, and the results are lemmas about those. `Sorting` says what the sort
  functions of Go and JavaScript promise; `Options` is a value that may be missing; `Strings` is what is
  used of Go's package of that name, `Words` are integers of a fixed width.

## What the proofs show about the code

- **Balancer.** "At most M jobs" is false. A liveness probe that succeeds while a job has yet to put
  its runner back lets in one job more, each time; the bound M + k, with k such probes, is proved and
  attained, and it is M where no probe does so (`LimitIsKept`); k starts over once all jobs that excluded
  the runner have put it back. A limit of 0 admits one job. A runner found dead does not always stay
  out: it can get back in before it is found alive if and only if a job that excluded it is still
  running or yet to put it back (`RejoinsIffPending`).
- **Prewarmer.** With a configured number of 1 nothing is ever prewarmed: the queue is trimmed until
  it is shorter than that number, which drops the request just pushed (`PrewarmsIffRoomForTwo`).
  `ejectContainer` panics if and only if the clock has not moved past the oldest container
  (`EjectContainer`, `StoreContainer`). A found container is never paused, unless a pause that the
  engine reported as failed took effect all the same: the code then takes the container for running
  and does not unpause it (`FoundIsNeverPaused`, `PausedAfterFetch`).
- **Version order.** The comment on `IsGreater` calls it fit for sorting. That is so if and only if
  every component is a number of 64 bits, or is not strictly between `0` and nineteen nines as a
  string (`OrderIffClean`). A component like `5a` closes a cycle with two numbers (`UncleanCycle`).
  Under the same condition, and no other, `IsAtLeastMajor` keeps up with newer versions
  (`MonotoneIffClean`).
- **Tag cache.** A digest resolved for an image that was looked up before a refresh may be filled in
  after it, and brings the old spelling of the tag with it (`LateFillKeepsOldSpelling`); whether the
  digest is still current is not claimed. An entry has another spelling than the last refresh gave it
  if and only if this has happened to it since (`SpelledAsRefreshed`).
- **Image garbage collection.** A comment in `collectImages` speaks of dropping the least recently
  tagged images; the code, like the comment above the function, keeps those and removes the others.
- **Image builds.** `finish` never has to make up a record (`FinishFindsRecord`). No slot is lost, so
  every build that waits can get to run (`EveryBuildCanRun`).
- **Query editor.** What the lexer leaves over at the end of a query is marked as an error if and only if
  some token comes before it. A query whose first token is an error has no tokens, and is not marked at
  all (`MarksAreThose`).
- **Highlighting.** Removing duplicate ranges before the merge changes nothing: the result depends on
  the positions only (`MarksDependOnPositions`).

## Reading the models

- Go maps are iterated in an order the caller cannot know: it is a parameter, any sequence with every
  key once (`WeightedChoice.IsOrder`), and may differ between two loops over the same map.
- `normalizeTag`, `strings.EqualFold` and the lower-casing of CI statuses depend on Unicode tables;
  they are parameters, arbitrary functions. `path.Base`, `strings.Split`, `strings.FieldsFunc` with
  `unicode.IsSpace`, and the two regular expressions of the CI modules are written out.
- Time is a clock of whole ticks that does not go back. The `Store` step of `WarmContainers` also
  asks that it has moved past the oldest container whenever one is to be ejected; the `EjectContainer`
  method does not ask it, and says what happens if it has not.
- A Go string in `Semver` is compared by code points, as bytes of UTF-8 are; text in `HexViewer`
  and in the query editor is a sequence of UTF-16 units, lone surrogates included, and bytes are
  numbers below 256.
- In `Admission`, setting a runner's flag and changing its membership are one step of the liveness
  loop: nothing in the balancer reads the flag.
- `Admission` counts without bound; `Balancer` has the 32-bit counter, and its methods are the steps as
  long as that does not overflow.
- `Brackets` writes the one loop that fills depths, matches and offsets as two, `ScanBrackets` and
  `TokenStarts`; neither part reads what the other writes.
- In `Resolver`, `Answers` are those of GitHub and the CI in one call, and may differ from call to
  call; a build type is a name without a slash, as all names that the program accepts are. The lock is
  free between the lookup and the store of a call; `others` is what other calls store meanwhile.
- A class name of the query editor is its base, then whether it ends in `q-br-match` and `q-underline`.

## Model

The first 67 rows are the main results; then follows, module by module, what they rest on and what
ties them to the code.

| member | source | states |
|---|---|---|
| Admission.ConcurrencyIsBounded | internal/qrunner/coordinator/balancer.go:73-105 | in every interleaving of jobs and liveness probes a runner limited to M runs at most M jobs at once (one, if M is 0), plus one per liveness insert made, since excluding jobs were last all done, while one had yet to put the runner back |
| Admission.BoundIsAttained | internal/qrunner/coordinator/coordinator.go:118-126 | that bound is exact: for every M and k some interleaving with k such inserts runs that many jobs at once |
| Admission.RejoinsIffPending | internal/qrunner/coordinator/coordinator.go:118-126 | a runner out of the balancer, because its probe failed say, can get back in before it is found alive if and only if some job that excluded it is still running or yet to put it back |
| Admission.FullRunnerIsExcluded | internal/qrunner/coordinator/balancer.go:84-90 | without such inserts a runner that runs as many jobs as it may is not in the balancer, so it admits no more |
| Admission.NoRunnerIsForgotten | internal/qrunner/coordinator/balancer.go:97-100 | a runner outside the balancer was put out by its liveness loop, or some job has yet to put it back: no interleaving loses it |
| Admission.LimitIsKept | internal/qrunner/coordinator/balancer.go:73-105 | in a run in which the liveness loop puts a runner back only when it is there already or no job is to put it back, a runner limited to M never runs more than M jobs (one, if M is 0) |
| WeightedChoice.DrawsPerRunner | internal/qrunner/coordinator/balancer.go:120-128 | of any number of draws (2^64 among them) a runner gets its weight times the whole rounds of the total, at most one round more if a rest remains |
| WeightedChoice.ResiduesPerRunner | internal/qrunner/coordinator/balancer.go:120-128 | of the residues modulo the total, exactly as many pick a runner as its weight says |
| WeightedChoice.PickNeverFallsThrough | internal/qrunner/coordinator/balancer.go:122-130 | the loop returns a runner, of positive weight, if and only if the number is below the total |
| PrewarmQueue.NoLostWakeup | internal/qrunner/dockerengine/prewarmer.go:57-92 | in every reachable state a non-empty queue has a pending signal, a worker about to extract, or a worker that will notify again; the queue holds no image twice and stays below the configured number |
| PrewarmQueue.QueueDrains | internal/qrunner/dockerengine/prewarmer.go:64-92 | without new pushes the worker stops after boundedly many steps, and only when the queue is empty and everything queued was served, in order |
| PrewarmQueue.QueueIsNewest | internal/qrunner/dockerengine/prewarmer.go:228-246 | after any run the queue is the end of the list of all requests accepted, oldest first |
| PrewarmQueue.PrewarmsIffRoomForTwo | internal/qrunner/dockerengine/prewarmer.go:228-246 | some request is ever served if and only if the configured number is at least two: the trim drops what was just pushed when there is room for one |
| WarmContainers.HandOutIsExclusive | internal/qrunner/dockerengine/prewarmer.go:134-224 | in every run a container id is handed to at most one Fetch, is in the map at most once, and is never in two of: the map, handed out, ejected, created without being stored |
| WarmContainers.ExtractedIsOfImage | internal/qrunner/dockerengine/prewarmer.go:271-287 | what a call of Fetch takes out of the map was created for the image asked for, and no other call has it |
| WarmContainers.CapacityIsKept | internal/qrunner/dockerengine/prewarmer.go:158-163 | whenever the lock is free the map holds at most the configured number of containers |
| WarmContainers.OldestIsEjected | internal/qrunner/dockerengine/prewarmer.go:158-163 | of a full map and a new container one is ejected, and it is as old as any of them |
| WarmContainers.FoundIsNeverPaused | internal/qrunner/dockerengine/prewarmer.go:251-307 | a container that Fetch returned as found is unpaused at every later time, whatever its pausing goroutine does, if and only if no pause that the engine reported as failed had taken effect on it |
| WarmContainers.LocksAreGivenBack | internal/qrunner/dockerengine/prewarmer.go:171-191 | nobody is stuck at the lock of a container: it is free for those who wait, or its one holder can go on, however the engine answers |
| Builds.OneLiveBuildPerImage | internal/qrunner/dockerengine/build_manager.go:116-154 | in every run an image has at most one live build, and has one exactly while its record is in state building |
| Builds.SlotsAreConserved | internal/qrunner/dockerengine/build_manager.go:268-310 | the slots in use are exactly the builds that have taken one and not given it back, on every path out of build, and never more than MaxConcurrent; so are the builds in progress |
| Builds.LogIsOfOwnBuild | internal/qrunner/dockerengine/build_manager.go:175-193 | the log of a record that is building or failed is the collapsed tail of the output of the build the record was made for, and of no earlier one |
| Builds.FinishFindsRecord | internal/qrunner/dockerengine/build_manager.go:312-331 | whenever a build finishes its record is there and in state building: the branch that makes one up is never taken |
| Builds.NoRetryForAMinute | internal/qrunner/dockerengine/build_manager.go:142-151 | in every run an image whose build failed, or gave up in the queue, at time t is not built again before t + 60 |
| Builds.EveryBuildCanRun | internal/qrunner/dockerengine/build_manager.go:265-331 | no slot is lost: in every reachable state a build that waits can get to run, by steps of builds already there and without any of them giving up |
| BuildLog.StreamingEqualsBatch | internal/qrunner/dockerengine/build_manager.go:220-232 | for every split of the lines into chunks, the log is the last 200 lines of the whole stream with each run of progress lines replaced by its last |
| BuildLog.LogLinesAreKept | internal/qrunner/dockerengine/build_manager.go:220-232 | the log has at most 200 lines: in order, those lines of the stream that are not progress lines right before progress lines; all of them, or the last 200 |
| BuildLog.NoAdjacentProgressLines | internal/qrunner/dockerengine/build_manager.go:218-226 | no two neighbouring lines of a log are progress lines |
| HexViewer.SelectionsOfRenderedText | ui/src/components/HexViewer.tsx:108-142 | for every byte sequence and its decoding with one U+FFFD per invalid byte: each valid code point gets exactly its own UTF-16 range, invalid bytes get none, and the text cursor ends at the end of the text |
| HexViewer.EveryByteIsShown | ui/src/components/HexViewer.tsx:108-142 | in that text, the range of a byte holds the UTF-16 form of the code point its bytes encode |
| HexViewer.RangesAreSound | ui/src/components/HexViewer.tsx:108-142 | whatever the text and the bytes, a range is not empty, lies in the text, and its characters encode to exactly the bytes of the selection |
| HexViewer.SelectionsOfEncodedText | ui/src/components/HexViewer.tsx:145-146 | for bytes that are the UTF-8 encoding of the text, lone surrogates included, every byte gets a range and the cursor ends at the end |
| HexViewer.LengthDecidesUtf8 | ui/src/components/HexViewer.tsx:41-95 | the length is positive if and only if a code point is encoded at the offset as in sections 3 and 4 of RFC 3629, and then it is the length of that encoding |
| HighlightRanges.OutputHighlight | ui/src/components/EditorPanel.tsx:84-97 | the marked ranges are in order with gaps between them, cover exactly the positions of the ranges given, and are not empty if those were not |
| HighlightRanges.SeparatedIsUnique | ui/src/components/EditorPanel.tsx:90-97 | non-empty ranges with gaps between them are determined by the positions they cover, so the above is the whole specification |
| HighlightRanges.MarksDependOnPositions | ui/src/components/EditorPanel.tsx:84-97 | the marks do not depend on the order of the ranges, on duplicates, or on how the positions are cut into ranges |
| Brackets.MatchedIffBalanced | ui/src/sql/highlight.ts:132-157 | two tokens are matched if and only if the one opens, the other is its closing type, and the brackets between them form a typed balanced word; so the reset of the stack loses no balanced pair |
| Brackets.MatchingIsInvolution | ui/src/sql/highlight.ts:147-152 | the mate of the mate of a token is the token, never itself, and both have the same depth, which is not negative |
| Brackets.MatchesNeverCross | ui/src/sql/highlight.ts:132-157 | a pair that starts inside another ends inside it |
| Brackets.DepthCountsEnclosingPairs | ui/src/sql/highlight.ts:147-152 | the depth of an inner pair exceeds that of an outer one by the number of matched pairs around the inner one, from the outer one inwards |
| Brackets.DepthCountsOpenBrackets | ui/src/sql/highlight.ts:141-157 | the depth of a pair is the number of openers before it that are open there: every closer in between closes something inside of them |
| Brackets.DepthIffMated | ui/src/sql/highlight.ts:132-157 | a token has a depth if and only if it has a mate: a bracket that pairs with it and a balanced word between |
| Decorations.ColoredIffMated | ui/src/sql/highlight.ts:285 | a token has a rainbow color if and only if it has a mate, and mates have one color |
| Decorations.ColorsFollowDepth | ui/src/sql/highlight.ts:285 | mates have the color, of seven, of the number of brackets open where they start; from a pair to one inside it the color moves on by the number of pairs around the inner one |
| Decorations.BuildDecorations | ui/src/sql/highlight.ts:276-310 | exactly the list of marks of the tokens with their classes, then that of the tail; none starts before the one added before it, and all lie in the text if the tokens do; without tokens, because the lexer is not ready, fails or stops at once, nothing is marked |
| Decorations.MarksAreThose | ui/src/sql/highlight.ts:269-308 | a mark is added if and only if it is the class mark of a token, a digit of a number at a group boundary, or what the tokens leave over; that is marked if and only if there is a token before it |
| Semver.OrderIffClean | pkg/chspec/semver.go:25-40 | over any components that include all numbers, IsGreater is a strict weak order if and only if every component is clean: a number, or not strictly between 0 and nineteen nines as a string |
| Semver.FirstDifferenceDecides | pkg/chspec/semver.go:25-40 | a version is greater if and only if, after components that are numbers of equal value, it has the greater number, or, where one of the two is no number, the string that comes first, or the other has ended |
| Semver.MonotoneIffClean | pkg/chspec/semver.go:43-49 | over any components that include all numbers, every version not older than one that reaches a major version reaches it too, if and only if all components are clean |
| TagCache.CacheAgreesWithLastRefresh | internal/dockertag/cache.go:114-199 | in every interleaving the cache has the keys of the last completed refresh, each with that refresh's repository and under its tag's normal form; a digest was answered for exactly that repository and tag; an entry without digest is the refresh's own; the list is that refresh's, sorted |
| TagCache.OneAsyncUpdate | internal/dockertag/cache.go:147-170 | at most one background update is under way, and the flag is set exactly while one is |
| TagCache.NoLaunchBeforeExpiry | internal/dockertag/cache.go:147-158 | after a refresh that completes at time t no background update starts before t plus the expiration time |
| TagCache.FindReturnsItsOwnDigest | internal/dockertag/cache.go:126-142 | a digest Find returns was answered for the repository and tag it returns, under the key it was asked for |
| TagCache.SpelledAsRefreshed | internal/dockertag/cache.go:135-139 | an entry has the spelling of the last refresh if and only if no Find that had looked it up before that refresh, under another spelling, has filled it in since |
| TagCache.DigestStays | internal/dockertag/cache.go:108-113 | a digest in the cache stays, unchanged, as long as no refresh completes |
| TagList.Merge | internal/dockertag/cache.go:232-245 | every normalised tag has the image of the first place, in repository order, that has the tag, and the map holds nothing else |
| TagList.SortWith | internal/dockertag/cache.go:284-341 | every entry but the dropped tags, once; first the head tags present, in the order of their list; then, if their versions are clean, none greater than one before it |
| TagCache.FetchRepositories | internal/dockertag/cache.go:208-269 | fails exactly if a repository does; otherwise every tag is under its normal form, spelled and attributed as where it first comes, without a digest, and nothing else is there; with the list of them this is just what the transition system takes a fetch to give |
| CiReport.FindIsFirst | pkg/clickhousebuilds/models.go:40-51 | the nested search finds what is wanted at the first place, in reading order of the report tree, where there is any, and nothing exactly if there is none |
| CiReport.BuildJobIsFirst | pkg/clickhousebuilds/models.go:60-80 | AMDBuildJob finds a job if and only if the report has a successful amd64 build of the variant somewhere, and then the first one |
| Resolver.CachingResolver.Resolve | internal/cibuild/resolver.go:90-150 | whatever comes back is a build of the version and build type asked for; an unexpired entry is returned as it is; otherwise, whatever other calls store meanwhile, the first candidate commit that has a job with all packages decides and is stored, and the error is that of the last candidate if none has; a fully qualified version is never a bad one, and with a tagged commit does not need the recent ones: that commit, if it works, is taken |
| Resolver.TaggedCommitComesFirst | internal/cibuild/resolver.go:155-189 | if the branch's commits are distinct: for a fully qualified version with a tagged commit the candidates are that commit and then the five most recent without it, or it alone; otherwise just the recent ones, and an error without any |
| Resolver.SpecHasThreePackages | internal/cibuild/resolver.go:221-241 | a resolved build has three distinct links, of the three required packages in order |
| ImageGc.GetImages | internal/qrunner/dockerengine/engine_provider.go:189-216 | fails exactly if the engine does; the in-place swap-and-pop loop terminates and leaves exactly the playground images, each as often as it was listed; unfiltered, everything in place |
| ImageGc.CollectImages | internal/qrunner/dockerengine/gc.go:165-201 | fails exactly if the list does; below the threshold nothing is removed; else removal is tried for exactly the inspected images beyond the buffer, and no image kept was tagged later than one removed; count and space are of those of which every tag is gone |
| ImageGc.SplitIsUnique | internal/qrunner/dockerengine/gc.go:190-197 | if tag times differ, which images are kept depends neither on the order of the list nor on that of the sort |
| ImageGc.OnlyPlaygroundImagesGo | internal/qrunner/dockerengine/gc.go:165-201 | if the engine inspects the image it is asked about, no image is removed that has no playground tag |
| Admission.CounterIsExact | internal/qrunner/coordinator/runner.go:47-49 | the atomic counter of a runner is the number of its jobs between increment and decrement |
| Admission.StepKeepsInv | internal/qrunner/coordinator/balancer.go:73-105 | every step of a job and of the liveness loop keeps, per runner: membership plus jobs yet to put it back is at most one plus the liveness inserts, jobs admitted without exclusion are below the limit, and the counter is exact |
| Admission.DeadRunnerRejoins | internal/qrunner/coordinator/balancer.go:97-100 | a whole run of that kind: found dead, put back by the job that finishes, in the balancer with no jobs left |
| Balancer.LoadBalancer.Add | internal/qrunner/coordinator/balancer.go:33-47 | adds the runner and nothing else; reports whether it was missing |
| Balancer.LoadBalancer.RemoveUnderLock | internal/qrunner/coordinator/balancer.go:57-66 | takes the runner out, if it is there, and changes nothing else |
| Balancer.LoadBalancer.SelectRunner | internal/qrunner/coordinator/balancer.go:111-131 | nil if the total weight is 0; otherwise never nil, and the runner on whose share the draw modulo the total falls, even if the two loops meet the runners in different orders |
| Balancer.LoadBalancer.TotalWeight | internal/qrunner/coordinator/balancer.go:113-116 | the first loop adds up the weights |
| Balancer.LoadBalancer.WalkDown | internal/qrunner/coordinator/balancer.go:122-128 | the second loop finds the runner on whose share the number falls, or none |
| Balancer.Runner.AddConcurrency | internal/qrunner/coordinator/runner.go:47-49 | adds with 32-bit wrap-around and returns the new counter as an unsigned number |
| Balancer.LoadBalancer.Admit | internal/qrunner/coordinator/balancer.go:73-95 | selects, counts with wrap-around, and excludes exactly if the unsigned counter reaches the limit; while the counter has room this is the step Admit; no runner and no change exactly if the total weight is 0 |
| Balancer.LoadBalancer.Release | internal/qrunner/coordinator/balancer.go:97 | the deferred decrement, which is the step Decrement but at the least counter |
| Balancer.LoadBalancer.CheckLiveness | internal/qrunner/coordinator/coordinator.go:104-126 | a check of the liveness loop sets the flag, and adds or removes the runner: the step Up or Down |
| Balancer.LoadBalancer.CountAndExclude | internal/qrunner/coordinator/balancer.go:84-90 | counts with wrap-around, excludes exactly if the unsigned counter reaches the limit; while the counter has room, just as the step Admit |
| WeightedChoice.TotalIsOrderFree | internal/qrunner/coordinator/balancer.go:113-116 | the total is the same for any two orders in which the map is iterated |
| WeightedChoice.PickIsInterval | internal/qrunner/coordinator/balancer.go:122-128 | for any order the numbers that pick a runner are an interval as long as its weight |
| PrewarmQueue.StepKeepsInv | internal/qrunner/dockerengine/prewarmer.go:57-132 | pushes and worker steps keep the wakeup invariant, the absence of duplicates and the bound |
| PrewarmQueue.PushDropsOldest | internal/qrunner/dockerengine/prewarmer.go:228-246 | a push of an image not queued puts it last and drops the oldest only if there is no room; with a configured number below two it leaves nothing |
| WarmContainers.PausedAfterFetch | internal/qrunner/dockerengine/prewarmer.go:180-184 | for every number of warm containers, a run in which such a pause leaves a found container paused, so the condition cannot be dropped |
| WarmContainers.FoundStays | internal/qrunner/dockerengine/prewarmer.go:251-269 | what a call of Fetch has found stays its own in every continuation |
| WarmContainers.StepKeepsInv | internal/qrunner/dockerengine/prewarmer.go:134-307 | every critical section keeps the places of all containers apart and, per container, its lock, status, engine state and two program counters in agreement |
| WarmContainers.NothingElseIsEjected | internal/qrunner/dockerengine/prewarmer.go:143-163 | nothing is ejected while there is room, nor for an image that has a container; then the new one is not stored |
| CriticalSections.PauseInOneGo | internal/qrunner/dockerengine/prewarmer.go:171-191 | the goroutine's steps under the container's lock, together, change just that container's status and program counter |
| CriticalSections.FetchInOneGo | internal/qrunner/dockerengine/prewarmer.go:289-307 | the steps of a fetch under the container's lock, together, end with status fetched, and found exactly if nothing was to be unpaused or that succeeded |
| Prewarmer.Prewarmer.EjectContainer | internal/qrunner/dockerengine/prewarmer.go:201-224 | takes out a container of minimal creation time; panics if and only if no container was created before now, and then changes nothing |
| Prewarmer.Prewarmer.ExtractNextRequest | internal/qrunner/dockerengine/prewarmer.go:119-132 | takes the oldest request, if any; the count includes it: the step Extract on queue, signal and worker |
| Prewarmer.Prewarmer.PushNewRequest | internal/qrunner/dockerengine/prewarmer.go:228-246 | a queued image changes nothing; another is put last, the oldest dropped without room, and the worker signalled: the step Push |
| Prewarmer.Prewarmer.StoreContainer | internal/qrunner/dockerengine/prewarmer.go:148-191 | unless it panics, the step Store: an image that has a container changes nothing; else the new one is stored and, if there are now too many, one as old as any leaves; panics if and only if there are too many and neither the new one nor any other was created before the time looked at, and then the new one stays in the map; the pausing goroutine is started exactly if the container was stored without panic |
| Prewarmer.Prewarmer.ExtractContainer | internal/qrunner/dockerengine/prewarmer.go:271-287 | the step Extract of the transition system: the image's container leaves the map, or there is none |
| Prewarmer.ContainerState.PauseLater | internal/qrunner/dockerengine/prewarmer.go:171-191 | calls the engine exactly on a running container, and leaves the status that the goroutine's steps leave |
| Prewarmer.ContainerState.UnpauseIfNecessary | internal/qrunner/dockerengine/prewarmer.go:289-307 | on every way out the status is fetched, as after the steps of a fetch; the engine is called exactly if the container was not running, and success means no call or a successful one |
| Builds.StepKeepsInv | internal/qrunner/dockerengine/build_manager.go:116-331 | every step of a build and of the requests keeps records, goroutines and slots in agreement |
| Builds.StartIffCooledDown | internal/qrunner/dockerengine/build_manager.go:134-151 | a build of an image can start if and only if no other is live and none failed within the last 60 seconds |
| Builds.StepsAreRecorded | internal/qrunner/dockerengine/build_manager.go:116-331 | step by step, what a build writes into the record of its image, which is always there, and that it changes no other |
| Builds.OnlySlotsHoldUp | internal/qrunner/dockerengine/build_manager.go:265-331 | in every reachable state each build can take its next step, but for a queued one while all slots are in use |
| BuildManager.Manager.SetStage | internal/qrunner/dockerengine/build_manager.go:161-168 | changes the stage of a record in state building and nothing else |
| BuildManager.Manager.OnBuildLine | internal/qrunner/dockerengine/build_manager.go:182-192 | changes stage and log of a record in state building as in the Output step, and nothing else |
| BuildManager.Manager.Finish | internal/qrunner/dockerengine/build_manager.go:312-331 | ends the record as in the Finish step: ready without log, or failed with its log |
| BuildManager.BuildRecord.AppendLogs | internal/qrunner/dockerengine/build_manager.go:220-232 | the loop with its in-place overwriting and the trim compute AppendLogs |
| BuildManager.Manager.Ensure | internal/qrunner/dockerengine/build_manager.go:116-154 | the two errors; ready if the engine has the image; otherwise starts a build, with a fresh record, exactly if none is running and none failed less than 60 seconds ago; else shows stage or error and the log, and changes nothing |
| BuildLog.TrimOnce | internal/qrunner/dockerengine/build_manager.go:229-231 | trimming after every chunk is the same as trimming once at the end |
| BuildLog.ProgressLinesShowProgress | internal/qrunner/dockerengine/build_manager.go:235-237 | a progress line is one with a percentage and a bar, or with a speed, somewhere in it |
| HexViewer.AcceptedIsEncoding | ui/src/components/HexViewer.tsx:41-95 | an accepted sequence is the encoding of a code point |
| HexViewer.EncodingIsAccepted | ui/src/components/HexViewer.tsx:41-95 | the encoding of a code point is accepted at its full length |
| HexViewer.BytesMatch | ui/src/components/HexViewer.tsx:97-103 | true if and only if the encoded bytes lie at the offset and within the array |
| HexViewer.ByteSelections | ui/src/components/HexViewer.tsx:108-142 | the two-cursor loop fills every slot of the array, with what Align says |
| HexViewer.SelectAt | ui/src/components/HexViewer.tsx:112-136 | one turn of the loop computes the selection and cursor of Turn |
| HexViewer.TurnKeepsStep | ui/src/components/HexViewer.tsx:112-141 | a turn of the loop keeps the two cursors at the same code point of bytes and text |
| Utf.StartsWithUnique | ui/src/components/HexViewer.tsx:41-95 | UTF-8 is a prefix code: at most one code point is encoded at a place |
| Utf.TextEncodeOne | ui/src/components/HexViewer.tsx:125-131 | encoding the UTF-16 form of a code point gives its UTF-8 form |
| Utf.Encode8IsReadBack | ui/src/components/HexViewer.tsx:41-95 | the bits of a code point are in its bytes, and in its UTF-16 units, in order |
| Utf.LoneSurrogate | ui/src/components/HexViewer.tsx:125-131 | a surrogate that is not part of a pair is encoded as U+FFFD |
| HighlightRanges.ViewerRangesAreNotEmpty | ui/src/components/HexViewer.tsx:108-142 | every range the hex viewer makes is non-empty, as the uniqueness asks |
| HighlightRanges.Dedupe | ui/src/components/EditorPanel.tsx:84-88 | keeps every range once and no other |
| HighlightRanges.MergeSorted | ui/src/components/EditorPanel.tsx:90-97 | merging sorted ranges, the last one growing in place, separates them and keeps the positions covered |
| HighlightRanges.MarkedIffGiven | ui/src/components/EditorPanel.tsx:84-97 | a position is in a marked range if and only if it is in one of the ranges given |
| Brackets.BalancedPasses | ui/src/sql/highlight.ts:141-157 | the scan of a balanced word leaves the stack as it was |
| Brackets.ScanBrackets | ui/src/sql/highlight.ts:132-157 | the loop with its stack and arrays computes MatchOf and Depth |
| Brackets.ScanToken | ui/src/sql/highlight.ts:142-156 | one turn of the loop is one Step, in place |
| Brackets.TokenStarts | ui/src/sql/highlight.ts:138-141 | every token starts where the ones before it end |
| Brackets.FindAtCaret | ui/src/sql/highlight.ts:163-176 | finds the first bracket ending at the caret, else the first starting there, else none |
| Brackets.ComputeBracketInfo | ui/src/sql/highlight.ts:132-184 | depths of all tokens, -1 exactly without a mate; bold are the bracket at the caret and its mate, only when focused and matched |
| Brackets.MatesAreOfOneKind | ui/src/sql/highlight.ts:67-71 | only round, square or curly brackets of one kind match, and side by side they do |
| Brackets.BoldIsAtCaret | ui/src/sql/highlight.ts:163-183 | in a focused editor the bracket that ends at the caret, or else the one that starts there, is bold with its mate, if it has one |
| Brackets.NothingBoldElsewhere | ui/src/sql/highlight.ts:163-183 | without a bracket at the caret nothing is bold |
| Tokens.TokenClass | ui/src/sql/highlight.ts:81-108 | a word is a function name exactly if an opening round bracket follows after whitespace and comments only, else a keyword or identifier; other tokens by type |
| Tokens.ComputeMatchingIdentifiers | ui/src/sql/highlight.ts:189-215 | exactly the identifiers with the text of the identifier that the cursor is inside of, in a focused editor |
| Tokens.OneContains | ui/src/sql/highlight.ts:199-206 | the cursor is inside at most one token, so the first one found is the one |
| Tokens.MatchesByText | ui/src/sql/highlight.ts:199-214 | with the cursor inside a token, the identifiers with its text match if it is one itself |
| Tokens.TokenIsAtStart | ui/src/sql/highlight.ts:138-141 | a token is found in the text where it starts |
| Decorations.ClassesOf | ui/src/sql/highlight.ts:271-292 | every token gets the class of its depth or else its own, emboldened at the caret and its mate, underlined where it matches the cursor |
| Decorations.MarksOfToken | ui/src/sql/highlight.ts:293-302 | the mark of a token with a class, then the underlines of its digit groups, in document order and within the token |
| Decorations.ClassesSayMore | ui/src/sql/highlight.ts:285-292 | a token without a mate has its own class; it is emboldened exactly if it is one of the bold, underlined exactly if it matches the cursor |
| DigitGroups.DigitGroupUnderlines | ui/src/sql/highlight.ts:222-250 | in increasing order exactly the digits with 3, 6, 9, ... digits of the integer part to their right, if the token is a plain number with an integer part of at least five digits |
| DigitGroups.FindIntegerPart | ui/src/sql/highlight.ts:228-241 | tells plain numbers, and finds the first and last digit before the dot |
| DigitGroups.GroupsOfThree | ui/src/sql/highlight.ts:222-250 | of a number with signs, digits and a fraction, every third digit before the dot is underlined, from the right and but for the last, if there are at least five |
| DigitGroups.OthersAreNotUnderlined | ui/src/sql/highlight.ts:228-241 | with any other character in it nothing is underlined |
| Semver.CleanIsOrdered | pkg/chspec/semver.go:25-40 | on clean versions IsGreater is irreflexive and transitive, and so is being incomparable |
| Semver.UncleanCycle | pkg/chspec/semver.go:25-40 | every unclean component closes a cycle with two numbers, like 9 above 1 above 5a above 9 |
| Semver.GreaterNegativelyTransitive | pkg/chspec/semver.go:25-40 | on clean versions whatever lies between two ordered ones is comparable to one of them |
| Semver.IsGreater | pkg/chspec/semver.go:25-40 | the loop with its early returns computes Greater, which FirstDifferenceDecides describes |
| Semver.ParseInvertsJoin | pkg/chspec/semver.go:15-19 | components joined by dots are parsed back |
| Semver.AtLeastMajorIsMonotone | pkg/chspec/semver.go:43-49 | that implication for any three clean versions |
| Semver.UncleanIsNotMonotone | pkg/chspec/semver.go:43-49 | for every unclean component, three versions for which it fails |
| Semver.ParseNormalizes | pkg/chspec/semver.go:15-19 | a version and its components joined by dots are parsed alike |
| Semver.ParseYieldsFields | pkg/chspec/semver.go:15-19 | every component is non-empty and free of separators |
| Semver.LongerIsGreater | pkg/chspec/semver.go:40 | a version that goes on is greater than what it starts with, when that is made of numbers, and not the other way round |
| Semver.MajorIsCompared | pkg/chspec/semver.go:43-49 | head and latest tags reach every major version; another reaches one given by a number if and only if its first component is at least that number or, being none, does not come after it as a string |
| Semver.ParseCutsAtSeparators | pkg/chspec/semver.go:15-19 | a version is cut at every dot, hyphen and white space, and nowhere else |
| Semver.ValueConcat | pkg/chspec/semver.go:27-28 | numbers are read as decimals |
| TagList.FetchAll | internal/dockertag/cache.go:209-230 | whatever the order in which the goroutines finish, slot i holds the images of repository i, or the call fails exactly if one of them did |
| TagList.SortIds | internal/dockertag/cache.go:314-324 | the ids are permuted so that, if the versions are clean, no later one is greater than an earlier one |
| TagList.CleanVersionsAreOrdered | internal/dockertag/cache.go:322-324 | on clean versions the comparator given to the sort is a strict weak order on the ids |
| TagList.SortImages | internal/dockertag/cache.go:284-341 | the same with the program's own lists of head tags and dropped tags |
| TagList.PresentIsOrder | internal/dockertag/cache.go:296-305 | the head tags that are present are listed once each |
| TagList.PresentFollowsList | internal/dockertag/cache.go:296-305 | the head tags listed are those present, in the order of the list |
| Sorting.Sort | internal/dockertag/cache.go:322-324 | a rearrangement in which, if the comparator is a strict weak order on the elements, no later element is less than an earlier one |
| TagCache.LateFillKeepsOldSpelling | internal/dockertag/cache.go:135-139 | a run in which such a Find puts the old spelling of a tag back after a refresh brought the new one |
| TagCache.StepKeepsInv | internal/dockertag/cache.go:114-199 | every critical section, atomic operation and answer keeps the cache, the calls of Find and the updates in agreement |
| TagCache.Cache.FindLookup | internal/dockertag/cache.go:115-124 | the image under the normal form of the tag, whether its digest is missing, and an update launched exactly if expired and none is under way |
| TagCache.Cache.FindFill | internal/dockertag/cache.go:134-140 | changes only the entry, only if it is still of the image's repository and without digest |
| TagCache.Cache.UpdateIfExpired | internal/dockertag/cache.go:147-158 | claims the update flag exactly if the cache has expired and the flag was free |
| TagCache.FillAfterSameRefreshKeepsSpelling | internal/dockertag/cache.go:135-139 | a Find that looked its image up since the last refresh fills it in without changing the spelling |
| TagCache.Cache.FetchAndStore | internal/dockertag/cache.go:179-199 | a failed fetch changes nothing; otherwise map, list and time are replaced and the flag is left alone |
| TagCache.Cache.AsyncUpdate | internal/dockertag/cache.go:163-170 | the flag is free afterwards however the fetch came out |
| TagCache.LaunchIffExpired | internal/dockertag/cache.go:147-158 | in every run an update in the background can start if and only if the list has expired and none is under way |
| TagCache.UpdatingCanBeFreed | internal/dockertag/cache.go:147-170 | an update under way can by itself go on to where the flag is free again |
| Strings.SplitThenJoin | pkg/clickhousebuilds/models.go:68 | the parts hold no separator and, joined, are the text again |
| Strings.JoinThenSplit | pkg/clickhousebuilds/models.go:68 | parts that hold no separator are what their join is split into |
| CiReport.BuildsAreNamed | pkg/clickhousebuilds/models.go:53-80 | the jobs looked for are those named Build (amd_...) on one line, with a successful status, of which one part between underscores is the variant |
| CiReport.ReadingOrder | pkg/clickhousebuilds/models.go:64-80 | in reading order a result comes before what is nested in it, and that before the next result |
| Resolver.CachingResolver.Cached | internal/cibuild/resolver.go:191-201 | a hit is an unexpired entry, and is for the same version and build type |
| Resolver.CachingResolver.Store | internal/cibuild/resolver.go:203-208 | stores under the one key and changes nothing else |
| Resolver.KeyIsInjective | internal/cibuild/resolver.go:95 | no two pairs of version and build type share a key |
| Resolver.SelectPackageURLs | internal/cibuild/resolver.go:221-241 | succeeds exactly if every required package is linked, and gives the first link to each |
| Resolver.MatchPrefix | internal/cibuild/resolver.go:224-235 | the first link to a package of this name, or the empty string exactly if there is none |
| Resolver.PackagesAreDistinct | internal/cibuild/resolver.go:51-59 | packages of different names come from different links |
| Resolver.ProbeAll | internal/cibuild/resolver.go:108-147 | candidates are probed in order until one works; if none does, the error of the last one is kept |
| Resolver.ProbeOne | internal/cibuild/resolver.go:110-126 | a candidate works exactly if its report is there, has a job for the build type, and the job all packages; the links then are of the first such job |
| Resolver.CandidateSHAs | internal/cibuild/resolver.go:155-189 | the loop computes CandidatesFor; the tagged commit of a fully qualified version is there and first; without one every candidate is a recent commit |
| Resolver.CandidatesAreDistinct | internal/cibuild/resolver.go:177-182 | if the branch's commits are distinct so are the candidates: the tagged commit first, then the branch's commits without it |
| Resolver.BranchRefIsPrefix | internal/cibuild/resolver.go:211-218 | the branch of a version is the version up to its second dot |
| Resolver.FullVersionHasBranch | internal/cibuild/resolver.go:24-25 | a fully qualified version always has a branch |
| Resolver.WorksIffPackagesAreThere | internal/cibuild/resolver.go:110-126 | a report works if and only if the first job in it that is a build for the type has a link to each of the three packages |
| Resolver.PackagesAreNamed | internal/cibuild/resolver.go:226-228 | a link is to a package if and only if its file name starts with the prefix and ends in .deb |
| Resolver.FullVersionIsFourNumbers | internal/cibuild/resolver.go:24-25 | a fully qualified version is four numbers between dots |
| Resolver.BranchIsMajorAndMinor | internal/cibuild/resolver.go:211-218 | the branch is the text up to the second dot, with something left and right of the first |
| Resolver.BaseIsLastElement | internal/cibuild/resolver.go:226 | the base of a link is its last element, slashes at the end not counted |
| Resolver.FirstPackageIsFirst | internal/cibuild/resolver.go:224-235 | the link selected is the first one to such a package |
| ImageGc.SwapAndPop | internal/qrunner/dockerengine/engine_provider.go:209-213 | overwriting an element by the last one and dropping the last takes out just that element |
| ImageGc.RemoveImages | internal/qrunner/dockerengine/gc.go:204-228 | tries every tag of every image in order, also after failures; counts an image, and its size, exactly if no removal of a tag of it failed |
| ImageGc.AllGone | internal/qrunner/dockerengine/gc.go:204-228 | all images are counted if no removal fails and, when each has a tag, only then |
| ImageGc.AnsweredInOrder | internal/qrunner/dockerengine/gc.go:179-188 | the inspected images are those of which the inspection gave an answer, in order and each once |
| ImageGc.GoneInOrder | internal/qrunner/dockerengine/gc.go:204-228 | the images counted are those of which no removal failed, in order and each once |
| ImageGc.TagsConcat | internal/qrunner/dockerengine/gc.go:206-225 | tags and sizes of a list of images add up |
## Left out

- Docker, GitHub, S3, registry and DynamoDB calls, HTTP handlers, configuration, metrics and logging: calls to the outside are answers that may be anything.
- Shutdown: a run ends where `Stop` begins. A build that gives up waiting for its slot because the program ends is in `Builds`.
- Overflow: sums of weights from 2^64 on and sums of image sizes are taken to stay in range, and image sizes are not negative; in `Admission` the counter of a runner does not wrap around, as it would with 2^31 jobs on one runner at once.
- Conservation of prewarmed containers: one does not stay in the map, handed out or ejected for good; one whose key is taken is created and then forgotten, and one whose unpausing failed is dropped.
- Freshness of digests: one filled in after a refresh may be older than it.
- `parseBuildChunk` and `classifyBuildStage`: escape sequences, splitting into lines and recognising a stage; `OnBuildLine` takes the lines and the stage as given.
- `Coordinator.EnsureImage`, which keeps the last failure where its comment says the first, image names, build arguments, `extractSanitizerReport` and retry loops: easy members only.
- The garbage collection of containers: a filter over answers of the engine.
- Error texts: errors are kinds, with the number of the commit left to the position in the list.
- The lexer of the query editor and the list of keywords: the tokens, if the lexer is ready and does not fail, and whether a word is a keyword, are given; so is that tokens stand side by side.
- React rendering, the scrolling of the hex view, themes and the editor's own code.
- The goroutines of `getImagesFromSeveralRepositories` write disjoint slots; their interleaving is an order of completion, without cancellation, which no call observes.
