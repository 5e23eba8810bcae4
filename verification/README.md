# peinit, modelled and proved in Dafny

peinit is the first process of a system: it decides which services a boot starts and in what order, restarts them,
stops them, runs submitted jobs, names their control groups, encodes their logs and counts failed boots. This project
models the parts of it that are algorithms and protocols, and proves what they promise for every input and every run.

| modules | subject |
|---|---|
| `Collections`, `Bytes`, `Utf8`, `Graphs` | shared vocabulary: options and results, byte strings and UTF-8, walks, cycles and layerings |
| `Services`, `StartOrder`, `Shutdown` | dependencies, the depth-first start order, the stop waves, and the theorem that the two mirror each other |
| `Names` | sets of names and of pairs of names, gone through in order |
| `CycleReports`, `CycleSearches` | which cycles are reported when each one found is taken out, and which reports the search can make |
| `BootGraph` | the boot planner: closure of the roots, blocking with reasons, cycles, conflicts, order |
| `SafeMode` | what takes a full boot down to safe mode |
| `BootPlan` | roles, mode and planner together: what a service declares is what it waits for, and what is booted can be stopped |
| `Roles` | rewriting role references onto providers and adding the authority's edges |
| `Jobs`, `Submitted`, `Deadlines` | the job record, the store of submitted jobs, and its deadline scheduler |
| `CounterText`, `BootAttempts`, `BootSuccess`, `BootLatch` | the counter across boots, the reset that confirms a boot, and the recovery latch over whole sessions |
| `BootOutcome` | planner, tracker and counter together: what a blocked critical service comes to |
| `Restart` | backoff and the retry budget |
| `Msgpack`, `MsgpackDecoder` | log records as MessagePack, the length calculator, the batch fitter, and an independent reader |
| `Payload` | the nested event payload against a flat map of paths |
| `Cgroup`, `UuidV7` | control group names and job identifiers, and the way back from both |
| `Registry`, `Definitions` | registry strings and lists, and the changes from one definition to another |
| `LogBuffer`, `LogLines` | the bounded log queue and the line assembler |

Code that updates state in the source is a class or a method with loops here, proved against a specification function;
the theorems are about those functions. Sets and ordered maps of the source appear as duplicate-free sequences where
the source iterates over them. Results hold for each order, and the boot planner goes through names in the source's.
Text is its UTF-8 bytes where the source works on bytes, and a `string` elsewhere. Clock readings, results of writes
and the contents of `/proc` are parameters.

Four statements of the source and its manual hold under a condition, which is proved to be the exact one.

- Role synthesis is documented as idempotent (src/service/role.rs:81-91). It is, unless two definitions share a name
  and both provide the authority to a third that declares no hard dependency leading to that name:
  `SynthesisIsIdempotent`, with the input `SharedNameBreaksIdempotence`.
- `changes` is documented as what turns one definition into another (src/client/definition.rs:260-261). It is exactly
  when, under every name, the last value of the target that the start does not hold, if there is one, is also the
  first value of the target: `ChangesAreRightWhen`, with the input `RepeatedNameIsWrong`. The start may repeat names.
- The manual says that every service in a cycle is failed with `CycleDetected` (lines 19-21 of the page on graph
  validation, docs/learn/1--peios.shelf/peios.product/400--reference.antho/200--trms.shelf/200--peinit.book/7--dependencies/2--graph-validation.md).
  A cycle that shares a service with one reported before it is not looked for again. All services on cycles are failed,
  whatever the order in which the search goes through services and through the dependencies of each, exactly when none
  has disjoint cycles of other services that meet all its own: `AllAreAccusedWhen`, with the input
  `ChainIsNotAllReported`. It is enough that cycles share no service: `ApartCyclesAreReported`. In a given order the
  search may do better: `TriangleIsAccused`. The source goes through services by name, and through dependencies as they
  are declared, `Requires` first and `Wants` last.
- The same page (lines 23-25) says that a critical service in a cycle takes the boot down to safe mode, and
  src/boot/phase2/graph/safe_mode.rs:42 that every such cycle is found. For the same reason one can be missed:
  `CriticalCycleIsMissed`. `CriticalCycleDowngradesWhen` is the exact condition for a downgrade whatever the order of
  services and of dependencies. A full boot that stands fails no critical service for a cycle or a conflict all the
  same: `FullPlanSparesCriticals`. The missed service is blocked through its dependency, and recovery follows:
  `MissedCycleRecovers`.

Some consequences a reader of the code may not expect are theorems too.

- The retry budget bounds restarts between console logouts, each of which refills it: `RunIsWithinBudget`,
  `LogoutsRefill`.
- A boot that could not be counted is not stopped by the threshold, and a count that cannot be read stops every
  ordinary boot: `RecoversWhenThresholdReached`, `BadCountIsSticky`. A machine in recovery stays there, because only a
  boot that proceeds can confirm itself: `RecoveryIsFinal`.
- A boot reports a deadline when nothing is waited for, save a recovery boot that requires nothing: `ReportAgrees`,
  `RecoveryReportsNothing`.
- The parser of identifiers accepts texts that are not the printed ones; `TextIsCanonicalWhen` says which, and
  `CapitalIsAccepted` gives one.
- The second round of cycle blocking in the boot planner (src/boot/phase2/graph/validation.rs:25-35) is never needed,
  because no cycle survives the first: `BlockDependencyCycles`, and the dead branch in `StartOrderAfterValidation`.

Verify with `dafny verify dfyconfig.toml`.

## Model

| member | source | states |
|---|---|---|
| `Services.SplitTarget` | src/service/dependency.rs:38-49 | the service part holds no colon, and the parts spell the declared text out again; an empty level is no level |
| `Services.SplitOfJoin` | src/service/dependency.rs:38-49 | splitting inverts joining a colon-free service and a level |
| `Services.HardDependencyTargets` | src/service/dependency.rs:65-78 | the targets of the hard dependencies are exactly those of `Requires` and `BindsTo` |
| `Services.HardDependencyOrdersStart` | src/service/dependency.rs:104-112 | every hard dependency is among the targets a service is ordered after |
| `StartOrder.VisitOrder` | src/service/dependency.rs:148-182 | the result is `Visit` of the service, whatever the state; from a traversal on its way down, the service is placed after all its dependencies and the state kept, or a distinct list that is a cycle returned |
| `StartOrder.VisitMeans` | src/service/dependency.rs:148-182 | the visit as a function either places the service with all it needs, keeping the traversal state, or returns a cycle without repetition |
| `StartOrder.SearchMeans` | src/service/dependency.rs:126-182 | the search as a function gives a start order when the graph is acyclic, and a cycle without repetition otherwise |
| `StartOrder.DependencyStartOrder` | src/service/dependency.rs:126-146 | success gives each startable service once, dependencies first; failure gives a genuine cycle; success if and only if the graph is acyclic; the result is `VisitAll` of the services in the order given |
| `StartOrder.StartOrderMeansAcyclic` | src/service/dependency.rs:126-182 | no order puts every dependency first when there is a cycle |
| `Shutdown.DependentsByTarget` | src/shutdown/plan.rs:92-138 | the table holds exactly the edges of the stop graph: hard dependencies, and every registry-defined candidate before every compiled-in one; it fails exactly when a candidate is not in the table |
| `Shutdown.ReadyServices` | src/shutdown/plan.rs:62-76 | a remaining service is ready if and only if no remaining service must stop before it; the error branch is not taken |
| `Shutdown.TakeWave` | src/shutdown/plan.rs:77-87 | the wave lists the ready participants, one each and in order, and the rest stays as it was |
| `Shutdown.ReverseDependencyWaves` | src/shutdown/plan.rs:56-90 | waves exist if and only if the stop graph is acyclic; then they are nonempty, list every candidate once and in table order, and layer the graph; otherwise the reported services are the largest set in which each has a predecessor |
| `Graphs.LayerIsLongestWalk` | src/shutdown/plan.rs:56-90 | the wave of a service is the length of its longest chain of dependents, both attained and never exceeded |
| `Graphs.PredecessorsMakeCycle` | src/shutdown/plan.rs:72-76 | a nonempty set in which everyone has a predecessor contains a cycle, so a reported set does |
| `Shutdown.PlanGracefulShutdown` | src/shutdown/plan.rs:11-54 | the completed services are cleared, the starting ones killed, the active, reloading and stopping ones in some wave, the stopping marked, and the other five states ignored, each list in table order; the stop waves are exact as above |
| `Shutdown.StartableMeansStoppable` | src/shutdown/plan.rs:92-138 | given a start order of a superset, stopping can be planned if and only if no compiled-in candidate hard-depends on a registry-defined one |
| `Shutdown.StartAndStopMirror` | src/shutdown/plan.rs:56-138 | where a hard-depends on b, b starts before a and a stops in an earlier wave |
| `Shutdown.StopsInOrder` | src/shutdown/plan.rs:92-138 | of two services to stop, the one that hard-depends on the other is in an earlier wave, and so is a registry-defined one before a compiled-in one |
| `BootGraph.BlockService` | src/boot/phase2/graph/blocked.rs:22-63 | a finding is added to those of its service, no other is lost or changed, and the primary one stays the highest ranked |
| `BootGraph.AddFinding` | src/boot/phase2/graph/blocked.rs:22-63 | a new finding takes first place exactly when it is graver than the one there, a cycle over all others and a dependency under them, and the others keep their order |
| `BootGraph.PrimaryIsGravest` | src/boot/phase2/graph/blocked.rs:22-63 | the primary finding is a cycle if there is one, and else a conflict or validation error if there is one |
| `BootGraph.BlockIsAccountable` | src/boot/phase2/graph/blocked.rs:22-63 | recording a true finding keeps every finding true and every blocked service linked by hard dependencies to one with a finding of its own |
| `BootGraph.IncludeClosure` | src/boot/phase2/graph/closure.rs:42-102 | what is included is pulled in by the service and closed: each hard dependency is included, dropped by the mode or held against its dependent, and each available want is included |
| `BootGraph.PropagateBlocked` | src/boot/phase2/graph/closure.rs:104-135 | the loop ends with no included service unblocked that hard-depends on a blocked one, and every block still has a root cause |
| `BootGraph.CollectBootClosure` | src/boot/phase2/graph/closure.rs:15-40 | every root is included, only what roots pull in is, each included service is settled, and they are gone through in name order |
| `BootGraph.ClosureIsExact` | src/boot/phase2/graph/closure.rs:15-102 | a service is included if and only if some root pulls it in |
| `BootGraph.ServiceMap` | src/boot/phase2/graph/service.rs:8-20 | the definitions by name, or a name that two of them bear |
| `BootGraph.BlockUnresolvableConflicts` | src/boot/phase2/graph/conflict.rs:9-47 | of any two included boot services in conflict, declared by either, both are blocked; the conflicts held are exactly these, each against both sides |
| `CycleReports.ReportOneMore` | src/boot/phase2/graph/validation.rs:52-78 | a cycle found in what is left is the next of `Reported`, is a cycle of the whole, and the search goes on without its members |
| `CycleReports.ReportIsDone` | src/boot/phase2/graph/validation.rs:52-78 | when none is found the cycles so far are `Reported`, and they leave none |
| `CycleReports.EveryCycleIsMet` | src/boot/phase2/graph/validation.rs:52-78 | every cycle of the graph has a member in each report, whatever the order |
| `CycleReports.ReportedIsReport` | src/boot/phase2/graph/validation.rs:52-78 | what the repeated search reports are disjoint cycles that leave none |
| `CycleReports.LeftOutWhen` | src/boot/phase2/graph/validation.rs:52-78 | disjoint cycles that leave none can avoid a set of services altogether if and only if disjoint cycles elsewhere meet every cycle through it |
| `CycleSearches.SearchesReport` | src/boot/phase2/graph/validation.rs:52-78 | a search in any order of services and of dependencies makes such a report |
| `CycleSearches.EveryReportCanBeMade` | src/boot/phase2/graph/validation.rs:52-78 | and every such report is made by the search in some order of the services and of each service's dependencies |
| `CycleSearches.MissedWhen` | src/boot/phase2/graph/validation.rs:52-78 | the search in some order of services and of dependencies leaves a set of services out altogether if and only if disjoint cycles elsewhere meet every cycle through it |
| `CycleSearches.AllAreAccusedWhen` | src/boot/phase2/graph/validation.rs:52-78 | the search accuses every service on a cycle, in every order of services and of dependencies, if and only if none of them is screened in that way |
| `CycleSearches.TriangleIsAccused` | src/boot/phase2/graph/validation.rs:52-78 | the order of dependencies matters: with `b` naming `c` before `a`, every order of the services accuses all of `a`, `b` and `c`, though `a`-`b` screens `c` |
| `CycleReports.ApartCyclesAreReported` | src/boot/phase2/graph/validation.rs:52-78 | when cycles that share a service have the same services, every service on a cycle is reported |
| `CycleReports.ChainIsNotAllReported` | src/boot/phase2/graph/validation.rs:52-78 | of the cycles `a`-`b` and `b`-`c` every report leaves `a` or `c` unaccused |
| `CycleReports.ChainReport` | src/boot/phase2/graph/validation.rs:52-78 | in name order the search reports `a`-`b` only |
| `BootGraph.BlockDependencyCycles` | src/boot/phase2/graph/validation.rs:52-78 | the cycles of the report `Reported`, found one by one and taken out, are held against exactly their members, also when those are blocked already; the report leaves no cycle |
| `BootGraph.StartOrderAfterValidation` | src/boot/phase2/graph/validation.rs:12-39 | the order is a start order of exactly the unblocked services, nothing unblocked depends on anything blocked, everything invalid is blocked, and the ordering never finds another cycle |
| `BootGraph.OrderedAfterHardDependencies` | src/boot/phase2/graph/validation.rs:12-39 | a service starts only after every hard dependency the mode did not drop, none of which is missing from the order |
| `BootGraph.BuildPhase2BootGraph` | src/boot/phase2/graph/build.rs:11-28 | planning succeeds if and only if names are distinct; the plan starts the closure less the blocked, dependencies first and no two in conflict, with a true reason against each blocked service; everything invalid and all that depends on it is blocked; the cycles and conflicts held are exactly those of the graph; a service is blocked if and only if it is doomed |
| `BootGraph.BlockedExactlyWhen` | src/boot/phase2/graph/build.rs:11-28 | a service is blocked if and only if hard dependencies lead from it through the boot's services to one that is invalid, lacks a hard dependency, or is in a conflict or a reported cycle |
| `SafeMode.CriticalBootConflicts` | src/boot/phase2/graph/conflict.rs:55-85 | a pair, its names in order, is found if and only if both services are included and in conflict and one of them is critical; the pairs are listed in order, each once |
| `SafeMode.CriticalCycles` | src/boot/phase2/graph/safe_mode.rs:48-79 | the cycles found are exactly the reported ones with a critical member, in order |
| `SafeMode.RequiredWhenCriticalIsHeld` | src/boot/phase2/graph/safe_mode.rs:24-40 | there is a finding if and only if the full boot would hold a cycle or a conflict against a critical service |
| `SafeMode.SafeModeDowngradeFindings` | src/boot/phase2/graph/safe_mode.rs:24-40 | the findings are those of the full boot, over exactly what its roots pull in; a duplicated name is the only error |
| `SafeMode.CycleFindingsAreGenuine` | src/boot/phase2/graph/safe_mode.rs:48-79 | every cycle found is a cycle of the included services and has a critical member |
| `SafeMode.CriticalCycleDowngradesWhen` | src/boot/phase2/graph/safe_mode.rs:42-79 | a cycle with a critical service is found, in every order of services and of dependencies, if and only if no disjoint cycles of other services meet all the cycles through critical ones |
| `SafeMode.TriangleDowngrades` | src/boot/phase2/graph/safe_mode.rs:42-79 | the order of dependencies matters: as declared there every order of the services finds the critical `c`, which is screened |
| `SafeMode.CriticalCycleIsMissed` | src/boot/phase2/graph/safe_mode.rs:42-79 | `b` and `c` require each other and `c` is critical, but `a`-`b` is reported first and there is no finding |
| `BootPlan.SynthesisCoversAll` | src/boot/phase2/planner.rs:76 | after synthesis a service depends hard on all its hard dependencies stand for, and on every other authority provider if it or a start hook of it runs as another identity than SYSTEM |
| `BootPlan.PlanWaitsForAll` | src/boot/phase2/planner.rs:76-126 | in the plan of the synthesised definitions every started service comes after all of those, save what was retained and what the mode left out |
| `BootPlan.PrepareBootPlan` | src/boot/phase2/planner.rs:40-171 | the plan of declared definitions exists if and only if the parallelism is not zero and names are distinct, or it is a recovery boot, which starts nothing; a full boot is taken down to safe mode exactly when its graph would fail a critical service for a cycle or a conflict; the rest is `IsSoundPlan` |
| `BootPlan.FullPlanSparesCriticals` | src/boot/phase2/planner.rs:81-90 | a full boot that stands fails no critical service for a cycle or a conflict |
| `BootPlan.PlansAgree` | src/boot/phase2/planner.rs:40-171 | plans of the same definitions agree on the mode and its findings, on what is blocked, and on what is started and in which order |
| `BootPlan.StartsNothingInvalid` | src/boot/phase2/planner.rs:105-126 | no service that is invalid, blocked or retained is started |
| `BootPlan.RootsAreAccountedFor` | src/boot/phase2/planner.rs:105-126 | every service the mode boots is started, blocked or retained |
| `BootPlan.BootHolds` | src/boot/phase2/graph/closure.rs:32-40 | a full boot starts, blocks or has retained every enabled service with a boot trigger, a safe boot every one of them that is critical or has the safe-mode flag; and it holds no disabled service, a safe boot none but those |
| `BootPlan.BootPulls` | src/boot/phase2/graph/closure.rs:42-102 | what a booted service requires, binds to or wants is booted too if the boot may hold it |
| `BootPlan.ConflictsAreKeptApart` | src/boot/phase2/graph/conflict.rs:9-47 | of two boot services of which one lists the other as a conflict at most one is started, and if both are to boot, both are blocked |
| `BootPlan.WaitsPlainly` | src/boot/phase2/planner.rs:76-126 | in a full boot nothing a started service must wait for is left out; in a safe boot, only what is defined, enabled and not to boot |
| `BootPlan.BootedCanBeStopped` | src/shutdown/plan.rs:56-138 | of the services a plan orders, any stop candidates can be stopped in waves if and only if no compiled-in one hard-depends on a registry-defined one |
| `Roles.ResolveRoleReferences` | src/service/role.rs:153-198 | the rewriting loops compute `Resolved` |
| `Roles.SynthesiseRoleDependencies` | src/service/role.rs:92-129 | the pass computes `Synthesised` |
| `Roles.RoleProviders` | src/service/role.rs:208-214 | exactly the services that say they provide the role |
| `Roles.EntryStandsFor` | src/service/role.rs:177-188 | an entry naming a provided role no service bears as its name stands for the other providers at its level, and any other entry for itself |
| `Roles.ResolvedMeaning` | src/service/role.rs:153-198 | each list holds exactly what its declared entries stand for, and nothing else of a definition changes |
| `Roles.SynthesisMeaning` | src/service/role.rs:92-129 | beyond that, `Requires` gains exactly the authority providers a service needing one did not depend on |
| `Roles.AuthorityIsDependedOn` | src/service/role.rs:92-129 | every service that needs the authority and does not provide it ends with a hard edge to every provider |
| `Roles.AuthorityEdgeWhen` | src/service/role.rs:73-129 | a service whose identity is not SYSTEM, or that has a start hook whose identity is not, ends with a hard edge to every other provider of the authority unless it is one; any other gains nothing beyond what its entries stand for |
| `Roles.NoNewSelfEdge` | src/service/role.rs:177-193 | a resolved entry that names its own service was declared so |
| `Roles.SynthesisAddsNoSelfEdge` | src/service/role.rs:92-129 | nor does the whole pass add a dependency of a service on itself |
| `Roles.ResolvedIsSettled` | src/service/role.rs:153-198 | after a pass every entry names a service or something nobody provides |
| `Roles.SynthesisIsIdempotent` | src/service/role.rs:92-129 | a second pass changes nothing if and only if no service needing the authority is given the same provider twice by two definitions of one name, which can be told from what is declared |
| `Roles.SynthesisOfUniqueNamesIsIdempotent` | src/service/role.rs:92-129 | with unique names it changes nothing |
| `Roles.SharedNameBreaksIdempotence` | src/service/role.rs:92-129 | two providers called a and a service b that needs one are such definitions |
| `Roles.DoubledEdgeIsDropped` | src/service/role.rs:92-129 | a doubled edge is what a second pass removes, so idempotence fails there |
| `Payload.Segments` | src/kmes/payload.rs:120-123 | a path has at least one segment, none with a dot, and they spell it out |
| `Payload.EventPayload.Set` | src/kmes/payload.rs:120-157 | walking down the levels and rebuilding them computes `SetAt` on the segments |
| `Payload.EventPayload.SetOpt` | src/kmes/payload.rs:160-169 | an absent value leaves the payload as it is |
| `Payload.LookupAfterSet` | src/kmes/payload.rs:120-157 | setting a path sets it, clears every path it runs through or covers and leaves all others alone |
| `Payload.SetKeepsWellFormed` | src/kmes/payload.rs:120-157 | keys stay unique at every level and no map is empty |
| `Payload.ConflictMeansOverlap` | src/kmes/payload.rs:130-150 | a conflict branch is reached if and only if an overlapping other path is set |
| `Payload.RunIsFlat` | src/kmes/payload.rs:120-169 | after any run of assignments the nested payload reads as the flat map of paths |
| `Payload.PrefixFreeRunHoldsLastSet` | src/kmes/payload.rs:120-169 | over prefix-free paths each holds what it was last set to |
| `Payload.OnlySetPathsAreThere` | src/kmes/payload.rs:120-169 | nothing is there that was not set |
| `Payload.NoConflictInRun` | src/kmes/payload.rs:130-150 | over prefix-free paths neither conflict branch is reached |
| `Payload.KeysAreInFirstNamedOrder` | src/kmes/payload.rs:120-157 | at every level keys stand in the order they were first named |
| `Msgpack.GuidBytesTwice` | src/ids/model.rs:16-22 | the binary GUID layout is its own inverse |
| `Msgpack.GuidFields` | src/ids/model.rs:12-22 | the first three fields, read little-endian, are those of the identifier read big-endian, and the rest is kept |
| `Msgpack.RecordLenIsExact` | src/logging/msgpack.rs:53-83 | the length calculator gives exactly the bytes a record is written in |
| `Msgpack.BatchLenIsExact` | src/logging/msgpack.rs:18-51 | so does header and payload for a batch |
| `Msgpack.EncodeRecordsInto` | src/logging/msgpack.rs:18-31 | writing header and records one after the other gives the batch and its calculated length |
| `Msgpack.LongerBatchesAreLarger` | src/logging/msgpack.rs:35-51 | a longer prefix never encodes shorter |
| `Msgpack.BatchPrefixLen` | src/logging/msgpack.rs:35-51 | the accepted prefix fits and no longer one does; none if and only if there is no record or the first alone does not fit; a limit of `usize::MAX` accepts all, because the sums saturate there |
| `MsgpackDecoder.StrReads` | src/logging/msgpack.rs:135-150 | a decoder reads a written string back, in all header forms |
| `MsgpackDecoder.BinReads` | src/logging/msgpack.rs:152-165 | and binary data |
| `MsgpackDecoder.U64Reads` | src/logging/msgpack.rs:116-133 | and numbers |
| `MsgpackDecoder.RecordReads` | src/logging/msgpack.rs:68-83 | and a record as a map of its fields |
| `MsgpackDecoder.BatchReads` | src/logging/msgpack.rs:18-31 | reading an encoded batch gives its records and consumes all bytes |
| `MsgpackDecoder.EncodingIsInjective` | src/logging/msgpack.rs:18-31 | no two batches share an encoding |
| `Jobs.JobRecord.Start` | src/job/lifecycle.rs:6-24 | starting is refused, leaving the record as it was, or makes the step |
| `Jobs.JobRecord.Complete` | src/job/lifecycle.rs:26-33 | completing is refused or makes the step |
| `Jobs.JobRecord.FailBeforeStart` | src/job/lifecycle.rs:35-46 | failing before the start is refused or makes the step |
| `Jobs.JobRecord.FailRunning` | src/job/lifecycle.rs:48-65 | failing while running is refused or makes the step |
| `Jobs.JobRecord.Abandon` | src/job/lifecycle.rs:67-78 | abandoning is refused or makes the step |
| `Jobs.JobRecord.EnsureEndable` | src/job/lifecycle.rs:85-119 | the guards refuse a wrong state, naming the action, and an end before the start or the creation |
| `Jobs.EveryRunIsCoherent` | src/job/lifecycle.rs:6-119 | in every run created <= started <= ended, and each state has exactly the facts that belong to it |
| `Jobs.TerminalAbsorbs` | src/job/lifecycle.rs:85-99 | a terminal job refuses every action and never changes |
| `Jobs.EndsAtMostOnce` | src/job/lifecycle.rs:26-78 | a job ends at most once in any run, and is terminal exactly when it did |
| `Jobs.AcceptedWhen` | src/job/lifecycle.rs:6-119 | an action is accepted if and only if the job is in the state for it and the times are in order; a refusal names the first fault and changes nothing |
| `Jobs.AllowedEndStands` | src/job/lifecycle.rs:26-78 | after an accepted end, whatever is tried, the record tells that end: its time, its state, its exit or signal and its cause |
| `Jobs.AllowedStartStands` | src/job/lifecycle.rs:6-25 | after an accepted start the record tells its process and its time for good |
| `Jobs.EventsCanBeMade` | src/job/event.rs:66-140 | in every run the ended event can be made if and only if the job is terminal and the started one if and only if it was launched, and no duration underflows |
| `Submitted.SubmittedJobStore.Insert` | src/submitted/store.rs:94-100 | a known identifier is refused and the store kept |
| `Submitted.SubmittedJobStore.RecordTerminal` | src/submitted/store.rs:105-142 | succeeds exactly on an ended event for a live job, whose entry then holds the outcome; each of the three errors comes exactly in its case |
| `Submitted.SubmittedJobStore.BeginStop` | src/submitted/store.rs:146-167 | answers whether the stop took effect |
| `Submitted.SubmittedJobStore.RecordKill` | src/submitted/store.rs:169-184 | moves a stop on, or refuses an unknown job |
| `Submitted.SubmittedJobStore.PurgeRetainedUntil` | src/submitted/store.rs:222-239 | removes exactly the entries that ended, expired and have no cleanup pending, and returns them in order |
| `Submitted.EveryRunIsSound` | src/submitted/store.rs:94-239 | in every run an entry with an outcome has no stop, and a stop has its cause |
| `Submitted.EveryRunFollows` | src/submitted/store.rs:105-184 | an outcome once recorded never changes, the first cause stands, and a stop moves only from terminating to killed |
| `Submitted.StopTakesEffectOnce` | src/submitted/store.rs:146-167 | a stop takes effect at most once per job |
| `Submitted.CauseLearnt` | src/submitted/store.rs:319-336 | an ended job without a cause gets one exactly when it was abandoned, or failed with a text that begins as a setup or an exec failure does |
| `Submitted.LeavesOnlyWhenExpired` | src/submitted/store.rs:222-239 | in every run without `remove` a job that is gone stayed until a purge found it ended, past its retention and with no cleanup pending |
| `Submitted.RetainedUntilExpired` | src/submitted/store.rs:105-239 | and one that was live was first ended by its own terminal event, and purged no sooner than the retention after it |
| `Submitted.QuotaIsConserved` | src/submitted/store.rs:87-92 | in every run without `remove` the live jobs of a submitter are those submitted less those ended |
| `Submitted.RetainedOutcomeAgrees` | src/submitted/view.rs:45-83 | after the record is replaced by the outcome, the view shows the state, times, exit code and signal it showed |
| `Deadlines.EntryDeadlines` | src/submitted/store.rs:271-317 | the vector built up holds a deadline of each of the five kinds exactly when the entry calls for it, at the time its fields give, in order |
| `Deadlines.StoppingHasNoTimeout` | src/submitted/store.rs:271-317 | a stopping or ended job has no timeout or readiness deadline |
| `Deadlines.StopIsTimed` | src/submitted/store.rs:146-167 | a stop that begins is to be followed by a kill after the job's stop timeout, and by nothing else |
| `Deadlines.KillIsTimed` | src/submitted/store.rs:169-184 | a kill is to be followed by giving up after the timeout given with it, and by nothing else |
| `Deadlines.ReadyEndsWait` | src/submitted/store.rs:301-317 | a job that says it is ready loses its readiness deadline and no other |
| `Deadlines.DueDeadlinesGrow` | src/submitted/store.rs:197-210 | what is due is sorted, is a permutation of the deadlines that have passed, and is a prefix of what is due later |
| `Deadlines.NextIsFirstDue` | src/submitted/store.rs:187-210 | something is due if and only if the next deadline is, which is then the first, ties included |
| `Deadlines.SchedulerIsConsistent` | src/submitted/store.rs:187-210 | all of this for the deadlines of a whole store, of which exactly those are due that some entry calls for and whose time has passed |
| `Cgroup.EncodeServiceCgroupId` | src/job/cgroup.rs:22-34 | the escaping loop computes `Encode` |
| `Cgroup.NameIsKeptWhen` | src/job/cgroup.rs:22-34 | a name is its own directory if and only if it holds only letters, digits, dots, underscores and hyphens |
| `Cgroup.DecodeServiceCgroupId` | src/job/cgroup.rs:140-155 | the unescaping loop computes `Decode`, errors included |
| `Cgroup.EscapeIsTakenWhen` | src/job/cgroup.rs:145-149 | an escape is taken if and only if it is two hexadecimal digits, or a plus sign and one, and cuts no character |
| `Cgroup.DecodeOfEncode` | src/job/cgroup.rs:22-34 | decoding an encoded name gives it back, for every name that is text |
| `Cgroup.BeforeGenerationOfSegment` | src/job/cgroup.rs:36-57 | no generation mark occurs inside an escaped name, so cutting at the first one gives the name |
| `Cgroup.SegmentIsInjective` | src/job/cgroup.rs:50-57 | service and generation can be told from the directory |
| `Cgroup.PathsAreInTree` | src/job/cgroup.rs:50-72 | the groups of services, their parts and submitted jobs are in these directories |
| `Cgroup.ServicePathsDiffer` | src/job/cgroup.rs:50-65 | two root paths, or two part paths, are equal if and only if service, generation and part are, and no root is a part |
| `Cgroup.JobPathsAreApart` | src/job/cgroup.rs:67-72 | no submitted job has the path of a service or of another job |
| `Cgroup.MemberOfPart` | src/job/cgroup.rs:111-137 | a path in or below a part is read as that service and part, also for a service called `jobs` |
| `Cgroup.MemberOfRoot` | src/job/cgroup.rs:111-137 | a service root is read as the service without a part |
| `Cgroup.MemberOfJob` | src/job/cgroup.rs:111-137 | a path in or below a submitted job is read as the job |
| `Cgroup.UnifiedIsFound` | src/job/cgroup.rs:111-114 | the unified line is found behind any other lines |
| `Cgroup.ReturnIsDropped` | src/job/cgroup.rs:112-114 | a carriage return before a newline is dropped, and kept at the end of a last line without one |
| `Cgroup.ServiceIsReadBack` | src/job/cgroup.rs:59-137 | what `/proc` lists for a process of a service gives back the service and the part |
| `Cgroup.JobIsReadBack` | src/job/cgroup.rs:70-137 | what it lists for a submitted job gives back the identifier |
| `UuidV7.TimestampNeverOverflows` | src/ids/uuid_v7.rs:11-14 | no 64-bit clock reading reaches the error |
| `UuidV7.SameIdMeans` | src/ids/uuid_v7.rs:16-35 | two identifiers are equal if and only if millisecond, low clock bytes and the kept sequence bits are |
| `UuidV7.NearSequencesDiffer` | src/ids/uuid_v7.rs:10-36 | sequences less than 2^46 apart give different identifiers whatever the clock said |
| `UuidV7.FarSequencesCollide` | src/ids/uuid_v7.rs:25-27 | and 2^46 apart they can be the same, so the bound is tight |
| `UuidV7.LaterIdsAreLarger` | src/ids/uuid_v7.rs:10-36 | with time not going back and sequences below 2^46 later identifiers are larger in byte order |
| `UuidV7.IdAllocator.AllocateBatch` | src/ids/allocator.rs:74-103 | a batch is consecutive identifiers, and a failed one leaves the sequence alone |
| `UuidV7.RunIsConsecutive` | src/ids/allocator.rs:74-103 | over any run of batches no sequence number is skipped or used twice |
| `UuidV7.IssuedAreDistinct` | src/ids/allocator.rs:74-103 | no run of up to 2^46 identifiers repeats one |
| `UuidV7.IssuedAreSorted` | src/ids/allocator.rs:74-103 | a run under a clock that never goes back hands them out in byte order |
| `UuidV7.ParseCanonical` | src/ids/uuid_v7.rs:89-119 | the parser computes `Parsed`, with the same first error |
| `UuidV7.ReadDigits` | src/ids/uuid_v7.rs:102-118 | the digits never overrun the sixteen bytes |
| `UuidV7.TextRoundTrip` | src/ids/uuid_v7.rs:56-119 | parsing the text of any sixteen bytes gives them, or the version or variant error they deserve |
| `UuidV7.AllocatedRoundTrip` | src/ids/uuid_v7.rs:10-119 | every allocated identifier is read back from its text |
| `UuidV7.CapitalIsAccepted` | src/ids/uuid_v7.rs:121-128 | a text ending in a capital digit is accepted and is not the printed one |
| `UuidV7.TextIsCanonicalWhen` | src/ids/uuid_v7.rs:89-128 | an accepted text is the printed one if and only if it has no capital and no hyphen beyond the four |
| `UuidV7.RefusedForFirstFault` | src/ids/uuid_v7.rs:89-128 | a text is refused for its first fault, and accepted when it has none; with hyphens to spare its identifier ends in a zero byte |
| `UuidV7.GroupedIsAcceptedWhen` | src/ids/uuid_v7.rs:56-128 | a text with hyphens in the four places only is accepted if and only if its version digit is 7 and its variant digit 8, 9, a or b |
| `CounterText.CounterRoundTrip` | src/boundary/linux_boot_attempts.rs:43-107 | the count that is written is read back |
| `CounterText.ReadsExactly` | src/boundary/linux_boot_attempts.rs:95-107 | a count is read exactly from a decimal number of 32 bits with or without a plus sign and with any Unicode white space after it; white space alone is an empty count |
| `BootAttempts.BootAttemptCounter.Read` | src/boundary/linux_boot_attempts.rs:23-32 | missing reads as zero, and bad contents as an error |
| `BootAttempts.BootAttemptCounter.Write` | src/boundary/linux_boot_attempts.rs:43-63 | a write that succeeds is read back |
| `BootAttempts.BootAttemptCounter.Increment` | src/boundary/linux_boot_attempts.rs:34-37 | the next count, held at the largest, an unreadable one starting again |
| `BootAttempts.BootAttemptCounter.Reset` | src/boundary/linux_boot_attempts.rs:39-41 | the count is zero |
| `BootAttempts.DecideBoot` | src/init/orchestrator.rs:229-278 | the decision and what the counter then reads, on every path, the file untouched by an ordinary boot that cannot read it |
| `BootAttempts.CountIsSaturated` | src/boundary/linux_boot_attempts.rs:23-63 | over any history of successful writes the count is the number of boots since the last reset, saturated |
| `BootAttempts.RecoversWhenThresholdReached` | src/init/orchestrator.rs:229-271 | after any history the next boot proceeds if and only if it is not told to recover and could not be counted, has no threshold, or fewer boots than it went unconfirmed |
| `BootAttempts.FirstBootsProceed` | src/init/orchestrator.rs:256-271 | from nothing exactly the first T boots proceed |
| `BootAttempts.LatchHolds` | src/init/orchestrator.rs:256-271 | once the count reaches the threshold, repeating the ordinary boot keeps recovering |
| `BootAttempts.BadCountIsSticky` | src/init/orchestrator.rs:231-241 | a count that cannot be read keeps ordinary boots in recovery and is left alone |
| `BootAttempts.ForcedRecoveryMendsCount` | src/init/orchestrator.rs:229-254 | a boot told to recover mends such a count: it starts again at one |
| `Names.NameOrderIsOfThem` | src/supervisor/boot_success.rs:80-81 | sorting names and dropping repetitions leaves the same names in lexicographic order, each once |
| `BootSuccess.BootSuccessTracker.ConfigurePhase2` | src/supervisor/boot_success.rs:64-92 | the required services are the critical ones planned, blocked or retained, sorted and each once, and earlier attempts are forgotten |
| `BootSuccess.BootSuccessTracker.RequiredSatisfiedSince` | src/supervisor/boot_success.rs:165-180 | the loop computes `SatisfiedSince` |
| `BootSuccess.LatestSinceMeans` | src/supervisor/boot_success.rs:165-180 | there is a moment if and only if all are satisfied, and it is the latest of theirs |
| `BootSuccess.BootSuccessTracker.NextDeadline` | src/supervisor/boot_success.rs:124-135 | none after an attempt, otherwise that moment and the grace period |
| `BootSuccess.BootSuccessTracker.ProcessDue` | src/supervisor/boot_success.rs:137-163 | the counter is reset exactly when the deadline has passed, and is left alone otherwise |
| `BootSuccess.DueWhenEarned` | src/supervisor/boot_success.rs:124-163 | a turn resets if and only if no reset was attempted and every required service has been satisfied for the grace period, or none is required and Phase 2 began that long ago |
| `BootSuccess.ResetsAtMostOnce` | src/supervisor/boot_success.rs:137-163 | in a configured boot no second turn resets |
| `BootSuccess.ResetIsEarned` | src/supervisor/boot_success.rs:124-163 | over any turns a reset comes only when that is so, the clock at its end counting as the period over |
| `BootSuccess.EarnedResetComes` | src/supervisor/boot_success.rs:124-163 | and it has come by the first turn at which that is so, with or without required services |
| `BootSuccess.ReportAgrees` | src/supervisor/boot_success.rs:95-122 | a deadline is reported if and only if nothing is waited on and something is required or Phase 2 was not a recovery one |
| `BootSuccess.RecoveryReportsNothing` | src/supervisor/boot_success.rs:85-89 | with nothing required in recovery nothing is waited on and there is no deadline |
| `BootLatch.RunSession` | src/init/orchestrator.rs:229-278 | a boot and the turns of its runtime loop leave the counter reading as `AfterSession` says |
| `BootLatch.TurnsReset` | src/supervisor/boot_success.rs:137-163 | the turns of a boot zero the count if and only if some turn finds success earned, and leave it alone otherwise |
| `BootLatch.SessionsAreCounted` | src/init/orchestrator.rs:229-271 | after any history of whole sessions the count is the boots since one that proceeded and lasted, and decides the next boot exactly |
| `BootLatch.FailingMachineRecovers` | src/init/orchestrator.rs:256-271 | a machine whose critical services never last the grace period boots exactly T times and then recovers |
| `BootLatch.RecoveryIsFinal` | src/init/orchestrator/recovery.rs:43-78 | once an ordinary boot recovers, every later one does, whatever the services of the sessions between would have done |
| `BootLatch.HealthyMachineProceeds` | src/init/orchestrator.rs:256-271 | a machine whose critical services last in every boot decides every next boot to proceed |
| `BootOutcome.BlockedCriticalNeverLasts` | src/supervisor/boot_success.rs:64-135 | a boot whose plan blocks a critical service is never confirmed while that service stays unsatisfied |
| `BootOutcome.BlockedCriticalRecovers` | src/init/orchestrator.rs:229-278 | so repeating that boot recovers after exactly T attempts |
| `BootOutcome.MissedCriticalIsBlocked` | src/boot/phase2/graph/closure.rs:104-135 | the critical service of the missed cycle is blocked through its dependency, and the full boot stands |
| `BootOutcome.MissedCycleRecovers` | src/init/orchestrator.rs:229-278 | and a machine of those services recovers after exactly T attempts |
| `LogBuffer.PreEventdLogBuffer.Evict` | src/logging/buffer.rs:28-33 | dropping from the front leaves the longest fitting suffix, never finds the queue empty and never saturates |
| `LogBuffer.PreEventdLogBuffer.Push` | src/logging/buffer.rs:23-37 | an oversized record changes nothing; any other is appended to what still fits, and the used bytes are exact and within capacity |
| `LogBuffer.PreEventdLogBuffer.SetCapacityBytes` | src/logging/buffer.rs:46-56 | what still fits stays |
| `LogBuffer.PreEventdLogBuffer.Clear` | src/logging/buffer.rs:62-65 | nothing stays |
| `LogBuffer.PreEventdLogBuffer.PopFront` | src/logging/buffer.rs:98-102 | the oldest record leaves |
| `LogBuffer.PreEventdLogBuffer.DiscardFront` | src/logging/buffer.rs:86-92 | the oldest records leave, as many as asked or all |
| `LogBuffer.FittingIsLongest` | src/logging/buffer.rs:23-56 | no longer suffix fits |
| `LogBuffer.EstimateCounts` | src/logging/buffer.rs:121-127 | a record costs forty bytes, its origin and message, and sixteen more with a job |
| `LogBuffer.HoldsSuffixOfAccepted` | src/logging/buffer.rs:23-102 | in every run what is held is a suffix of what was accepted, within capacity |
| `LogBuffer.PushesKeepLongestSuffix` | src/logging/buffer.rs:23-37 | under pushes alone it is the longest suffix that fits of the records that can be held |
| `LogLines.Clip` | src/logging/line.rs:39-61 | an emitted line never exceeds the limit, is whole when it fits and otherwise is as much of its beginning as the marker `[truncated]` leaves, and the marker |
| `LogLines.SplitIsExact` | src/logging/line.rs:19-29 | the reference split has no newline in any line and spells the input out again |
| `LogLines.LogLineAssembler.PushLineByte` | src/logging/line.rs:39-61 | pending bytes and the flag stay those of the clipped text since the last newline |
| `LogLines.LogLineAssembler.PushBytes` | src/logging/line.rs:19-29 | the lines emitted are those completed by the bytes, clipped |
| `LogLines.LogLineAssembler.Finish` | src/logging/line.rs:31-37 | a line is left if and only if bytes followed the last newline |
| `LogLines.SplitInTwo` | src/logging/line.rs:19-29 | splitting on from what was pending is splitting the whole |
| `LogLines.Assemble` | src/logging/line.rs:10-37 | however a stream is cut into reads the same lines come out |
| `Utf8.Utf8Exactly` | src/registry/value.rs:213-222 | bytes are accepted as text if and only if they are the UTF-8 encoding of Unicode scalar values (section 3 of RFC 3629) |
| `Registry.StringsRoundTrip` | src/registry/value.rs:213-222 | the bytes accepted as a string are exactly the encodings of texts, each giving back its text |
| `Registry.EncodeMultiSz` | src/client/definition.rs:453-461 | the loop computes `MultiSz` |
| `Registry.DecodeRegistryMultiString` | src/registry/value.rs:224-251 | the loop computes `DecodeMultiString`, errors and their item index included |
| `Registry.ListsRoundTrip` | src/registry/value.rs:224-251 | the bytes accepted as a list are exactly the encodings of lists of texts, empty items included, each giving back its list |
| `Definitions.FoldIsLowercase` | src/client/definition.rs:173-196 | names are compared with each ASCII capital made small and nothing else changed |
| `Definitions.Definition.Put` | src/client/definition.rs:179-196 | the name has the value, under the spelling it had; every other name is untouched and none is repeated |
| `Definitions.Definition.Unset` | src/client/definition.rs:173-176 | the name is gone and every other untouched |
| `Definitions.AfterChanges` | src/client/definition.rs:262-277 | what stands under each name once the changes are made |
| `Definitions.ChangesAreRightWhen` | src/client/definition.rs:262-277 | the changes turn one definition into the other if and only if no later value under a repeated name overrides the one that is read |
| `Definitions.ChangesAreRight` | src/client/definition.rs:262-277 | they do when `to` repeats no name |
| `Definitions.RepeatedNameIsWrong` | src/client/definition.rs:262-277 | they do not for a definition with a value under `a` and another under `A` |
| `Definitions.OnlyDifferencesAreTouched` | src/client/definition.rs:262-277 | a name is touched if and only if its values differ |
| `Restart.DelayIsIdeal` | src/service/restart.rs:76-81 | for every base and count the saturating code gives min(60, base * 2^n) |
| `Restart.DelayDoubles` | src/service/restart.rs:76-81 | the first delay is the declared one, and each next twice the one before, within sixty seconds |
| `Restart.RestartsExactlyWhen` | src/service/restart.rs:25-75 | a failure is answered by a restart if and only if the policy restarts that cause, a success exit code being no failure, and the budget is not spent or it is a console logout |
| `Restart.DelayIsMonotone` | src/service/restart.rs:76-81 | the delay grows with the count and never exceeds the cap |
| `Restart.RunIsWithinBudget` | src/service/restart.rs:25-70 | in every run the restarts granted stay within the budget, each console logout refilling it once, and total delay within 60 seconds each |
| `Restart.LogoutsAreCounted` | src/service/restart.rs:50-58 | the refills are the console logouts of a service that is always restarted |
| `Restart.BudgetIsKept` | src/service/restart.rs:59-69 | without console logouts a service is restarted at most as often as its definition allows |
| `Restart.BudgetIsSpent` | src/service/restart.rs:59-69 | and exactly that often when failures go on |
| `Restart.NextAnswer` | src/service/restart.rs:25-70 | after n restartable failures the answer is the n-th delay, or the exhausted budget |
| `Restart.LogoutsRefill` | src/service/restart.rs:50-58 | with console logouts there is no bound |

## Left out

- C interface, control and job clients, JSON reading, console rendering and labels: copying and presentation.
- Sockets, epoll, processes, credentials, devices and the rest of `run_init`: system calls in sequence.
- The service table, operation store, job store and supervisor turns beyond the steps modelled: only the facts the modelled code reads are kept, as parameters or table entries.
- Calendar timers and health-check validation: the services they find invalid are the `invalid` parameter of the boot planner.
- Operation conflicts and lifecycle: a finite table of cases.
- The event writer that turns a payload into MessagePack, SID parsing and privilege flags: an external library and tables.
- BootGraph.BuildPhase2BootGraph: does not attach the start cause and identity to each started service, which are read off its definition.
- BootPlan.PrepareBootPlan: does not model undecodable definitions, which are appended to the blocked services, nor warnings, nor the identifiers given to each start and the errors of making them.
- BootLatch.RunSession: takes the tracker as Phase 2 configures it, and a boot that fails on its way there as one without turns.
- BootSuccess.BootSuccessTracker.ProcessDue: does not keep the text of a failed reset, only that it failed.
- BootAttempts.BootAttemptCounter.Write: does not model making the directory; its failure is a failed write.
- Submitted.SubmittedJobStore.Insert: does not model entry fields that no store operation or deadline reads, nor writes the supervisor makes through `get_mut`.
- LogLines.LogLineAssembler.PushBytes: does not model the lossy UTF-8 decoding of a finished line, only its bytes.
- LogBuffer.PreEventdLogBuffer.Push: does not model overflow of the sum of used and new bytes, which takes a capacity above 2^63.
- Msgpack.BatchPrefixLen: takes `usize` as 64 bits and the length of one record as exact.
- UuidV7.IdAllocator.AllocateBatch: takes `usize` as 64 bits, so a count always converts, and stands for the operation and the job allocator alike.
- Jobs.EventsCanBeMade: does not model the identity and context fields an event copies from its record.
