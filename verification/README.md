# A model of the EKS node monitoring agent's health decisions

The agent watches a Kubernetes node. When it decides that something on the node is broken it sets a
node condition to `False`, and the node gets repaired. This project models the code that takes those
decisions, and proves what each decision means in terms of everything that was observed before it.

`dafny verify dfyconfig.toml` checks the whole project.

## What is modelled

**From a probe to the node.** `Probe` is the probe runner: its per-check counters are proved to stand
for the history of results, with the rounds that could not execute erased. `NodeExporter` keeps the
unresolved reasons of each condition type in order and rebuilds the visible condition; `ExporterHistory`
says what that list and that condition must be for any sequence of reports, resolutions and
heartbeats. `Manager` sits between them, with its occurrence debounce, its resolve route and its
gauge. `Pipeline` composes the three with the first-in first-out queue and proves end-to-end agreement
in every reachable state.

**Calls that cannot be cancelled.** `InFlight` and `CollectorClaim` are state machines whose steps are
the atomic operations of a caller and of the goroutine it may abandon: the claim, the timestamp store,
the start, the return, the release, the publication, the deadline. The theorems hold in every
interleaving.

**Stalls and escalation.** `Reader` is the NVML reader's reconcile loop: loading, initialising,
re-notifying, and the escalation to Fatal, as a function of the history of all calls. `ProbeCalls` joins
it with `InFlight`: each call of the reader carries the steps its driver probe took, abandoned goroutines
included. `CheckCalls` does the same for the checks whose timestamps the reader loads.

**Counters and levels.** `Counters` says what a baseline stands for and what reported growth adds up
to. `HealthReader`, `HealthRules`, `Health` and `HealthRuns` are the GPU health check: reading one GPU,
the rules, a poll of all GPUs with the state it keeps, and runs of polls. `Ber` relates the
bit-error-rate tests to the rates. `PolicyReader`, `Policies` and `PolicyRuns` are the policy check, and
`DriverReads` what both checks make of the driver's answers. `LevelReports`, `Renotify` and
`Warnings` are the three rate limiters. `Xid` registers GPUs for XID events and spaces the reports.

**The diagnostic console.** `Console` has the tail that starts at a line, the writer paced by a token
bucket, and the cycle that writes a section per producer.

The classes have the source's fields and change them in place. Each keeps ghost fields with the history
of what it was given. `Valid()` ties the counters, lists, maps and flags kept between calls to functions
of that history, and every method says how the history grew, so that a theorem about the functions is
one about the object.

Time is an integer number of nanoseconds. Return codes, readings, clock values and the success or
failure of a call into Kubernetes, the driver or the file system are parameters.

## Where the code and its documentation differ

The model follows the code. Where a promised property fails, a lemma gives the exact condition under
which it holds, or a run in which it fails.

- `monitors/nvidia/nvml/health.go:73-93` puts code 119 at "BER above 1e-12". A zero mantissa with an
  exponent below 12 is a rate of zero, and the code reports it (`Ber.EffectiveTestIsExact`).
- The message of code 121 says "at or above 1e-(floor-1)". At an exponent equal to the floor, a mantissa of
  10 or more is such a rate, unless it is 15 at exponent 255, which encodes zero; the code does not report
  it (`Ber.SymbolTestIsExact`).
- `monitors/nvidia/nvml/policy.go:51-53` promises that a counter needs two readings in a row before growth
  is reported. A GPU whose handle cannot be had has no list of NVLink readings, so its poll passes over the
  NVLink totals and keeps their baselines, and the first reading afterwards can report. The same holds of a
  GPU that is not counted (`Policies.GrowthTakesTwoInARow`, `Policies.FailedReadCostsTwoReadings`,
  `Policies.WhichPollsPassOver`; a run: `Policies.FailedHandleKeepsTheTotals`).
- `monitors/nvidia/nvml/reader.go:92-93` calls `probeStuckSince` the start of the probe's current stuck call, and
  the escalation's message speaks of one read stuck for the window. A probe call that comes back after its
  deadline is replaced by a new one without restarting the window, so the outstanding call is that old
  exactly when none came back inside the window (`ProbeCalls.EscalationsProbeIsOld`; a run:
  `ProbeCalls.SlowProbeEscalates`).
- `monitors/nvidia/nvml/health.go:106-111` says recovery actions above 4 are ignored. The Fatal actions are
  compared after narrowing to 32 bits, so a value whose low 32 bits are 1, 2 or 4 is reported
  (`HealthRules.NewerActionsAreIgnored`).
- The retired-page limits of code 7 and of the policy compare a sum that wraps around at 2^64
  (`HealthRules.RetiredPagesWrap`, `Policies.RetiredPagesWrap`).
- `monitors/nvidia/nvml/policy.go:413-428` compares whole watts, so a draw above the limit but within the
  same watt is not over it (`Policies.WholeWattsMissTheLastWatt`).
- `monitors/nvidia/classify/warnings.go:17-21` promises that a changed set of warnings is reported. The key of
  a set joins its members with line breaks, so two different sets can share one, though not while reasons
  hold no line break and no NUL and messages no NUL (`Warnings.PlainSetsHaveTheirOwnKeys`). With a
  selection by reason, as both callers have it, every other set would be reported inside the interval after a
  reported set exactly when that one is a single warning whose key no line break cuts into those of two
  selected warnings, in ascending order (`Warnings.WhenEveryOtherSetIsReported`,
  `Warnings.OnlyOneWarningStandsAlone`; two sets that share a key: `Warnings.LineBreaksCanCollide`).
- A memory pressure that is not a number does not hold an escalation back, although
  `monitors/nvidia/nvml/escalation.go:36-39` asks for a known pressure at or below the limit
  (`Reader.OnlyAKnownPressureEscalates`; a run: `Reader.NotANumberEscalates`).
- `monitors/nvidia/nvml/escalation.go:17-20` speaks of a driver that answers nothing for the window. The reader
  looks at the checks only when it is called. A check has kept one call in the driver through two of those
  looks for certain exactly if they are less than the stall duration apart (`CheckCalls.SameCallExactlyWhenSoon`);
  if all of a stuck run's are, every check has kept one call through all of it
  (`CheckCalls.EscalationsChecksAreOld`).
- `pkg/diagnostic/logger.go:419-420` speaks of the last line feed. The tail starts after the first one in the
  window, and a line feed at the very end does not count (`Console.Tailx`). The two agree exactly when one line
  starts in the window (`Console.TailIsTheLastLineWhenThereIsOne`).
- The paced writer is meant to hand over at most its rate, with bursts of at most one chunk
  (`pkg/diagnostic/logger.go:96-109`). For a given delay between the moment a window's first write is let
  through and the write itself, all windows of writes keep that bound exactly when the delay or the rate is
  zero; some delayed windows keep it (`Console.PromiseNeedsNoDelay`). Measured from when the first write was let
  through the bound always holds (`Console.WritesAreBoundedFromTheFirstGrant`), and a delay can cost at most
  one more chunk (`Console.WritesAreBounded`), which it does in `Console.DelayedWriteDoublesTheBurst`.
- A registration run for XID events that is abandoned in an existing set can register GPUs nobody hears
  of. Those GPUs, and no others, stand in more than one place or are registered twice
  (`Xid.EveryGpuIsAccountedFor`; a run: `Xid.AbandonedRunRegistersTwice`).
- A collector's caller that receives a result wins its next claim exactly when no collection is outstanding
  and no other caller holds the claim (`CollectorClaim.NextClaimWinsIfNobodyHoldsIt`). Without competition that
  is always (`CollectorClaim.ResultMeansNextClaimWins`); a run in which it loses:
  `CollectorClaim.CompetitorCanTakeTheClaim`.

## Model

| member | source | states |
|---|---|---|
| `Probe.Runner.RunOnce` | pkg/probe/runner.go:127-139 | A round sends exactly what the history of each check calls for; readiness is consulted only when liveness is healthy; an outcome outside the known ones is an error |
| `Probe.Runner.Apply` | pkg/probe/runner.go:141-158 | A result that is not evidence changes no counter and sends nothing; any other extends the check's history by itself |
| `Probe.Runner.ApplyHealthy` | pkg/probe/runner.go:160-205 | The counters stay those of the history, and a resolve or a summary is queued exactly when the history calls for it |
| `Probe.Runner.ApplyUnhealthy` | pkg/probe/runner.go:207-237 | The counters stay those of the history, and one Fatal is queued exactly at the failure that trips the check |
| `Probe.RunsAreMaximal` | pkg/probe/runner.go:160-237 | The failure and healthy runs the counters stand for hold one outcome throughout and cannot be extended backwards |
| `Probe.FiredStep` | pkg/probe/runner.go:160-237 | Firing latches until a recovery and a recovery clears it, for the definition of fired over the whole history |
| `Probe.FiredAwaitsRecovery` | pkg/probe/runner.go:160-205 | While a check is fired, its healthy run is short of the recovery threshold |
| `Probe.UnhealthyStep` | pkg/probe/runner.go:207-237 | What one failure does to the runs, the streak start, fired and the notice, from the definitions over the history |
| `Probe.HealthyStep` | pkg/probe/runner.go:160-205 | What one healthy result does to them |
| `Probe.FiresExactly` | pkg/probe/runner.go:207-237 | A check fires, with the failure's detail, exactly on a failure at or after the start time plus the grace period that makes failureThreshold in a row while nothing is fired |
| `Probe.GraceNeverFires` | pkg/probe/runner.go:207-224 | A result before the start time plus the grace period never says fired and never makes the check fired |
| `Probe.BootIsSilent` | pkg/probe/runner.go:207-237 | Whatever a check returns until then, it says nothing at all |
| `Probe.TimesShift` | pkg/probe/runner.go:207-224 | Moving the start time and every result by one amount changes nothing a check says |
| `Probe.UnknownRoundsAreErased` | pkg/probe/runner.go:143-158 | Erasing the rounds that are not evidence changes nothing a check ever says |
| `Probe.OddRoundChangesNothing` | pkg/probe/runner.go:143-158 | A result that is neither healthy nor unhealthy might as well not have been, wherever in the history it came |
| `Probe.EpisodesAlternate` | pkg/probe/runner.go:160-237 | Over any run, fire and resolve strictly alternate starting with fire, and the last one says whether the check is fired |
| `Probe.SummaryIsAShortEpisode` | pkg/probe/runner.go:160-205 | A summary of n is said exactly at the end of an unfired streak of n failures that began no earlier than the start time plus the grace period; n is below the threshold if the clock never went back |
| `Probe.UnfiredStreakBeganInGrace` | pkg/probe/runner.go:207-237 | An unfired streak at or above the threshold began before the start time plus the grace period |
| `Probe.ReadinessHoldsStill` | pkg/probe/runner.go:127-139 | Dropping every round whose liveness was not healthy changes neither readiness' results nor anything it says |
| `Probe.WhatIsSent` | pkg/probe/runner.go:160-237 | A firing carries the check's severity and the failure's detail, a summary is never Fatal, and only a Fatal check's recovery resolves |
| `Probe.WhatIsNotSent` | pkg/probe/runner.go:160-205 | Every notice is sent but the recovery of a check that is not Fatal |
| `ExporterHistory.UnresolvedMeans` | pkg/manager/node_exporter.go:136-219 | A reason stands exactly when some report of it has no resolution of it afterwards |
| `ExporterHistory.ReportsBracketEpisode` | pkg/manager/node_exporter.go:136-219 | The first and last report of a standing reason bracket an episode that nothing resolves and before which it did not stand |
| `ExporterHistory.StampsFollowReports` | pkg/manager/node_exporter.go:136-158 | A later report carries a larger stamp |
| `ExporterHistory.TracksDeterminesEntries` | pkg/manager/node_exporter.go:140-219 | A history has exactly one entry list: the standing reasons, once each, in order of first report, with their latest message |
| `ExporterHistory.FlipTimeIsLatestFlip` | pkg/manager/node_exporter.go:213-216 | The transition time the model keeps is that of the latest operation that emptied or filled the list, or the creation if none did |
| `NodeExporter.Exporter.Fatal` | pkg/manager/node_exporter.go:136-158 | A report extends the history, and entries and visible condition stay what the history says |
| `NodeExporter.Exporter.Resolve` | pkg/manager/node_exporter.go:164-219 | A resolution extends the history, reports recovery exactly when no reason of the type stands, records an event exactly when the reason stood, and otherwise touches neither conditions nor dirty flag |
| `NodeExporter.Exporter.RebuildFatalCondition` | pkg/manager/node_exporter.go:225-265 | The condition becomes False with the reason of the entry of largest stamp and the joined messages; its transition time moves only from another status |
| `NodeExporter.Exporter.RestoreReadyCondition` | pkg/manager/node_exporter.go:199-218 | The condition becomes True with the configured text; its transition time moves only from another status |
| `NodeExporter.Exporter.UpdateHeartbeatTimes` | pkg/manager/node_exporter.go:296-306 | Every managed condition's heartbeat moves and nothing else does; the state is dirty |
| `NodeExporter.Exporter.ReportManagedConditions` | pkg/manager/node_exporter.go:312-344 | What is written is an upsert of the managed conditions into the node's; only a successful write clears the dirty flag, so a state that is not dirty equals the last one written |
| `NodeExporter.EntriesMeanUnresolved` | pkg/manager/node_exporter.go:140-219 | The entry list is empty exactly when no reason of the type stands, and names exactly the standing ones |
| `NodeExporter.NewestByStamp` | pkg/manager/node_exporter.go:225-234 | The entry of largest stamp is the most recently reported standing reason |
| `NodeExporter.DigestIsDistinctAndOrdered` | pkg/manager/node_exporter.go:236-254 | The messages joined are the non-empty ones, each once, in order of first occurrence |
| `NodeExporter.JoinHoldsItsParts` | pkg/manager/node_exporter.go:236-254 | Each message stands in the joined text where the earlier ones and a separator each end, with a separator right after it if another follows |
| `NodeExporter.JoinLength` | pkg/manager/node_exporter.go:236-254 | The joined text is as long as the messages and one separator between neighbours, and no longer |
| `NodeExporter.StandingMessagesAreShown` | pkg/manager/node_exporter.go:225-265 | Every standing reason's latest message, unless empty, stands in the message of its type's condition |
| `NodeExporter.HealthyConditionReads` | pkg/manager/node_exporter.go:199-218 | A condition without a standing reason is True and reads as configured for its type, or as the default for a type without configuration |
| `NodeExporter.ReportRecorded` | pkg/manager/node_exporter.go:136-158 | A list and a condition right for a history, updated for one report, are right for the longer history, for every type |
| `NodeExporter.ResolveRecorded` | pkg/manager/node_exporter.go:164-219 | The same for one resolution of a standing reason |
| `NodeExporter.IdleResolve` | pkg/manager/node_exporter.go:160-179 | Resolving a reason that does not stand leaves everything right unchanged |
| `NodeExporter.AllBeat` | pkg/manager/node_exporter.go:296-306 | Moving the heartbeats keeps every condition right, transition times included |
| `NodeExporter.UpsertShowsManaged` | pkg/manager/node_exporter.go:312-344 | After the upsert every managed type reads as the exporter keeps it |
| `NodeExporter.UpsertIgnoresVisitOrder` | pkg/manager/node_exporter.go:323-337 | Two upserts of the same conditions differ at most in the order of the appended tail |
| `Manager.MonitorManager.ExportCondition` | pkg/manager/manager.go:124-162 | What reaches the exporter is exactly what debounce and the resolve route let through; counters are those of the history; the gauge of a type is 1 exactly when a reason of it stands |
| `Manager.MonitorManager.SendCondition` | pkg/manager/manager.go:166-183 | Routing by severity, and an error for a severity that is not known |
| `Manager.DebouncePassesOneInEvery` | pkg/manager/manager.go:144-161 | With minimum occurrences m, after n reports since the last reset n div (m+1) were passed on and n mod (m+1) are held |
| `Pipeline.EndToEndAgreement` | pkg/manager/manager.go:203-218 | In every reachable state the runner has fired exactly when handling what is pending leaves the reason standing; with nothing of the check's pending, exactly when it stands |
| `Pipeline.NodeShowsTheVerdict` | pkg/manager/node_exporter.go:312-344 | Once drained and written, the reason is listed exactly while the check is fired, the node's condition is False if it is, and True only if it is not |
| `Pipeline.SendsMoveTheVerdict` | pkg/probe/runner.go:160-237 | What the runner says about a result moves a verdict folded over conditions exactly as the result moves fired |
| `Pipeline.HandleAgrees` | pkg/manager/manager.go:124-183 | Handling one condition moves the exporter's verdict on a reason exactly as folding that condition does |
| `Pipeline.OthersPendingChangeNothing` | pkg/manager/manager.go:231-234 | Conditions of other reasons, wherever they are pending, do not move the verdict |
| `InFlight.AtMostOneCallInDriver` | monitors/nvidia/nvml/inflight.go:65-98 | In every interleaving at most one call is in the driver, and none while one is being started |
| `InFlight.TimestampIsTheCallsOwn` | monitors/nvidia/nvml/inflight.go:65-98 | A non-zero timestamp belongs to the call being started or not yet cleared, and is that call's own start time |
| `InFlight.ClearErasesOnlyItsOwn` | monitors/nvidia/nvml/inflight.go:78-87 | A finishing call's clear finds its own timestamp, and no other step takes a set timestamp away |
| `InFlight.DoneReturnsItsOwnValue` | monitors/nvidia/nvml/inflight.go:65-98 | Done returns the value that the call started by the same run returned |
| `InFlight.ProducedByTheCall` | monitors/nvidia/nvml/inflight.go:82-95 | A value published by a call was returned by it, after it was started |
| `InFlight.SpawnedOnce` | monitors/nvidia/nvml/inflight.go:65-98 | No call is started twice |
| `InFlight.StalledFor` | monitors/nvidia/nvml/inflight.go:102-113 | Stalled means that there are checks and every one has had a call in the driver for the duration |
| `InFlight.StallMeansEveryCallIsOld` | monitors/nvidia/nvml/inflight.go:102-113 | Over any runs of the checks, a stall means each has one call, its own, started at least that long ago and not cleared |
| `CollectorClaim.AtMostOneOutstanding` | pkg/diagnostic/logger.go:230-278 | Over any cycles and interleavings at most one collection is outstanding, and while one is no caller can start another |
| `CollectorClaim.ReleaseFreesItsOwnClaim` | pkg/controllers/nodediagnostic.go:600-660 | A release frees the claim of the one collection that holds it, and leaves none outstanding |
| `CollectorClaim.ReleasedOnce` | pkg/diagnostic/logger.go:240-262 | Over any run a collection releases its claim at most once |
| `CollectorClaim.ResultMeansReleased` | pkg/diagnostic/logger.go:240-262 | A result reaches its caller only after the collection that made it released the claim |
| `CollectorClaim.NextClaimWinsIfNobodyHoldsIt` | pkg/diagnostic/logger.go:230-278 | Over any run, a caller that was answered wins its next claim exactly when no collection is outstanding and no caller holds the claim |
| `CollectorClaim.ResultMeansNextClaimWins` | pkg/diagnostic/logger.go:230-278 | A caller with no competition that receives a result always wins its next claim |
| `CollectorClaim.CompetitorCanTakeTheClaim` | pkg/diagnostic/logger.go:230-240 | With a competitor it may not: a run in which it loses |
| `Reader.NvmlReader.Reconcile` | monitors/nvidia/nvml/reader.go:177-215 | A call returns exactly the reports that the history of calls says, and every field stays what the history makes it |
| `Reader.NvmlReader.ReconcileReady` | monitors/nvidia/nvml/reader.go:178-183 | The same for a call after Init has succeeded |
| `Reader.NvmlReader.ReconcileInit` | monitors/nvidia/nvml/reader.go:185-215 | The same for a call before: loading once, running Init, and a stuck or failed Init |
| `Reader.NvmlReader.RecordInit` | monitors/nvidia/nvml/reader.go:233-247 | Success makes the reader ready for good; a failure is reported by its code |
| `Reader.NvmlReader.NotResponding` | monitors/nvidia/nvml/reader.go:256-274 | The warning is sent when it is due and the tracker moves with it |
| `Reader.NvmlReader.ReportMissingLibrary` | monitors/nvidia/nvml/reader.go:276-296 | The same for a missing library, silent within the grace period |
| `Reader.NvmlReader.Escalate` | monitors/nvidia/nvml/escalation.go:36-80 | The stuck window and the escalation are those of the history of calls |
| `Reader.EscalationIsExact` | monitors/nvidia/nvml/escalation.go:40-80 | A call escalates exactly when it ends an unbroken run of stalled calls with stuck probes at least 15 minutes long and memory pressure allows it |
| `Reader.StuckRunIsMaximal` | monitors/nvidia/nvml/escalation.go:40-80 | The run it looks back over is stuck throughout and cannot be extended |
| `Reader.AnswerRestartsTheWindow` | monitors/nvidia/nvml/escalation.go:40-60 | After a call that answered, nothing escalates until the window has passed since a later call |
| `Reader.DriverWarningsAreSpaced` | monitors/nvidia/nvml/reader.go:256-274 | Two not-responding warnings with no answer between are at least the re-notify interval apart |
| `Reader.ReadyIsForever` | monitors/nvidia/nvml/reader.go:177-183 | Once Init has succeeded the reader stays ready, and no later call reports Init's failure or a missing library |
| `Reader.GraceHoldsBack` | monitors/nvidia/nvml/reader.go:185-215 | Until Init has succeeded, a call before the start time plus the grace period reports nothing, whatever it observes |
| `Reader.InitFailureIsReported` | monitors/nvidia/nvml/reader.go:233-247 | Init's failure is reported exactly by the calls after the grace period in which Init runs on a library and fails |
| `Reader.MissingLibraryIsReported` | monitors/nvidia/nvml/reader.go:276-296 | A missing library is reported only after the grace period, when none had loaded and none was found; such a call reports it unless an earlier one did within the interval |
| `Reader.StuckDriverIsReported` | monitors/nvidia/nvml/reader.go:256-274 | The not-responding warning comes only when every check has been in the driver for the stall duration, or Init has after the grace period; such a call sends it unless an earlier one did within the interval |
| `Reader.InitIsNotRunAgain` | monitors/nvidia/nvml/reader.go:177-183 | From then on what a call reports does not depend on what Init would have given |
| `Reader.NothingEscalatesBeforeInit` | monitors/nvidia/nvml/reader.go:177-215 | Before Init has succeeded nothing escalates, whatever the call observes |
| `Reader.OnlyAKnownPressureEscalates` | monitors/nvidia/nvml/escalation.go:36-79 | A call that ends a stuck run spanning the window escalates exactly at a known pressure of at most 10, as promised, exactly unless the pressure is not a number |
| `Reader.NotANumberEscalates` | monitors/nvidia/nvml/escalation.go:59-79 | A run that escalates on a pressure that is not a number |
| `ProbeCalls.SideGoesByItsSteps` | monitors/nvidia/nvml/inflight.go:65-98 | However abandoned goroutines interleave, what a caller waits for and when its calls started go by the caller's own steps |
| `ProbeCalls.OneCallIsPending` | monitors/nvidia/nvml/escalation.go:45-54 | After a call that saw the probe stuck, one probe call is pending: that of the last reader call that made any, stamped within it |
| `ProbeCalls.BeginsByReaping` | monitors/nvidia/nvml/inflight.go:67-75 | A reader call that makes a probe call right after a stuck one found that the earlier had come back |
| `ProbeCalls.EscalationsProbeIsOld` | monitors/nvidia/nvml/escalation.go:40-80 | At an escalation the outstanding probe call began at least 15 minutes ago exactly when no earlier one was found to have come back inside the window; its age is taken from the reader's clock reading right before the run that made it, and the start it stamped lies between that reading and the last one of the same reader call |
| `ProbeCalls.SlowProbeEscalates` | monitors/nvidia/nvml/inflight.go:67-75 | A run that escalates although the earlier probe call came back and the outstanding one has just begun |
| `CheckCalls.SameCallUntilStamped` | monitors/nvidia/nvml/inflight.go:65-98 | Over any further steps a set timestamp is still that of the same call, or is gone, or is a later call's own |
| `CheckCalls.OneCallThroughout` | monitors/nvidia/nvml/inflight.go:100-113 | If calls of the reader less than the stall duration apart all find the checks stalled, a check has one and the same call in the driver from the first to the last |
| `CheckCalls.SameCallExactlyWhenSoon` | monitors/nvidia/nvml/inflight.go:100-113 | For a given time between two calls of the reader that find the checks stalled, they always find a check's same call exactly when that time is below the stall duration |
| `CheckCalls.StalledHoldsTheDriver` | monitors/nvidia/nvml/inflight.go:65-113 | When the reader finds the checks stalled, each has a call in the driver or being started that began at least the stall duration ago |
| `CheckCalls.EscalationsChecksAreOld` | monitors/nvidia/nvml/escalation.go:17-54 | At an escalation, if the reader's calls came less than the stall duration apart, every check has had one call in the driver through the whole stuck run, at least the window and the stall duration old |
| `Counters.GrowthIsConserved` | monitors/nvidia/nvml/health.go:563-577 | Reported growth less the drops is the last reading less the first, however many polls in between read nothing |
| `Counters.GrowthNeedsTwoReadings` | monitors/nvidia/nvml/health.go:557-585 | Growth is known exactly when this reading and the last event before it both observed the counter, and is measured from that reading |
| `Counters.BaselineIsLastReading` | monitors/nvidia/nvml/health.go:563-585 | A baseline is the last reading unless a failed read or a lost GPU followed it |
| `Counters.SkippedKeepsBaseline` | monitors/nvidia/nvml/health.go:279-283 | Polls that read nothing change no baseline |
| `Health.Health.CounterGrew` | monitors/nvidia/nvml/health.go:563-577 | The growth returned, whether it is known, and the baseline left |
| `Health.Health.ClearBaselines` | monitors/nvidia/nvml/health.go:579-585 | Exactly the GPU's baselines are gone |
| `DriverReads.DecodesWhatWasEncoded` | monitors/nvidia/nvml/policy.go:277-300 | Decoding undoes two's complement for every integer type on non-negative values and reads nothing else |
| `DriverReads.HigherBytesAreIgnored` | monitors/nvidia/nvml/policy.go:277-300 | A two- or four-byte value is read whatever the bytes above it hold, the long types take all eight, a signed value with its top bit set is not read, and no other type is |
| `HealthReader.ReadFields` | monitors/nvidia/nvml/health.go:316-343 | Every field is its own answer at the scope the architecture calls for, or not read; lost exactly if the call or an asked value says so |
| `HealthReader.ReadLinks` | monitors/nvidia/nvml/health.go:374-391 | The links reported down are exactly those that read disabled among the first of the count, at most 18, outside MIG mode |
| `HealthReader.ReadGpuHealth` | monitors/nvidia/nvml/health.go:296-415 | A GPU is lost exactly when some call made for it says so and then has no values; otherwise every value is the driver's answer or not read |
| `HealthReader.ReadingsAreWellRead` | monitors/nvidia/nvml/health.go:296-419 | A value that was not read is zero, links are down only where counted, NVLink5 fields are known only beside the architecture |
| `HealthReader.ReadingsAreTheAnswers` | monitors/nvidia/nvml/health.go:296-415 | Each reading of a GPU that is there, from the driver's answers themselves: the scope each field is asked for at and when it is not asked for, MIG mode, the links down |
| `HealthReader.LostIsAnAnswer` | monitors/nvidia/nvml/health.go:296-415 | A GPU is lost exactly when the answer to one of the calls made for it says so; nothing is kept then, nor without a handle |
| `Ber.EffectiveTestIsExact` | monitors/nvidia/nvml/health.go:594-607 | The test is "above 10^-12" of the encoded rate, zero included, exactly unless the mantissa is zero and e < 12 |
| `Ber.SymbolTestIsExact` | monitors/nvidia/nvml/health.go:609-615 | The test is "at or above 10^-(floor-1)" of the encoded rate, zero included, exactly unless e is the floor, m >= 10 and the rate is not the encoded zero (and, for floors never used, unless zero meets a floor above 255) |
| `Ber.PartsArePacked` | monitors/nvidia/nvml/health.go:587-592 | Unpacking gives a 4-bit mantissa and an 8-bit exponent whose packing is the value's low 12 bits |
| `HealthRules.ReportsFollowTheRules` | monitors/nvidia/nvml/health.go:71-93 | A GPU that is not lost gets exactly the reports whose rule, one per code, holds of its readings |
| `HealthRules.LevelsAreTheReadings` | monitors/nvidia/nvml/health.go:113-114 | Which readings each warning's level needs, and that it is over exactly when the warning's rule holds of them |
| `HealthRules.GrowthIsExact` | monitors/nvidia/nvml/health.go:484-490 | Each NVLink error counter that grew is reported with its growth, and none other |
| `HealthRules.FatalsAreJustified` | monitors/nvidia/nvml/health.go:417-555 | A lost GPU has its one report and nothing else; any other Fatal rests on a reading observed in this poll |
| `HealthRules.NothingReadNothingReported` | monitors/nvidia/nvml/health.go:417-419 | A GPU about which nothing was observed gets no report |
| `HealthRules.RetiredPagesWrap` | monitors/nvidia/nvml/health.go:459-464 | The 64-bit page sum reaches the limit as the true sum does, exactly unless it wraps below it |
| `HealthRules.ActionsAreReported` | monitors/nvidia/nvml/health.go:540-552 | 125, 126 and 128 are reported exactly when the action was observed and is 1, 2 or 4 plus a multiple of 2^32 |
| `HealthRules.OtherActionsAreNotFatal` | monitors/nvidia/nvml/health.go:540-552 | Actions 0 and 3 report no Fatal |
| `HealthRules.NewerActionsAreIgnored` | monitors/nvidia/nvml/health.go:540-552 | An action above 4 reports nothing exactly unless it is 1, 2 or 4 plus a multiple of 2^32 |
| `Health.Health.CheckGpu` | monitors/nvidia/nvml/health.go:437-552 | The reports are those of the rules, every rate counter of the GPU is read, every warning's tracker moves by its own level, and nothing else changes |
| `Health.Health.CheckOrClear` | monitors/nvidia/nvml/health.go:429-436 | A lost GPU reports once, loses its baselines and keeps its trackers |
| `Health.Health.CheckCounters` | monitors/nvidia/nvml/health.go:484-490 | Every error counter updates its baseline, and each that grew reports |
| `Health.Health.CheckAll` | monitors/nvidia/nvml/health.go:420-555 | The poll's reports, GPU by GPU; no link counts as down while any GPU is in MIG mode |
| `Health.Health.Evaluate` | monitors/nvidia/nvml/health.go:420-555 | The same; the poll joins the object's run, every baseline and every warning tracker is what the run leaves, and every poll of the run started from what the ones before it left |
| `Health.Health.Poll` | monitors/nvidia/nvml/health.go:257-292 | A poll that reads nothing changes nothing; any other reports on the driver's answers, leaves every baseline and warning tracker as its readings make them, joins the run, and replaces the InfoROM results exactly when none are younger than an hour |
| `HealthRuns.PollReportsByGpu` | monitors/nvidia/nvml/health.go:428-436 | A poll says about each GPU what its rules say, in order; about a lost one, that it is lost, once |
| `HealthRuns.PollFollowsTheRules` | monitors/nvidia/nvml/health.go:420-555 | A poll makes a report about a GPU that is not lost exactly when its rule holds of that GPU's readings, its own InfoROM result and whether any GPU is in MIG mode |
| `HealthRuns.LinksAreDownOutsideMig` | monitors/nvidia/nvml/health.go:476-483 | A link is reported down exactly when its GPU has it down and no GPU of the node is in MIG mode |
| `HealthRuns.PollFatalsAreJustified` | monitors/nvidia/nvml/health.go:296-553 | Whatever the driver answered, each Fatal of a poll is a lost GPU's or rests on a reading the driver gave |
| `HealthRuns.ReportsAddUpToTheGrowth` | monitors/nvidia/nvml/health.go:484-490 | Over any run, the amounts reported for an error counter add up to its growth |
| `HealthRuns.ReportedGrowthIsConserved` | monitors/nvidia/nvml/health.go:95-99 | Over any run in which it is always observed, those amounts less the drops are the last reading less the first |
| `HealthRuns.CounterReportsItsRise` | monitors/nvidia/nvml/health.go:95-99 | A poll reports a counter by an amount exactly when the last event about it was a reading lower by that amount |
| `HealthRuns.WarningIsItsNotice` | monitors/nvidia/nvml/health.go:113-114 | Over any run, a poll reports a warning exactly when the readings of its level so far make it due |
| `HealthRuns.WarningsAreSpaced` | monitors/nvidia/nvml/health.go:113-114 | Over any run, two warnings of a code about a GPU with no clean reading between are at least the interval apart |
| `HealthRuns.FirstViolationWarns` | monitors/nvidia/nvml/health.go:113-114 | The first violation observed after a clean reading warns at once |
| `PolicyReader.ReadTotals` | monitors/nvidia/nvml/policy.go:247-264 | Each NVLink total is its own answer or not read; lost exactly if the call or a value says so |
| `PolicyReader.ReadGpu` | monitors/nvidia/nvml/policy.go:194-275 | A GPU is lost exactly when some call made for it says so; otherwise every value is the driver's answer or not read, and without a handle there is not even a list of NVLink readings |
| `PolicyReader.NoPlaceWithoutAHandle` | monitors/nvidia/nvml/policy.go:197-203 | Of a GPU that is not lost, the list is empty exactly when its handle failed, and has all four totals otherwise |
| `PolicyReader.ReadingsAreTheAnswers` | monitors/nvidia/nvml/policy.go:194-275 | Each reading of a GPU that is there, from the driver's answers themselves |
| `PolicyReader.LostIsAnAnswer` | monitors/nvidia/nvml/policy.go:194-275 | A GPU is lost exactly when the answer to one of the calls made for it says so; nothing is kept then, nor without a handle |
| `Policies.Policies.CounterGrew` | monitors/nvidia/nvml/policy.go:356-369 | Whether the counter grew, with out of range as not read, and the baseline left |
| `Policies.Policies.ClearBaselines` | monitors/nvidia/nvml/policy.go:371-377 | Exactly the GPU's baselines are gone |
| `Policies.Policies.CheckNvlink` | monitors/nvidia/nvml/policy.go:320-329 | Every NVLink reading there is updates its total's baseline, even after one was reported; only the first that rose is reported |
| `Policies.Policies.CheckLevels` | monitors/nvidia/nvml/policy.go:331-346 | The three levels report when due, and their readings are recorded in order |
| `Policies.Policies.PowerNow` | monitors/nvidia/nvml/policy.go:413-429 | Observed exactly when the draw is known, and the limit too unless a threshold is configured; over exactly when the draw reaches the next whole watt above the threshold, or some whole watt above the limit |
| `Policies.PowerIsDetermined` | monitors/nvidia/nvml/policy.go:413-429 | Those properties leave one answer open: the comparison of whole watts |
| `Policies.Policies.Evaluate` | monitors/nvidia/nvml/policy.go:302-354 | The poll's reports; it joins the object's run, baselines and trackers are what the run leaves, and every poll of the run started from what the ones before it left |
| `Policies.Policies.Poll` | monitors/nvidia/nvml/policy.go:118-143 | A poll that reads nothing changes nothing; any other evaluates the driver's answers, reading the limit exactly when no threshold is configured |
| `Policies.ReportsFollowTheRules` | monitors/nvidia/nvml/policy.go:302-354 | A GPU that is not lost gets exactly the reports whose rule holds; the NVLink one is for the first total that rose |
| `Policies.LevelsAreTheReadings` | monitors/nvidia/nvml/policy.go:331-346 | Which readings each level needs and when it is over: more than 10 pages, more than 100 degrees, or the draw over what it is held against |
| `Policies.RetiredPagesWrap` | monitors/nvidia/nvml/policy.go:331-335 | The 64-bit page sum is over the limit as the true count is, exactly unless it wraps to the limit or less |
| `Policies.RoseIsGrowth` | monitors/nvidia/nvml/policy.go:315-351 | Each counter's growth is its own reading, in 32 bits, above its own baseline |
| `Policies.EachPolicyAtMostOnce` | monitors/nvidia/nvml/policy.go:48-54 | Each policy is reported at most once per GPU and poll |
| `Policies.ReportsByGpu` | monitors/nvidia/nvml/policy.go:304-313 | A poll's reports are those of its GPUs, each about its own |
| `Policies.EveryCounterIsNoted` | monitors/nvidia/nvml/policy.go:315-351 | Every counter the GPU's poll comes to is noted once whatever is reported, a lost GPU has none left, and no other baseline moves |
| `Policies.RoseSinceTheLastPoll` | monitors/nvidia/nvml/policy.go:356-369 | Over any run, a counter rose exactly when it is in range and the last poll that came to it, or lost its GPU, read it in range and lower |
| `Policies.FailedReadCostsTwoReadings` | monitors/nvidia/nvml/policy.go:51-53 | A poll without a usable reading of a counter costs two fresh readings exactly unless it passes over the counter |
| `Policies.GrowthTakesTwoInARow` | monitors/nvidia/nvml/policy.go:51-53 | A counter that rose was read in range in the poll before too, exactly unless that poll passed over it |
| `Policies.WhichPollsPassOver` | monitors/nvidia/nvml/policy.go:197-203 | A poll passes over a counter exactly when it does not count the GPU, or the counter is an NVLink total and the handle of a GPU that is not lost failed |
| `Policies.FailedHandleKeepsTheTotals` | monitors/nvidia/nvml/policy.go:197-199 | A run in which the first NVLink reading after a failed handle is reported as growth, and the GPU's other counters are not |
| `Policies.WarnsWhenItReports` | monitors/nvidia/nvml/policy.go:331-346 | A level warns exactly when the history of all level readings says its reading reports |
| `Policies.WholeWattsMissTheLastWatt` | monitors/nvidia/nvml/policy.go:413-429 | Whole watts compare as the draw and the limit do, or the configured threshold, exactly unless the draw is above it within its watt |
| `PolicyRuns.OthersLeaveTheLevel` | monitors/nvidia/nvml/policy.go:393-411 | In one poll a level's tracker moves by its own GPU's reading and by no other's |
| `PolicyRuns.ReportIsItsNotice` | monitors/nvidia/nvml/policy.go:56-59 | Over any run, a poll reports a level exactly when its readings so far make it due |
| `PolicyRuns.ReportsAreSpaced` | monitors/nvidia/nvml/policy.go:56-59 | Over any run, two reports of a level of a GPU with no clean reading between are at least the interval apart |
| `PolicyRuns.FirstViolationReports` | monitors/nvidia/nvml/policy.go:56-59 | The first violation observed after a clean reading reports at once |
| `LevelReports.LevelTrackers.Report` | monitors/nvidia/nvml/policy.go:393-411 | A reading reports exactly when the history of readings says so |
| `LevelReports.TrackedIffLastObservedOver` | monitors/nvidia/nvml/policy.go:379-391 | A key is tracked exactly when its last observed reading was over the limit |
| `LevelReports.ReportsAreSpaced` | monitors/nvidia/nvml/policy.go:385-391 | Two reports of a key with no clean reading between are at least the interval apart |
| `LevelReports.FirstViolationReports` | monitors/nvidia/nvml/policy.go:385-391 | The first observed violation after a clean reading reports |
| `LevelReports.SilenceMeansReportedRecently` | monitors/nvidia/nvml/policy.go:393-411 | A violation is silent only within the interval of a report since which the key never read clean |
| `Renotify.Tracker.ShouldNotify` | pkg/util/renotify/renotify.go:26-31 | True exactly when nothing was notified, the key changed or the interval passed |
| `Renotify.Tracker.Notified` | pkg/util/renotify/renotify.go:33-36 | The notification in force is this one |
| `Renotify.Tracker.Reset` | pkg/util/renotify/renotify.go:39-43 | No notification is in force |
| `Renotify.LastNoticeWasSent` | pkg/util/renotify/renotify.go:29-43 | The notification in force was sent by an event since which nothing was sent and the state was never healthy |
| `Renotify.SuppressedRepeatsARecentNotice` | pkg/util/renotify/renotify.go:26-31 | What is not sent repeats something sent less than the interval ago |
| `Renotify.NoticesAreSpaced` | pkg/util/renotify/renotify.go:29-37 | Two sends of an unchanged state, never healthy between, are at least the interval apart |
| `Renotify.InForceIffLastSeen` | pkg/util/renotify/renotify.go:29-43 | A notification is in force exactly when the last event about the state showed it |
| `Warnings.SuppressRepeatedWarnings` | monitors/nvidia/classify/warnings.go:22-74 | The output is what the rule keeps, and the tracker moves as the call's set of selected warnings says |
| `Warnings.CallContinuesTheRun` | monitors/nvidia/classify/warnings.go:38-57 | A call after a run reports when the run of all calls says so, and leaves its notification in force |
| `Warnings.RepeatedSetIsSuppressed` | monitors/nvidia/classify/warnings.go:17-57 | The last reported set again, in any order and any number of times, inside the interval and never empty since, puts none of it out |
| `Warnings.ChangedSetIsReported` | monitors/nvidia/classify/warnings.go:17-57 | A different set is reported, when both sets are plain (no NUL but the one after the reason, no line break in a reason), or no key of either holds a line break |
| `Warnings.WhenEveryOtherSetIsReported` | monitors/nvidia/classify/warnings.go:17-57 | After a reported set, every other set would be reported by the next call exactly when the reported set is one warning whose key no line break cuts into the keys of two selected ones, in ascending order |
| `Warnings.ReportsAnotherKey` | monitors/nvidia/classify/warnings.go:38-57 | After a reported set and inside the interval, a call reports exactly when its set's key is another |
| `Warnings.FirstAfterNoneIsReported` | monitors/nvidia/classify/warnings.go:38-43 | The first call with selected warnings after one without any reports them |
| `Warnings.CanonicalIgnoresOrderAndCopies` | monitors/nvidia/classify/warnings.go:45-48 | Sorting and compacting give the same list exactly for the same set |
| `Warnings.SetKeyStandsForTheSet` | monitors/nvidia/classify/warnings.go:45-48 | The same set has the same key, and the same key is the same set when both are plain, or no key of either holds a line break |
| `Warnings.PlainSetsHaveTheirOwnKeys` | monitors/nvidia/classify/warnings.go:45-48 | While reasons hold no line break and no NUL and messages no NUL, two sets have the same key exactly when they hold the same warnings, by reason and message |
| `Warnings.OnlyOneWarningStandsAlone` | monitors/nvidia/classify/warnings.go:33-48 | No other set has a set's key exactly when it is one warning that no line break cuts in that way |
| `Warnings.LineBreaksCanCollide` | monitors/nvidia/classify/warnings.go:45-48 | Two different sets with one key |
| `Warnings.KeptIsASubsequence` | monitors/nvidia/classify/warnings.go:59-73 | The output is a subsequence of the input |
| `Warnings.OthersPassThrough` | monitors/nvidia/classify/warnings.go:59-73 | Conditions not selected come out as often as and in the order they came in |
| `Warnings.NeverWithheld` | monitors/nvidia/classify/warnings.go:59-73 | A condition that is not a Warning, or not selected, comes out as often as it came in |
| `Warnings.SelectedOnceOrNever` | monitors/nvidia/classify/warnings.go:59-73 | Each selected warning comes out once when its set is reported, and never otherwise |
| `Xid.RegisterXidEvents` | monitors/nvidia/nvml/xid.go:130-171 | Of the GPUs asked about (every one, or those to retry) the missing ones are exactly those whose handle failed or whose registration answered neither success nor not supported, the registered ones those whose two calls succeeded, in order; no set without creating it and counting the GPUs |
| `Xid.Xids.Register` | monitors/nvidia/nvml/xid.go:105-128 | The registration state takes one step of the protocol; true exactly when a set exists and it was not time to retry without the driver |
| `Xid.Xids.Wait` | monitors/nvidia/nvml/xid.go:62-103 | Which events are reported, which are quiet, which are unknown, and that it sleeps exactly before unknown |
| `Xid.StepIsSound` | monitors/nvidia/nvml/xid.go:105-171 | Every step keeps every GPU accounted for |
| `Xid.MissingOnlyShrinks` | monitors/nvidia/nvml/xid.go:108-171 | Once the set exists the missing list stays strictly increasing and only loses members |
| `Xid.AnswersSettleEachGpu` | monitors/nvidia/nvml/xid.go:105-171 | A run that answers leaves each GPU it asked about missing, registered or unsupported by the return codes of its two calls, and every other as it was |
| `Xid.UnansweredStaysMissing` | monitors/nvidia/nvml/xid.go:108-128 | Over any turns, a missing GPU that no run got success or not supported for stays missing |
| `Xid.EveryGpuIsAccountedFor` | monitors/nvidia/nvml/xid.go:130-171 | Every GPU is exactly one of registered, unsupported or missing, and registered at most once, exactly unless an abandoned run registered it |
| `Xid.OnlyCountedGpusStand` | monitors/nvidia/nvml/xid.go:148-157 | No GPU beyond those counted stands anywhere |
| `Xid.AbandonedRunRegistersTwice` | monitors/nvidia/nvml/xid.go:116-120 | A run in which a GPU that an abandoned run registered is registered again |
| `Xid.RetriesArePaced` | monitors/nvidia/nvml/xid.go:24-27 | Over any turns, the next run in the set after one that answered comes exactly when the driver is there, GPUs are missing and the retry interval has passed, whatever did not run or got stuck between; without a set, every turn with the driver runs |
| `Xid.ReportKeepsTheFloor` | monitors/nvidia/nvml/xid.go:96-102 | Any two reports of a device are at least the floor apart |
| `Xid.DroppedRepeatsAReport` | monitors/nvidia/nvml/xid.go:96-102 | An event is dropped exactly when its device reported less than the floor before |
| `Console.Tailx` | pkg/diagnostic/logger.go:419-436 | A suffix of at most n bytes that starts at the first line in the window if there is one |
| `Console.TailIsTheLongestAtALine` | pkg/diagnostic/logger.go:419-436 | No longer tail that fits starts at a line |
| `Console.TailFollowsALineFeed` | pkg/diagnostic/logger.go:419-436 | A tail that was cut starts right after the first line feed before a byte of the window, and is the whole window without one |
| `Console.TailIsTheLastLineWhenThereIsOne` | pkg/diagnostic/logger.go:419-436 | A tail that was cut starts at the window's last line exactly when one line starts in the window |
| `Console.TailOfATail` | pkg/diagnostic/logger.go:419-436 | Taking the tail of a tail changes nothing |
| `Console.PacedWriter.Write` | pkg/diagnostic/logger.go:107-130 | Exactly the prefix reported is delivered, all of it without an error, in chunks no larger than the limit, one at a time; it ends for any underlying writer that keeps its contract |
| `Console.GrantsAreBounded` | pkg/diagnostic/logger.go:96-105 | The chunks let through in a window add up to at most the rate over it plus one burst |
| `Console.WritesAreBounded` | pkg/diagnostic/logger.go:96-130 | The writes made in a window add up to at most the rate over it plus one burst and one chunk |
| `Console.WritesAreBoundedFromTheFirstGrant` | pkg/diagnostic/logger.go:96-130 | Measured from when the window's first chunk was let through, they add up to at most the rate plus one burst |
| `Console.PromiseNeedsNoDelay` | pkg/diagnostic/logger.go:96-109 | For a given delay of the first write, all windows of writes keep rate plus one chunk exactly when that delay or the rate is zero |
| `Console.ExceedsAfterADelay` | pkg/diagnostic/logger.go:96-130 | For every delay, such a run |
| `Console.DelayedWriteDoublesTheBurst` | pkg/diagnostic/logger.go:96-130 | That extra chunk is needed |
| `Console.RunOnce` | pkg/diagnostic/logger.go:204-216 | One section per producer, in order, whatever was collected; what is delivered is a prefix of each section, in order, and all of every section when no write failed |
| `Console.SectionReadsBack` | pkg/diagnostic/logger.go:204-216 | Marker, timestamp, name and data are read back from a section's text, whatever the data, for a timestamp without line feed or bar and a name without line feed |

## Left out

- InFlight and CollectorClaim model the goroutine protocols on values, as steps of a state machine: a method
  of a class could not be interrupted between its atomic operations.
- Warnings.WhenEveryOtherSetIsReported: is for selections that go by a warning's reason; both callers' do.
- Warnings.ChangedSetIsReported: is about two sets that are both plain, or both without a line break in a
  key, because any two warnings share their key with some single one; `Warnings.WhenEveryOtherSetIsReported`
  says after which sets it holds of every other set.
- CheckCalls.EscalationsChecksAreOld: takes a check's clock reading and the store of its timestamp as one
  step, and asks that the reader's calls come less than the stall duration apart, which the loop that calls
  it decides.
- Reader.DriverWarningsAreSpaced: is about warnings with no answer between them, because an answer resets
  the tracker in the code.
- Health.Health.Poll: takes the driver's answers as given for the whole poll; a GPU does not appear or
  disappear between the count and its handle.
- LevelReports.LevelTrackers.Report: holds each tracker as the time it last notified, not as an object of
  its own; nothing in the source shares a tracker.
- Policies.Policies.Poll: takes the driver's answers as given for the whole poll, and the power threshold too,
  which the source can see change within one.
- Reading the decimal PSI text, the memory-pressure file and the list of candidate libraries: their results
  are parameters.
- Host byte order other than little-endian when a field value is decoded.
- NVML header values the repository takes from go-nvml (18 links, the BER layout, the recovery actions, a
  32-bit recovery action enumeration): written as constants; go-nvml is not part of this model.
- The wording of messages, except where it tells conditions apart; a summary's duration and count text; the
  names that describe a GPU.
- The stamp of a fatal report is unbounded; in the source it is a 64-bit counter.
- A notification abandoned because its context is done: notifications succeed, though they may wait for a
  full queue.
- A runner, health check, policy check or XID reader used from more than one goroutine: the source gives each
  one goroutine.
- The "blocked for" durations in notices, which can belong to an earlier run.
- Log lines, and every metric but the fatal gauge.
- The packet capture, the cancellation of a running diagnostic, the restart and EBS deltas, the log handlers,
  the collectors themselves and the wiring of the agent: single-branch checks or plumbing around calls that
  cannot be seen.
- The limiter's arithmetic: `Console` relies on the token-bucket contract, and does not model the rate library.
