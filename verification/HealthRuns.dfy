/** What the health check's reports amount to over a poll, and over whole runs of polls. */
module HealthRuns {
  import opened Monitor
  import opened Renotify
  import opened Counters
  import opened LevelReports
  import opened ReturnCodes
  import opened DriverReads
  import opened HealthReader
  import opened HealthRules
  import opened Ber
  import opened Health

  /** The reports about one GPU, in order. */
  function About(out: seq<Report>, gpu: nat): seq<Report> {
    if out == [] then []
    else
      var r := out[|out| - 1];
      About(out[..|out| - 1], gpu) + (if r.gpu == gpu then [r] else [])
  }

  lemma {:induction false} AboutBoth(a: seq<Report>, b: seq<Report>, gpu: nat)
    ensures About(a + b, gpu) == About(a, gpu) + About(b, gpu)
    decreases |b|
  {
    if b == [] {
      assert a + b == a;
    } else {
      var n := |b| - 1;
      AboutBoth(a, b[..n], gpu);
      assert (a + b)[..|a + b| - 1] == a + b[..n];
    }
  }

  lemma {:induction false} AboutOneGpu(out: seq<Report>, from: nat, gpu: nat)
    requires forall r :: r in out ==> r.gpu == from
    ensures About(out, gpu) == if from == gpu then out else []
  {
    if out != [] {
      var n := |out| - 1;
      assert out[n] in out;
      assert out == out[..n] + [out[n]];
      assert forall r :: r in out[..n] ==> r in out;
      AboutOneGpu(out[..n], from, gpu);
    }
  }

  lemma ReportsNameTheirGpu(p: GpuPoll)
    requires |p.s.fields| == NUM_FIELDS
    ensures forall r :: r in GpuReports(p) ==> r.gpu == p.gpu
  {
    forall r | r in GpuReports(p)
      ensures r.gpu == p.gpu
    {
      if !p.s.lost {
        ReportsFollowTheRules(p, r);
      }
    }
  }

  lemma PollNamesItsGpu(n: NodePoll, i: nat)
    requires i < |n.samples| && WellSized(n.samples)
    ensures PollAt(n, i).gpu == i && PollAt(n, i).s == n.samples[i]
  {
  }

  lemma {:induction false} AboutEachGpu(n: NodePoll, k: nat, gpu: nat)
    requires k <= |n.samples| && WellSized(n.samples)
    ensures About(ReportsUpTo(n, k), gpu) == if gpu < k then GpuReports(PollAt(n, gpu)) else []
    decreases k
  {
    hide GpuReports, About, PollAt;
    if k > 0 {
      AboutEachGpu(n, k - 1, gpu);
      var p := PollAt(n, k - 1);
      PollNamesItsGpu(n, k - 1);
      ReportsNameTheirGpu(p);
      AboutBoth(ReportsUpTo(n, k - 1), GpuReports(p), gpu);
      AboutOneGpu(GpuReports(p), k - 1, gpu);
    } else {
      AboutOneGpu([], 0, gpu);
    }
  }

  /** A poll reports about each GPU exactly what its rules say, in order; about a lost GPU, that
      it is lost, once, and nothing else. */
  lemma PollReportsByGpu(n: NodePoll, gpu: nat)
    requires WellSized(n.samples)
    ensures About(PollReports(n), gpu) == if gpu < |n.samples| then GpuReports(PollAt(n, gpu)) else []
    ensures gpu < |n.samples| && n.samples[gpu].lost ==> About(PollReports(n), gpu) == [LostGpu(gpu)]
  {
    AboutEachGpu(n, |n.samples|, gpu);
  }

  lemma {:induction false} AboutKeepsMembers(out: seq<Report>, r: Report)
    ensures r in About(out, r.gpu) <==> r in out
  {
    if out != [] {
      AboutKeepsMembers(out[..|out| - 1], r);
      assert out == out[..|out| - 1] + [out[|out| - 1]];
    }
  }

  /** One GPU of a poll: its readings, whether any GPU is in MIG mode, the InfoROM result held for its
      index, and what earlier polls left. */
  ghost predicate IsGpuOf(p: GpuPoll, n: NodePoll) {
    && p.gpu < |n.samples| && p.s == n.samples[p.gpu]
    && (p.anyMig <==> exists i :: 0 <= i < |n.samples| && n.samples[i].mig)
    && p.inforom == (if p.gpu < |n.inforom| then n.inforom[p.gpu] else UNREAD)
    && p.base == n.base && p.tracked == n.tracked && p.now == n.now
  }

  /** A poll makes a report about a GPU that is not lost exactly when its rule holds there. */
  lemma PollFollowsTheRules(n: NodePoll, p: GpuPoll, r: Report)
    requires WellSized(n.samples) && IsGpuOf(p, n) && r.gpu == p.gpu && !p.s.lost
    ensures |p.s.fields| == NUM_FIELDS && (r in PollReports(n) <==> Rule(p, r))
  {
    hide PollReports, GpuReports, Rule, About;
    assert PollAt(n, p.gpu) == p;
    AboutKeepsMembers(PollReports(n), r);
    PollReportsByGpu(n, p.gpu);
    ReportsFollowTheRules(p, r);
  }

  /** A link is reported down exactly when its GPU, not lost, has it down and no GPU of the node is in
      MIG mode. */
  lemma LinksAreDownOutsideMig(n: NodePoll, gpu: nat, link: nat)
    requires WellSized(n.samples) && gpu < |n.samples| && !n.samples[gpu].lost
    ensures Coded(gpu, 14, true, Link(link)) in PollReports(n) <==>
            link in n.samples[gpu].linksDown && forall i :: 0 <= i < |n.samples| ==> !n.samples[i].mig
  {
    hide PollReports, GpuReports;
    PollFollowsTheRules(n, PollAt(n, gpu), Coded(gpu, 14, true, Link(link)));
  }

  /** Whatever the driver answered, every Fatal of a poll is justified by one of those answers: the
      GPU is lost, or the reading the code is about was observed. */
  lemma PollFatalsAreJustified(n: NodePoll, devices: seq<Device>, hasUnrepairable: bool, validate: bool, r: Report)
    requires ReadBy(n.samples, devices, hasUnrepairable, validate) && WellSized(n.samples)
    ensures r in PollReports(n) ==>
              && r.gpu < |devices|
              && (r.LostGpu? <==> AnswersLost(devices[r.gpu], hasUnrepairable, validate))
              && (r.Coded? && r.fatal ==> devices[r.gpu].handle.Success? && RestsOnAReading(PollAt(n, r.gpu), r))
  {
    hide PollReports, GpuReports, About, AnswersLost, IsReadingOf, WellRead, RestsOnAReading, AnyMig;
    AboutKeepsMembers(PollReports(n), r);
    PollReportsByGpu(n, r.gpu);
    if r in PollReports(n) {
      ReadingsAreWellRead(n.samples[r.gpu], devices[r.gpu], hasUnrepairable, validate);
      FatalsAreJustified(PollAt(n, r.gpu), r);
      if r.Coded? && r.fatal {
        ReadingNeedsAHandle(PollAt(n, r.gpu), devices[r.gpu], hasUnrepairable, validate, r);
      }
    }
  }

  lemma ReadingNeedsAHandle(p: GpuPoll, dev: Device, hasUnrepairable: bool, validate: bool, r: Report)
    requires IsReadingOf(p.s, dev, hasUnrepairable, validate) && |p.s.fields| == NUM_FIELDS && !p.s.lost
    requires r.Coded? && RestsOnAReading(p, r)
    ensures dev.handle.Success?
  {
    hide AnswersLost, ReadFrom;
  }

  // ---------------------------------------------------------------------------
  // Growth over whole runs
  // ---------------------------------------------------------------------------

  /** The growth of one error counter that a poll's reports add up to. */
  function ReportedGrowth(out: seq<Report>, gpu: nat, field: nat): int {
    if out == [] then 0
    else
      var r := out[|out| - 1];
      ReportedGrowth(out[..|out| - 1], gpu, field) + GrowthIn(r, gpu, field)
  }

  function GrowthIn(r: Report, gpu: nat, field: nat): int {
    if r.Coded? && r.gpu == gpu && r.detail.Grew? && r.detail.field == field then r.detail.growth else 0
  }

  lemma {:induction false} GrowthOfBoth(a: seq<Report>, b: seq<Report>, gpu: nat, field: nat)
    ensures ReportedGrowth(a + b, gpu, field) == ReportedGrowth(a, gpu, field) + ReportedGrowth(b, gpu, field)
    decreases |b|
  {
    if b == [] {
      assert a + b == a;
    } else {
      var n := |b| - 1;
      GrowthOfBoth(a, b[..n], gpu, field);
      assert (a + b)[..|a + b| - 1] == a + b[..n];
    }
  }

  lemma {:induction false} NoGrowth(out: seq<Report>, gpu: nat, field: nat)
    requires forall r :: r in out ==> GrowthIn(r, gpu, field) == 0
    ensures ReportedGrowth(out, gpu, field) == 0
  {
    if out != [] {
      var n := |out| - 1;
      assert out[n] in out && forall r :: r in out[..n] ==> r in out;
      NoGrowth(out[..n], gpu, field);
    }
  }

  lemma {:induction false} GrowthOfCounters(p: GpuPoll, before: nat, field: nat)
    requires |p.s.fields| == NUM_FIELDS && FIRST_NVLINK_COUNTER <= before <= NVLINK_ECC_ERRORS + 1
    requires FIRST_NVLINK_COUNTER <= field <= NVLINK_ECC_ERRORS
    ensures ReportedGrowth(GrowthReports(p, before), p.gpu, field) == if field < before then Or0(GrowthOf(p, field)) else 0
    decreases before
  {
    hide GrowthOf;
    if before > FIRST_NVLINK_COUNTER {
      GrowthOfCounters(p, before - 1, field);
      var n := Or0(GrowthOf(p, before - 1));
      var last := Failed(p, 71, Grew(before - 1, n), n > 0);
      GrowthOfBoth(GrowthReports(p, before - 1), last, p.gpu, field);
      assert n > 0 ==> last[..0] == [];
      assert ReportedGrowth(last, p.gpu, field) == if before - 1 == field then n else 0;
    }
  }

  ghost predicate NameNoGrowth(out: seq<Report>) {
    forall r :: r in out ==> r.Coded? && !r.detail.Grew?
  }

  lemma WarningsNameNoGrowth(p: GpuPoll, code: int)
    requires |p.s.fields| == NUM_FIELDS
    ensures NameNoGrowth(Warned(p, code))
  {
  }

  /** Only the growth reports say by how much a counter grew. */
  lemma OthersNameNoGrowth(p: GpuPoll, field: nat)
    requires |p.s.fields| == NUM_FIELDS
    ensures ReportedGrowth(MemoryReports(p) + ClockReports(p), p.gpu, field) == 0
    ensures ReportedGrowth(DownReports(p), p.gpu, field) == 0
    ensures ReportedGrowth(LaterReports(p), p.gpu, field) == 0
  {
    hide Warned, ReportedGrowth, BerParts, EffectiveBerExceeded, SymbolBerExceeded, FloorOf, Retired, ActionOf, IsBlackwell;
    forall code {
      WarningsNameNoGrowth(p, code);
    }
    assert NameNoGrowth(RecoveryReports(p)) && NameNoGrowth(RepairReports(p)) && NameNoGrowth(StatusReports(p));
    NoGrowth(MemoryReports(p) + ClockReports(p), p.gpu, field);
    NoGrowth(DownReports(p), p.gpu, field);
    NoGrowth(LaterReports(p), p.gpu, field);
  }

  lemma GrowthOfGpu(p: GpuPoll, field: nat)
    requires |p.s.fields| == NUM_FIELDS && FIRST_NVLINK_COUNTER <= field <= NVLINK_ECC_ERRORS
    ensures ReportedGrowth(GpuReports(p), p.gpu, field) == if p.s.lost then 0 else Or0(GrowthOf(p, field))
  {
    if p.s.lost {
      NoGrowth(GpuReports(p), p.gpu, field);
    } else {
      GrowthOfCounters(p, NVLINK_ECC_ERRORS + 1, field);
      OthersNameNoGrowth(p, field);
      hide MemoryReports, ClockReports, DownReports, GrowthReports, LaterReports, ReportedGrowth, GrowthOf;
      var early, links := MemoryReports(p) + ClockReports(p), LinkReports(p);
      GrowthOfBoth(DownReports(p), GrowthReports(p, NVLINK_ECC_ERRORS + 1), p.gpu, field);
      GrowthOfBoth(early, links, p.gpu, field);
      GrowthOfBoth(early + links, LaterReports(p), p.gpu, field);
    }
  }

  lemma {:induction false} GrowthAbout(out: seq<Report>, gpu: nat, field: nat)
    ensures ReportedGrowth(out, gpu, field) == ReportedGrowth(About(out, gpu), gpu, field)
  {
    if out != [] {
      var n := |out| - 1;
      GrowthAbout(out[..n], gpu, field);
      var last := if out[n].gpu == gpu then [out[n]] else [];
      GrowthOfBoth(About(out[..n], gpu), last, gpu, field);
      assert last != [] ==> last[..0] == [];
      assert ReportedGrowth(last, gpu, field) == GrowthIn(out[n], gpu, field);
    }
  }

  /** All the growth of one error counter the run reports. */
  ghost function TotalReported(run: seq<NodePoll>, gpu: nat, field: nat): int
    requires AllSized(SamplesOf(run))
  {
    if run == [] then 0
    else
      var before, n := run[..|run| - 1], run[|run| - 1];
      assert SamplesOf(run)[|run| - 1] == n.samples;
      assert forall i :: 0 <= i < |before| ==> SamplesOf(before)[i] == SamplesOf(run)[i];
      TotalReported(before, gpu, field) + ReportedGrowth(PollReports(n), gpu, field)
  }

  lemma NothingAboutNothingGrown(gpu: nat, field: nat)
    ensures ReportedGrowth([], gpu, field) == 0
  {
  }

  lemma PollReportsItsGrowth(run: seq<NodePoll>, n: NodePoll, key: CounterKey)
    requires AllSized(SamplesOf(run)) && WellSized(n.samples) && Recorded(SamplesOf(run), n.base)
    requires FIRST_NVLINK_COUNTER <= key.field <= NVLINK_ECC_ERRORS
    ensures var polls, p := PollsOf(SamplesOf(run), key), PollOf(n.samples, key);
            ReportedGrowth(PollReports(n), key.gpu, key.field) ==
            TotalGrowth(polls + [p]) - TotalGrowth(polls)
  {
    hide GpuReports, PollReports, ReportedGrowth, About, AnyMig;
    var polls, p := PollsOf(SamplesOf(run), key), PollOf(n.samples, key);
    PrefixOfExtension(polls, p);
    assert Held(n.base, key) == Baseline(polls);
    GrowthAbout(PollReports(n), key.gpu, key.field);
    PollReportsByGpu(n, key.gpu);
    NothingAboutNothingGrown(key.gpu, key.field);
    if key.gpu < |n.samples| {
      GrowthOfGpu(PollAt(n, key.gpu), key.field);
      assert GrowthOf(PollAt(n, key.gpu), key.field) == Growth(Baseline(polls), n.samples[key.gpu].fields[key.field]);
    }
  }

  lemma {:induction false} ReportsAddUpToTheGrowth(run: seq<NodePoll>, key: CounterKey)
    requires IsRun(run) && FIRST_NVLINK_COUNTER <= key.field <= NVLINK_ECC_ERRORS
    ensures TotalReported(run, key.gpu, key.field) == TotalGrowth(PollsOf(SamplesOf(run), key))
  {
    hide PollReports, ReportedGrowth, TotalGrowth, PollOf, Recorded, WellSized;
    if run != [] {
      var last := |run| - 1;
      var before, n := run[..last], run[last];
      RunPrefix(run);
      ReportsAddUpToTheGrowth(before, key);
      assert SamplesOf(run)[last] == n.samples;
      assert StartsFrom(run, last);
      PollReportsItsGrowth(before, n, key);
      assert PollsOf(SamplesOf(run), key) == PollsOf(SamplesOf(before), key) + [PollOf(n.samples, key)];
    } else {
      assert PollsOf(SamplesOf(run), key) == [];
      NothingReadNothingGrown([]);
    }
  }

  lemma RunPrefix(run: seq<NodePoll>)
    requires IsRun(run) && run != []
    ensures IsRun(run[..|run| - 1])
  {
    var before := run[..|run| - 1];
    forall i | 0 <= i < |before|
      ensures WellSized(SamplesOf(before)[i]) && StartsFrom(before, i)
    {
      assert SamplesOf(before)[i] == SamplesOf(run)[i];
      assert before[..i] == run[..i];
      assert StartsFrom(run, i);
    }
  }

  /** Over a run in which an error counter's GPU is never lost and the counter is observed whenever
      the GPU is read, the growth reported, less the drops, is the last reading less the first. */
  lemma ReportedGrowthIsConserved(run: seq<NodePoll>, key: CounterKey, i: nat, j: nat)
    requires IsRun(run) && FIRST_NVLINK_COUNTER <= key.field <= NVLINK_ECC_ERRORS
    requires var polls := PollsOf(SamplesOf(run), key);
             AlwaysObserved(polls) && IsFirstRead(polls, i) && IsLastRead(polls, j)
    ensures var polls := PollsOf(SamplesOf(run), key);
            TotalReported(run, key.gpu, key.field) - TotalDrop(polls) == polls[j].r.value - polls[i].r.value
  {
    ReportsAddUpToTheGrowth(run, key);
    GrowthIsConserved(PollsOf(SamplesOf(run), key), i, j);
  }

  lemma GrowthRule(p: GpuPoll, field: nat, amount: int)
    requires |p.s.fields| == NUM_FIELDS && !p.s.lost && FIRST_NVLINK_COUNTER <= field <= NVLINK_ECC_ERRORS
    ensures Coded(p.gpu, 71, true, Grew(field, amount)) in GpuReports(p) <==> GrowthOf(p, field) == Some(amount) && amount > 0
  {
    hide GpuReports, GrowthOf;
    ReportsFollowTheRules(p, Coded(p.gpu, 71, true, Grew(field, amount)));
  }

  predicate RoseBy(p: Poll, r: Reading, amount: int) {
    p.Read? && p.r.ok && r.value - p.r.value == amount
  }

  /** A counter reports in a poll exactly when it and the last poll that did anything about it both
      observed it, and it rose between them; the amount is how much it rose. */
  lemma CounterReportsItsRise(run: seq<NodePoll>, n: NodePoll, key: CounterKey, amount: int)
    requires AllSized(SamplesOf(run)) && WellSized(n.samples) && Recorded(SamplesOf(run), n.base)
    requires FIRST_NVLINK_COUNTER <= key.field <= NVLINK_ECC_ERRORS && key.gpu < |n.samples| && !n.samples[key.gpu].lost
    ensures var polls, r := PollsOf(SamplesOf(run), key), n.samples[key.gpu].fields[key.field];
            Coded(key.gpu, 71, true, Grew(key.field, amount)) in PollReports(n) <==>
            amount > 0 && r.ok && exists i :: IsLastEvent(polls, i) && RoseBy(polls[i], r, amount)
  {
    hide PollReports, GpuReports, Rule, About, AnyMig, Baseline, PollOf, IsLastEvent;
    var polls, r := PollsOf(SamplesOf(run), key), n.samples[key.gpu].fields[key.field];
    var p, report := PollAt(n, key.gpu), Coded(key.gpu, 71, true, Grew(key.field, amount));
    AboutKeepsMembers(PollReports(n), report);
    PollReportsByGpu(n, key.gpu);
    GrowthRule(p, key.field, amount);
    assert Held(n.base, key) == Baseline(polls);
    assert report in PollReports(n) <==> GrowthOf(p, key.field) == Some(amount) && amount > 0;
    BaselineIsLastReading(polls);
    GrowthNeedsTwoReadings(polls, r);
  }

  // ---------------------------------------------------------------------------
  // Warnings over whole runs
  // ---------------------------------------------------------------------------

  /** What a poll says about one warning's level. */
  function LevelEvent(n: NodePoll, gpu: nat, code: int): Event<()>
    requires WellSized(n.samples)
  {
    if gpu >= |n.samples| || n.samples[gpu].lost then Unrelated
    else
      var level := LevelOf(PollAt(n, gpu), code);
      if !level.observed then Unrelated else if level.over then Seen((), n.now) else Healthy
  }

  function LevelEvents(run: seq<NodePoll>, gpu: nat, code: int): (events: seq<Event<()>>)
    requires AllSized(SamplesOf(run))
    ensures |events| == |run|
    ensures forall k :: 0 <= k < |run| ==> WellSized(run[k].samples) && events[k] == LevelEvent(run[k], gpu, code)
  {
    assert forall k :: 0 <= k < |run| ==> SamplesOf(run)[k] == run[k].samples;
    seq(|run|, k requires 0 <= k < |run| => LevelEvent(run[k], gpu, code))
  }

  /** A poll reports a warning about a GPU. */
  ghost predicate WarnsAbout(n: NodePoll, gpu: nat, code: int)
    requires WellSized(n.samples)
  {
    exists d :: Coded(gpu, code, false, d) in PollReports(n)
  }

  lemma {:induction false} TrackerIsTheLastNotice(run: seq<NodePoll>, k: nat, gpu: nat, code: int)
    requires IsRun(run) && k < |run| && 0 <= Rank(code)
    ensures HeldFor(run[k].tracked, KeyOf(gpu, code)) == LastNotice(WARNING_RENOTIFY_INTERVAL, LevelEvents(run, gpu, code)[..k])
    decreases k
  {
    hide LevelOf, NoticedUpTo, Rank, AnyMig, Recorded;
    var events := LevelEvents(run, gpu, code);
    assert StartsFrom(run, k);
    if k > 0 {
      TrackerIsTheLastNotice(run, k - 1, gpu, code);
      LastNoticeStep(WARNING_RENOTIFY_INTERVAL, events[..k - 1], events[k - 1]);
      assert events[..k] == events[..k - 1] + [events[k - 1]];
      NoticedNext(run[k - 1], run[k].tracked, gpu, code);
    }
  }

  lemma NoticedNext(n: NodePoll, after: map<LevelKey, int>, gpu: nat, code: int)
    requires WellSized(n.samples) && NoticedUpTo(n, |n.samples|, after) && 0 <= Rank(code)
    ensures HeldFor(after, KeyOf(gpu, code)) ==
            match LevelEvent(n, gpu, code)
            case Unrelated => HeldFor(n.tracked, KeyOf(gpu, code))
            case Healthy => None
            case Seen(_, at) =>
              if Due(HeldFor(n.tracked, KeyOf(gpu, code)), WARNING_RENOTIFY_INTERVAL, (), at) then Some(Notice((), at))
              else HeldFor(n.tracked, KeyOf(gpu, code))
  {
    hide LevelOf, Rank, AnyMig;
    assert HeldFor(after, KeyOf(gpu, code)) == NoticedAt(n, |n.samples|, KeyOf(gpu, code));
  }

  lemma WarnsIffDue(n: NodePoll, gpu: nat, code: int)
    requires WellSized(n.samples) && code in WARNING_CODES
    ensures WarnsAbout(n, gpu, code) <==>
            LevelEvent(n, gpu, code).Seen? && Due(HeldFor(n.tracked, KeyOf(gpu, code)), WARNING_RENOTIFY_INTERVAL, (), n.now)
  {
    hide PollReports, GpuReports, LevelOf, About, AnyMig;
    PollReportsByGpu(n, gpu);
    forall d: Detail
      ensures Coded(gpu, code, false, d) in PollReports(n) <==> Coded(gpu, code, false, d) in About(PollReports(n), gpu)
    {
      AboutKeepsMembers(PollReports(n), Coded(gpu, code, false, d));
    }
    if gpu < |n.samples| && !n.samples[gpu].lost {
      var p := PollAt(n, gpu);
      forall d: Detail
        ensures Coded(gpu, code, false, d) in GpuReports(p) <==> Rule(p, Coded(gpu, code, false, d))
      {
        ReportsFollowTheRules(p, Coded(gpu, code, false, d));
      }
      forall d: Detail
        ensures Rule(p, Coded(gpu, code, false, d)) <==> Warns(p, code, LevelOf(p, code)) && d == LevelOf(p, code).detail
      {
        WarnedIsExact(p, code, Coded(gpu, code, false, d));
      }
      assert Rule(p, Coded(gpu, code, false, LevelOf(p, code).detail)) == Warns(p, code, LevelOf(p, code));
      assert IsDue(n.tracked, KeyOf(gpu, code), n.now) ==
             Due(HeldFor(n.tracked, KeyOf(gpu, code)), WARNING_RENOTIFY_INTERVAL, (), n.now);
    }
  }

  /** A poll of a run reports a warning exactly when the run so far makes its level due. */
  lemma WarningIsItsNotice(run: seq<NodePoll>, k: nat, gpu: nat, code: int)
    requires IsRun(run) && k < |run| && code in WARNING_CODES
    ensures WellSized(run[k].samples)
    ensures WarnsAbout(run[k], gpu, code) <==> Notifies(WARNING_RENOTIFY_INTERVAL, LevelEvents(run, gpu, code), k)
  {
    var events := LevelEvents(run, gpu, code);
    assert WellSized(run[k].samples) && events[k] == LevelEvent(run[k], gpu, code);
    TrackerIsTheLastNotice(run, k, gpu, code);
    WarnsIffDue(run[k], gpu, code);
  }

  /** Over any run, two warnings of one code about one GPU with no clean reading between are at
      least the interval apart. */
  lemma WarningsAreSpaced(run: seq<NodePoll>, i: nat, j: nat, gpu: nat, code: int)
    requires IsRun(run) && i < j < |run| && code in WARNING_CODES
    requires WellSized(run[i].samples) && WellSized(run[j].samples)
    requires WarnsAbout(run[i], gpu, code) && WarnsAbout(run[j], gpu, code)
    requires NoneHealthy(LevelEvents(run, gpu, code), i, j)
    ensures run[j].now - run[i].now >= WARNING_RENOTIFY_INTERVAL
  {
    hide WarnsAbout, LevelEvent, IsRun;
    WarningIsItsNotice(run, i, gpu, code);
    WarningIsItsNotice(run, j, gpu, code);
    var events := LevelEvents(run, gpu, code);
    assert forall k :: 0 <= k < |events| && events[k].Seen? ==> events[k].key == ();
    NoticesAreSpaced(WARNING_RENOTIFY_INTERVAL, events, i, j);
    SeenAt(run, i, gpu, code);
    SeenAt(run, j, gpu, code);
  }

  lemma SeenAt(run: seq<NodePoll>, k: nat, gpu: nat, code: int)
    requires AllSized(SamplesOf(run)) && k < |run|
    ensures LevelEvents(run, gpu, code)[k].Seen? ==> LevelEvents(run, gpu, code)[k].at == run[k].now
  {
  }

  /** The first violation observed after a clean reading warns at once. */
  lemma FirstViolationWarns(run: seq<NodePoll>, i: nat, j: nat, gpu: nat, code: int)
    requires IsRun(run) && i < j < |run| && code in WARNING_CODES
    requires LevelEvents(run, gpu, code)[i].Healthy? && LevelEvents(run, gpu, code)[j].Seen?
    requires forall k :: i < k < j ==> LevelEvents(run, gpu, code)[k].Unrelated?
    ensures WellSized(run[j].samples) && WarnsAbout(run[j], gpu, code)
  {
    hide WarnsAbout, LevelEvent;
    WarningIsItsNotice(run, j, gpu, code);
    FirstAfterHealthyNotifies(WARNING_RENOTIFY_INTERVAL, LevelEvents(run, gpu, code), i, j);
  }
}
