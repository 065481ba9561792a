/** The health check: one poll of every GPU, and the state it keeps between polls. */
module Health {
  import opened Monitor
  import opened Renotify
  import opened Counters
  import opened LevelReports
  import opened ReturnCodes
  import opened DriverReads
  import opened HealthReader
  import opened HealthRules
  import opened Ber

  const INFOROM_INTERVAL := 3_600_000_000_000  // an hour, in nanoseconds

  /** The fields that are compared with the previous poll's. */
  predicate IsRate(field: int) {
    THERMAL_VIOLATION <= field <= POWER_VIOLATION || FIRST_NVLINK_COUNTER <= field <= NVLINK_ECC_ERRORS
  }

  // ---------------------------------------------------------------------------
  // A poll of every GPU
  // ---------------------------------------------------------------------------

  /** Everything a poll decides on: the readings, the InfoROM results held since the last
      validation, and what earlier polls left. */
  datatype NodePoll = NodePoll(
    samples: seq<GpuHealth>,
    inforom: seq<Reading>,
    base: Baselines,
    tracked: map<LevelKey, int>,
    now: int)

  predicate AnyMig(samples: seq<GpuHealth>) {
    exists i :: 0 <= i < |samples| && samples[i].mig
  }

  function PollAt(n: NodePoll, i: nat): GpuPoll
    requires i < |n.samples|
  {
    var inforom := if i < |n.inforom| then n.inforom[i] else UNREAD;
    GpuPoll(i, n.samples[i], AnyMig(n.samples), inforom, n.base, n.tracked, n.now)
  }

  ghost predicate WellSized(samples: seq<GpuHealth>) {
    forall i :: 0 <= i < |samples| ==> |samples[i].fields| == NUM_FIELDS
  }

  /** The reports about the first k GPUs, GPU by GPU. */
  function ReportsUpTo(n: NodePoll, k: nat): seq<Report>
    requires k <= |n.samples| && WellSized(n.samples)
  {
    if k == 0 then [] else ReportsUpTo(n, k - 1) + GpuReports(PollAt(n, k - 1))
  }

  function PollReports(n: NodePoll): seq<Report>
    requires WellSized(n.samples)
  {
    ReportsUpTo(n, |n.samples|)
  }

  /** What one poll does about one counter. */
  function PollOf(samples: seq<GpuHealth>, key: CounterKey): Poll
    requires WellSized(samples)
  {
    if key.gpu >= |samples| then Skipped
    else if samples[key.gpu].lost then Lost
    else if IsRate(key.field) then Read(samples[key.gpu].fields[key.field])
    else Skipped
  }

  function AtGpu(p: GpuPoll, lo: nat, hi: nat, key: CounterKey, before: Baselines): Option<u64>
    requires hi <= |p.s.fields|
  {
    if key.gpu == p.gpu && lo <= key.field < hi then Advance(None, Read(p.s.fields[key.field])) else Held(before, key)
  }

  /** The GPU's counters in a range of fields were read, and no other baseline changed. */
  ghost predicate CountersRead(p: GpuPoll, lo: nat, hi: nat, before: Baselines, after: Baselines)
    requires hi <= |p.s.fields|
  {
    forall key :: Held(after, key) == AtGpu(p, lo, hi, key, before)
  }

  const LEVELS := 8

  /** The place of each warning code in the order the levels are taken. */
  function Rank(code: int): int {
    match code
    case 6 => 0
    case 10 => 1
    case 12 => 2
    case 71 => 3
    case 132 => 4
    case 9 => 5
    case 11 => 6
    case 127 => 7
    case _ => -1
  }

  predicate IsLevel(gpu: nat, lo: nat, hi: nat, key: LevelKey) {
    key.gpu == gpu && key.signal.HealthCode? && lo <= Rank(key.signal.code) < hi
  }

  function LevelAt(p: GpuPoll, lo: nat, hi: nat, key: LevelKey, before: map<LevelKey, int>): Option<Notice<()>>
    requires |p.s.fields| == NUM_FIELDS
  {
    if IsLevel(p.gpu, lo, hi, key) then
      var level := LevelOf(p, key.signal.code);
      NextNotice(HeldFor(p.tracked, key), level.observed, level.over, p.now)
    else HeldFor(before, key)
  }

  /** The GPU's levels in a range of ranks were taken, and no other tracker changed. */
  ghost predicate LevelsTaken(p: GpuPoll, lo: nat, hi: nat, before: map<LevelKey, int>, after: map<LevelKey, int>)
    requires |p.s.fields| == NUM_FIELDS
  {
    forall key :: HeldFor(after, key) == LevelAt(p, lo, hi, key, before)
  }

  /** The GPU's trackers from a rank on are as they were when the poll began. */
  ghost predicate Untaken(p: GpuPoll, lo: nat, tracked: map<LevelKey, int>) {
    forall code :: lo <= Rank(code) ==> HeldFor(tracked, KeyOf(p.gpu, code)) == HeldFor(p.tracked, KeyOf(p.gpu, code))
  }

  ghost predicate Unread(p: GpuPoll, lo: nat, hi: nat, base: Baselines) {
    forall field :: lo <= field < hi ==> Held(base, CounterKey(p.gpu, field)) == Held(p.base, CounterKey(p.gpu, field))
  }

  lemma TakenTogether(p: GpuPoll, lo: nat, mid: nat, hi: nat, t0: map<LevelKey, int>, t1: map<LevelKey, int>, t2: map<LevelKey, int>)
    requires |p.s.fields| == NUM_FIELDS && lo <= mid <= hi
    requires LevelsTaken(p, lo, mid, t0, t1) && LevelsTaken(p, mid, hi, t1, t2)
    ensures LevelsTaken(p, lo, hi, t0, t2)
  {
    hide LevelOf, NextNotice, HeldFor, Rank;
    forall key
      ensures HeldFor(t2, key) == LevelAt(p, lo, hi, key, t0)
    {
      assert HeldFor(t2, key) == LevelAt(p, mid, hi, key, t1);
      assert HeldFor(t1, key) == LevelAt(p, lo, mid, key, t0);
    }
  }

  lemma StillUntaken(p: GpuPoll, lo: nat, mid: nat, t0: map<LevelKey, int>, t1: map<LevelKey, int>)
    requires |p.s.fields| == NUM_FIELDS && lo <= mid
    requires LevelsTaken(p, lo, mid, t0, t1) && Untaken(p, lo, t0)
    ensures Untaken(p, mid, t1)
  {
    hide LevelOf, NextNotice, HeldFor, Rank;
    forall code | mid <= Rank(code)
      ensures HeldFor(t1, KeyOf(p.gpu, code)) == HeldFor(p.tracked, KeyOf(p.gpu, code))
    {
      assert HeldFor(t1, KeyOf(p.gpu, code)) == LevelAt(p, lo, mid, KeyOf(p.gpu, code), t0);
    }
  }

  /** A level that is not observed changes no tracker. */
  lemma NothingTaken(p: GpuPoll, code: int, tracked: map<LevelKey, int>)
    requires |p.s.fields| == NUM_FIELDS && 0 <= Rank(code) && !LevelOf(p, code).observed
    requires Untaken(p, Rank(code), tracked)
    ensures LevelsTaken(p, Rank(code), Rank(code) + 1, tracked, tracked)
  {
    hide LevelOf;
    forall key
      ensures HeldFor(tracked, key) == LevelAt(p, Rank(code), Rank(code) + 1, key, tracked)
    {
      if IsLevel(p.gpu, Rank(code), Rank(code) + 1, key) {
        assert key == KeyOf(p.gpu, code);
        assert HeldFor(tracked, KeyOf(p.gpu, code)) == HeldFor(p.tracked, KeyOf(p.gpu, code));
      }
    }
  }

  lemma ReadTogether(p: GpuPoll, lo: nat, field: nat, b0: Baselines, b1: Baselines, b2: Baselines)
    requires lo <= field < |p.s.fields|
    requires CountersRead(p, lo, field, b0, b1) && CountersRead(p, field, field + 1, b1, b2)
    ensures CountersRead(p, lo, field + 1, b0, b2)
  {
    hide Held;
    forall key
      ensures Held(b2, key) == AtGpu(p, lo, field + 1, key, b0)
    {
      assert Held(b2, key) == AtGpu(p, field, field + 1, key, b1);
      assert Held(b1, key) == AtGpu(p, lo, field, key, b0);
    }
  }

  lemma StillUnread(p: GpuPoll, field: nat, hi: nat, before: Baselines, after: Baselines)
    requires field < |p.s.fields| && CountersRead(p, field, field + 1, before, after)
    requires Unread(p, field, hi, before)
    ensures Unread(p, field + 1, hi, after)
  {
    hide Held;
    forall f | field + 1 <= f < hi
      ensures Held(after, CounterKey(p.gpu, f)) == Held(p.base, CounterKey(p.gpu, f))
    {
      assert Held(after, CounterKey(p.gpu, f)) == AtGpu(p, field, field + 1, CounterKey(p.gpu, f), before);
    }
  }

  // ---------------------------------------------------------------------------
  // Whole runs of polls
  // ---------------------------------------------------------------------------

  ghost predicate AllSized(history: seq<seq<GpuHealth>>) {
    forall i :: 0 <= i < |history| ==> WellSized(history[i])
  }

  /** The polls so far, as one counter sees them. */
  ghost function PollsOf(history: seq<seq<GpuHealth>>, key: CounterKey): (polls: seq<Poll>)
    requires AllSized(history)
    ensures |polls| == |history| && forall i :: 0 <= i < |polls| ==> polls[i] == PollOf(history[i], key)
  {
    seq(|history|, i requires 0 <= i < |history| => PollOf(history[i], key))
  }

  /** Each baseline is what the polls so far make it. */
  ghost predicate Recorded(history: seq<seq<GpuHealth>>, base: Baselines) {
    AllSized(history) && forall key :: Held(base, key) == Baseline(PollsOf(history, key))
  }

  /** Every counter was advanced by the poll. */
  ghost predicate Advanced(samples: seq<GpuHealth>, before: Baselines, after: Baselines)
    requires WellSized(samples)
  {
    forall key :: Held(after, key) == Advance(Held(before, key), PollOf(samples, key))
  }

  lemma PollRecorded(history: seq<seq<GpuHealth>>, samples: seq<GpuHealth>, before: Baselines, after: Baselines)
    requires Recorded(history, before) && WellSized(samples) && Advanced(samples, before, after)
    ensures Recorded(history + [samples], after)
  {
    forall key
      ensures Held(after, key) == Baseline(PollsOf(history + [samples], key))
    {
      assert PollsOf(history + [samples], key) == PollsOf(history, key) + [PollOf(samples, key)];
      BaselineStep(PollsOf(history, key), PollOf(samples, key));
      assert Held(after, key) == Advance(Held(before, key), PollOf(samples, key));
    }
  }

  // ---------------------------------------------------------------------------
  // One poll's effect, GPU by GPU
  // ---------------------------------------------------------------------------

  function AtRates(p: GpuPoll, key: CounterKey, before: Baselines): Option<u64>
    requires |p.s.fields| == NUM_FIELDS
  {
    if key.gpu == p.gpu && IsRate(key.field) then Advance(None, Read(p.s.fields[key.field])) else Held(before, key)
  }

  /** All the GPU's counters were read, and no other baseline changed. */
  ghost predicate RatesRead(p: GpuPoll, before: Baselines, after: Baselines)
    requires |p.s.fields| == NUM_FIELDS
  {
    forall key :: Held(after, key) == AtRates(p, key, before)
  }

  /** What a poll does about the GPU's counters: a lost GPU has none. */
  ghost predicate GpuRead(p: GpuPoll, before: Baselines, after: Baselines)
    requires |p.s.fields| == NUM_FIELDS
  {
    if p.s.lost then forall key :: Held(after, key) == if key.gpu == p.gpu then None else Held(before, key)
    else RatesRead(p, before, after)
  }

  ghost predicate GpuNoted(p: GpuPoll, before: map<LevelKey, int>, after: map<LevelKey, int>)
    requires |p.s.fields| == NUM_FIELDS
  {
    if p.s.lost then after == before else LevelsTaken(p, 0, LEVELS, before, after)
  }

  lemma RangesAreTheRates(p: GpuPoll, b0: Baselines, b1: Baselines, b2: Baselines)
    requires |p.s.fields| == NUM_FIELDS
    requires CountersRead(p, THERMAL_VIOLATION, POWER_VIOLATION + 1, b0, b1)
    requires CountersRead(p, FIRST_NVLINK_COUNTER, NVLINK_ECC_ERRORS + 1, b1, b2)
    ensures RatesRead(p, b0, b2)
  {
    hide Held;
    forall key
      ensures Held(b2, key) == AtRates(p, key, b0)
    {
      assert Held(b2, key) == AtGpu(p, FIRST_NVLINK_COUNTER, NVLINK_ECC_ERRORS + 1, key, b1);
      assert Held(b1, key) == AtGpu(p, THERMAL_VIOLATION, POWER_VIOLATION + 1, key, b0);
    }
  }

  lemma SlowdownsLeaveTheLinks(p: GpuPoll, b0: Baselines, b1: Baselines)
    requires |p.s.fields| == NUM_FIELDS && Unread(p, 0, NUM_FIELDS, b0)
    requires CountersRead(p, THERMAL_VIOLATION, POWER_VIOLATION + 1, b0, b1)
    ensures Unread(p, FIRST_NVLINK_COUNTER, NVLINK_ECC_ERRORS + 1, b1)
  {
    hide Held;
    forall f | FIRST_NVLINK_COUNTER <= f < NVLINK_ECC_ERRORS + 1
      ensures Held(b1, CounterKey(p.gpu, f)) == Held(p.base, CounterKey(p.gpu, f))
    {
      assert Held(b1, CounterKey(p.gpu, f)) == AtGpu(p, THERMAL_VIOLATION, POWER_VIOLATION + 1, CounterKey(p.gpu, f), b0);
    }
  }

  function AdvancedAt(samples: seq<GpuHealth>, k: nat, key: CounterKey, before: Baselines): Option<u64>
    requires k <= |samples| && WellSized(samples)
  {
    if key.gpu < k then Advance(Held(before, key), PollOf(samples, key)) else Held(before, key)
  }

  /** The counters of the first k GPUs were advanced by the poll. */
  ghost predicate AdvancedUpTo(samples: seq<GpuHealth>, k: nat, before: Baselines, after: Baselines)
    requires k <= |samples| && WellSized(samples)
  {
    forall key :: Held(after, key) == AdvancedAt(samples, k, key, before)
  }

  function NoticedAt(n: NodePoll, k: nat, key: LevelKey): Option<Notice<()>>
    requires k <= |n.samples| && WellSized(n.samples)
  {
    if 0 <= key.gpu < k && !n.samples[key.gpu].lost && key.signal.HealthCode? && 0 <= Rank(key.signal.code) then
      var level := LevelOf(PollAt(n, key.gpu), key.signal.code);
      NextNotice(HeldFor(n.tracked, key), level.observed, level.over, n.now)
    else HeldFor(n.tracked, key)
  }

  /** The warnings of the first k GPUs were taken, except those of lost ones. */
  ghost predicate NoticedUpTo(n: NodePoll, k: nat, after: map<LevelKey, int>)
    requires k <= |n.samples| && WellSized(n.samples)
  {
    forall key :: HeldFor(after, key) == NoticedAt(n, k, key)
  }

  lemma GpuAdvanced(n: NodePoll, i: nat, before: Baselines, after: Baselines)
    requires i < |n.samples| && WellSized(n.samples) && AdvancedUpTo(n.samples, i, n.base, before)
    requires GpuRead(PollAt(n, i), before, after)
    ensures AdvancedUpTo(n.samples, i + 1, n.base, after)
  {
    hide Held;
    forall key
      ensures Held(after, key) == AdvancedAt(n.samples, i + 1, key, n.base)
    {
      assert Held(before, key) == AdvancedAt(n.samples, i, key, n.base);
      if !n.samples[i].lost {
        assert Held(after, key) == AtRates(PollAt(n, i), key, before);
      }
    }
  }

  lemma NotYetAdvanced(n: NodePoll, i: nat, base: Baselines)
    requires i < |n.samples| && WellSized(n.samples) && AdvancedUpTo(n.samples, i, n.base, base)
    ensures Unread(PollAt(n, i), 0, NUM_FIELDS, base)
  {
    hide Held;
    forall f | 0 <= f < NUM_FIELDS
      ensures Held(base, CounterKey(i, f)) == Held(n.base, CounterKey(i, f))
    {
      assert Held(base, CounterKey(i, f)) == AdvancedAt(n.samples, i, CounterKey(i, f), n.base);
    }
  }

  lemma GpuNoticed(n: NodePoll, i: nat, before: map<LevelKey, int>, after: map<LevelKey, int>)
    requires i < |n.samples| && WellSized(n.samples) && NoticedUpTo(n, i, before)
    requires GpuNoted(PollAt(n, i), before, after)
    ensures NoticedUpTo(n, i + 1, after)
  {
    hide HeldFor, LevelOf, NextNotice, AnyMig;
    forall key
      ensures HeldFor(after, key) == NoticedAt(n, i + 1, key)
    {
      assert HeldFor(before, key) == NoticedAt(n, i, key);
      if !n.samples[i].lost {
        assert HeldFor(after, key) == LevelAt(PollAt(n, i), 0, LEVELS, key, before);
      }
    }
  }

  lemma NotYetNoticed(n: NodePoll, i: nat, tracked: map<LevelKey, int>)
    requires i < |n.samples| && WellSized(n.samples) && NoticedUpTo(n, i, tracked)
    ensures Untaken(PollAt(n, i), 0, tracked)
  {
    hide HeldFor, LevelOf, NextNotice, AnyMig;
    forall code | 0 <= Rank(code)
      ensures HeldFor(tracked, KeyOf(i, code)) == HeldFor(n.tracked, KeyOf(i, code))
    {
      assert HeldFor(tracked, KeyOf(i, code)) == NoticedAt(n, i, KeyOf(i, code));
    }
  }

  /** Each GPU's readings are the driver's answers about it. */
  ghost predicate ReadBy(samples: seq<GpuHealth>, devices: seq<Device>, hasUnrepairable: bool, validate: bool) {
    && |samples| == |devices|
    && forall i :: 0 <= i < |samples| ==> IsReadingOf(samples[i], devices[i], hasUnrepairable, validate)
  }

  lemma ReadingsAreSized(samples: seq<GpuHealth>, devices: seq<Device>, hasUnrepairable: bool, validate: bool)
    requires ReadBy(samples, devices, hasUnrepairable, validate)
    ensures WellSized(samples) && forall i :: 0 <= i < |samples| ==> WellRead(samples[i])
  {
    forall i | 0 <= i < |samples|
      ensures WellRead(samples[i])
    {
      ReadingsAreWellRead(samples[i], devices[i], hasUnrepairable, validate);
    }
  }

  lemma MigStep(samples: seq<GpuHealth>, i: nat)
    requires i < |samples|
    ensures AnyMig(samples[..i + 1]) == (AnyMig(samples[..i]) || samples[i].mig)
  {
    assert samples[..i + 1] == samples[..i] + [samples[i]];
    if AnyMig(samples[..i]) {
      var k :| 0 <= k < i && samples[..i][k].mig;
      assert samples[..i + 1][k].mig;
    }
    assert samples[..i + 1][i] == samples[i];
  }

  method SomeGpuInMig(samples: seq<GpuHealth>) returns (any: bool)
    ensures any == AnyMig(samples)
  {
    any := false;
    for i := 0 to |samples|
      invariant any == AnyMig(samples[..i])
    {
      MigStep(samples, i);
      any := any || samples[i].mig;
    }
    assert samples[..|samples|] == samples;
  }

  method ReadAll(devices: seq<Device>, hasUnrepairable: bool, validate: bool) returns (gpus: seq<GpuHealth>)
    ensures ReadBy(gpus, devices, hasUnrepairable, validate)
  {
    hide IsReadingOf;
    gpus := [];
    for i := 0 to |devices|
      invariant ReadBy(gpus, devices[..i], hasUnrepairable, validate)
    {
      var g := ReadGpuHealth(devices[i], hasUnrepairable, validate);
      gpus := gpus + [g];
    }
    assert devices[..|devices|] == devices;
  }

  lemma NothingAdvanced(n: NodePoll)
    requires WellSized(n.samples)
    ensures AdvancedUpTo(n.samples, 0, n.base, n.base) && NoticedUpTo(n, 0, n.tracked)
  {
  }

  lemma AllAdvanced(samples: seq<GpuHealth>, before: Baselines, after: Baselines)
    requires WellSized(samples) && AdvancedUpTo(samples, |samples|, before, after)
    ensures Advanced(samples, before, after)
  {
    hide Held;
    forall key
      ensures Held(after, key) == Advance(Held(before, key), PollOf(samples, key))
    {
      assert Held(after, key) == AdvancedAt(samples, |samples|, key, before);
    }
  }

  function InforomResults(samples: seq<GpuHealth>): (results: seq<Reading>)
    ensures |results| == |samples| && forall i :: 0 <= i < |results| ==> results[i] == samples[i].inforom
  {
    seq(|samples|, i requires 0 <= i < |samples| => samples[i].inforom)
  }

  function SamplesOf(run: seq<NodePoll>): (history: seq<seq<GpuHealth>>)
    ensures |history| == |run| && forall i :: 0 <= i < |run| ==> history[i] == run[i].samples
  {
    seq(|run|, i requires 0 <= i < |run| => run[i].samples)
  }

  /** A run of polls that read the GPUs: each starts from the baselines and the trackers that the ones
      before it left, the first from none. */
  ghost predicate IsRun(run: seq<NodePoll>) {
    && AllSized(SamplesOf(run))
    && forall k :: 0 <= k < |run| ==> StartsFrom(run, k)
  }

  ghost predicate StartsFrom(run: seq<NodePoll>, k: nat)
    requires k < |run|
  {
    Leaves(run[..k], run[k].base, run[k].tracked)
  }

  /** What a run leaves for the next poll. */
  ghost predicate Leaves(run: seq<NodePoll>, base: Baselines, tracked: map<LevelKey, int>) {
    && Recorded(SamplesOf(run), base)
    && if run == [] then tracked == map[]
       else
         var last := run[|run| - 1];
         WellSized(last.samples) && NoticedUpTo(last, |last.samples|, tracked)
  }

  lemma RunStep(run: seq<NodePoll>, n: NodePoll, base: Baselines, tracked: map<LevelKey, int>)
    requires IsRun(run) && Leaves(run, n.base, n.tracked)
    requires WellSized(n.samples) && NoticedUpTo(n, |n.samples|, tracked) && Advanced(n.samples, n.base, base)
    ensures IsRun(run + [n]) && Leaves(run + [n], base, tracked)
  {
    hide Recorded, NoticedUpTo, WellSized, Advanced;
    assert SamplesOf(run + [n]) == SamplesOf(run) + [n.samples];
    PollRecorded(SamplesOf(run), n.samples, n.base, base);
    AllSizedStep(SamplesOf(run), n.samples);
    forall k | 0 <= k < |run + [n]|
      ensures StartsFrom(run + [n], k)
    {
      assert (run + [n])[..k] == run[..k];
      assert k < |run| ==> StartsFrom(run, k);
    }
  }

  lemma AllSizedStep(history: seq<seq<GpuHealth>>, samples: seq<GpuHealth>)
    requires AllSized(history) && WellSized(samples)
    ensures AllSized(history + [samples])
  {
  }

  class Health {
    var baselines: Baselines
    const notified: LevelTrackers
    var inforomAt: Option<int>
    var inforom: seq<Reading>
    ghost var run: seq<NodePoll>  // every poll that read the GPUs, and what it started from

    ghost predicate Valid()
      reads this, notified
    {
      notified.Valid() && IsRun(run) && Leaves(run, baselines, notified.tracked)
    }

    constructor ()
      ensures Valid() && fresh(notified) && run == [] && inforomAt == None
      ensures baselines == map[] && notified.tracked == map[]
    {
      baselines, inforomAt, inforom := map[], None, [];
      notified := new LevelTrackers();
      run := [];
    }

    /** Records a reading as its counter's baseline and returns how much the counter grew. */
    method CounterGrew(key: CounterKey, r: Reading) returns (n: u64, observed: bool)
      modifies this`baselines
      ensures observed == Growth(Held(old(baselines), key), r).Some? && n == Or0(Growth(Held(old(baselines), key), r))
      ensures baselines == if r.ok then old(baselines)[key := r.value] else old(baselines) - {key}
    {
      var had, prev := key in baselines, if key in baselines then baselines[key] else 0;
      if !r.ok {
        baselines := baselines - {key};
        return 0, false;
      }
      baselines := baselines[key := r.value];
      if !had {
        return 0, false;
      }
      if r.value < prev {
        return 0, true;
      }
      return r.value - prev, true;
    }

    /** Reads one of the GPU's counters. */
    method GrowthSince(p: GpuPoll, field: nat) returns (n: u64, observed: bool)
      requires field < |p.s.fields| && Unread(p, field, field + 1, baselines)
      modifies this`baselines
      ensures observed == GrowthOf(p, field).Some? && n == Or0(GrowthOf(p, field))
      ensures CountersRead(p, field, field + 1, old(baselines), baselines)
    {
      assert Held(baselines, CounterKey(p.gpu, field)) == Held(p.base, CounterKey(p.gpu, field));
      n, observed := CounterGrew(CounterKey(p.gpu, field), p.s.fields[field]);
    }

    method ClearBaselines(gpu: nat)
      modifies this`baselines
      ensures forall key :: Held(baselines, key) == if key.gpu == gpu then None else Held(old(baselines), key)
    {
      var keys := baselines.Keys;
      ghost var was := baselines;
      while keys != {}
        invariant keys <= was.Keys
        invariant forall key :: Held(baselines, key) ==
                    if key.gpu == gpu && key !in keys then None else Held(was, key)
        decreases |keys|
      {
        var key :| key in keys;
        if key.gpu == gpu {
          baselines := baselines - {key};
        }
        keys := keys - {key};
      }
    }

    /** Reports a warning when its level is due. */
    method Warn(p: GpuPoll, code: int, observed: bool, over: bool, detail: Detail) returns (out: seq<Report>)
      requires |p.s.fields| == NUM_FIELDS && Level(observed, over, detail) == LevelOf(p, code)
      requires notified.Valid() && 0 <= Rank(code) && Untaken(p, Rank(code), notified.tracked)
      modifies notified
      ensures notified.Valid() && LevelsTaken(p, Rank(code), Rank(code) + 1, old(notified.tracked), notified.tracked)
      ensures out == Warned(p, code)
    {
      hide LevelOf;
      assert HeldFor(notified.tracked, KeyOf(p.gpu, code)) == HeldFor(p.tracked, KeyOf(p.gpu, code));
      var due := notified.Report(p.now, KeyOf(p.gpu, code), observed, over);
      out := if due then [Coded(p.gpu, code, false, detail)] else [];
    }

    method CheckMemory(p: GpuPoll) returns (out: seq<Report>)
      requires |p.s.fields| == NUM_FIELDS && notified.Valid() && Untaken(p, 0, notified.tracked)
      modifies notified
      ensures notified.Valid() && LevelsTaken(p, 0, 1, old(notified.tracked), notified.tracked)
      ensures out == MemoryReports(p)
    {
      hide LevelsTaken, Untaken, Warned;
      out := [];
      var dbe := p.s.fields[DBE_VOLATILE];
      if dbe.ok && dbe.value > 0 {
        out := out + [Coded(p.gpu, 4, true, Amount(dbe.value))];
      }
      var pending := p.s.fields[RETIRED_PENDING];
      var warned := Warn(p, 6, pending.ok, pending.value != 0, Plain);
      out := out + warned;
      var sbe, retired := p.s.fields[RETIRED_SBE], p.s.fields[RETIRED_DBE];
      var total := (sbe.value + retired.value) % U64;
      if total >= MAX_RETIRED_TOTAL {
        out := out + [Coded(p.gpu, 7, true, Amount(total))];
      } else if retired.ok && retired.value > MAX_RETIRED_DBE {
        out := out + [Coded(p.gpu, 8, true, Amount(retired.value))];
      }
    }

    method CheckClocks(p: GpuPoll) returns (out: seq<Report>)
      requires |p.s.fields| == NUM_FIELDS && notified.Valid() && Untaken(p, 1, notified.tracked)
      requires Unread(p, THERMAL_VIOLATION, POWER_VIOLATION + 1, baselines)
      modifies this`baselines, notified
      ensures notified.Valid() && LevelsTaken(p, 1, 3, old(notified.tracked), notified.tracked)
      ensures CountersRead(p, THERMAL_VIOLATION, POWER_VIOLATION + 1, old(baselines), baselines)
      ensures out == ClockReports(p)
    {
      var thermal, thermalObserved := GrowthSince(p, THERMAL_VIOLATION);
      var warned := Warn(p, 10, thermalObserved, thermal > 0, Amount(thermal));
      ghost var between := notified.tracked;
      StillUntaken(p, 1, 2, old(notified.tracked), between);
      var power, powerObserved := GrowthSince(p, POWER_VIOLATION);
      var warnedPower := Warn(p, 12, powerObserved, power > 0, Amount(power));
      TakenTogether(p, 1, 2, 3, old(notified.tracked), between, notified.tracked);
      return warned + warnedPower;
    }

    method CheckDown(p: GpuPoll) returns (out: seq<Report>)
      ensures out == DownReports(p)
    {
      out := [];
      if !p.anyMig {
        for k := 0 to |p.s.linksDown|
          invariant out == DownReports(p)[..k]
        {
          out := out + [Coded(p.gpu, 14, true, Link(p.s.linksDown[k]))];
        }
      }
    }

    /** Every error counter that grew. Every counter is read. */
    method CheckCounters(p: GpuPoll) returns (out: seq<Report>)
      requires |p.s.fields| == NUM_FIELDS
      requires Unread(p, FIRST_NVLINK_COUNTER, NVLINK_ECC_ERRORS + 1, baselines)
      modifies this`baselines
      ensures CountersRead(p, FIRST_NVLINK_COUNTER, NVLINK_ECC_ERRORS + 1, old(baselines), baselines)
      ensures out == GrowthReports(p, NVLINK_ECC_ERRORS + 1)
    {
      out := [];
      for field := FIRST_NVLINK_COUNTER to NVLINK_ECC_ERRORS + 1
        invariant out == GrowthReports(p, field)
        invariant CountersRead(p, FIRST_NVLINK_COUNTER, field, old(baselines), baselines)
        invariant Unread(p, field, NVLINK_ECC_ERRORS + 1, baselines)
      {
        hide CountersRead, GrowthOf;
        ghost var before := baselines;
        assert Unread(p, field, field + 1, baselines);
        hide Unread;
        var n, _ := GrowthSince(p, field);
        ReadTogether(p, FIRST_NVLINK_COUNTER, field, old(baselines), before, baselines);
        StillUnread(p, field, NVLINK_ECC_ERRORS + 1, before, baselines);
        if n > 0 {
          out := out + [Coded(p.gpu, 71, true, Grew(field, n))];
        }
      }
    }

    method CheckRecoveries(p: GpuPoll) returns (out: seq<Report>)
      requires |p.s.fields| == NUM_FIELDS && notified.Valid() && Untaken(p, 3, notified.tracked)
      modifies notified
      ensures notified.Valid() && LevelsTaken(p, 3, 4, old(notified.tracked), notified.tracked)
      ensures out == RecoveryReports(p)
    {
      out := [];
      if IsBlackwell(p.s.computeMajor) {
        var failed := p.s.fields[NVLINK_RECOVERY_FAILED];
        if failed.ok && failed.value > 0 {
          out := out + [Coded(p.gpu, 71, true, Amount(failed.value))];
        }
        var succeeded := p.s.fields[NVLINK_RECOVERY_SUCCEEDED];
        hide Warned, LevelsTaken, Untaken;
        var warned := Warn(p, 71, succeeded.ok, succeeded.value > 0, Amount(succeeded.value));
        out := out + warned;
      } else {
        NothingTaken(p, 71, notified.tracked);
      }
    }

    method CheckBer(p: GpuPoll) returns (out: seq<Report>)
      requires |p.s.fields| == NUM_FIELDS
      ensures out == BerReports(p)
    {
      hide BerParts, EffectiveBerExceeded, SymbolBerExceeded;
      out := [];
      var effective := p.s.fields[NVLINK_EFFECTIVE_BER];
      if effective.ok && EffectiveBerExceeded(BerParts(effective.value)) {
        out := out + [Coded(p.gpu, 119, true, BitErrors(BerParts(effective.value)))];
      }
      var symbol := p.s.fields[NVLINK_SYMBOL_BER];
      if symbol.ok {
        var floor := SYMBOL_FLOOR;
        if IsBlackwell(p.s.computeMajor) {
          floor := SYMBOL_FLOOR_SUMMED;
        }
        if SymbolBerExceeded(BerParts(symbol.value), floor) {
          out := out + [Coded(p.gpu, 121, true, BitErrors(BerParts(symbol.value)))];
        }
      }
    }

    method CheckRepairs(p: GpuPoll) returns (out: seq<Report>)
      requires |p.s.fields| == NUM_FIELDS && notified.Valid() && Untaken(p, 4, notified.tracked)
      modifies notified
      ensures notified.Valid() && LevelsTaken(p, 4, 5, old(notified.tracked), notified.tracked)
      ensures out == RepairReports(p)
    {
      hide LevelsTaken, Untaken, Warned;
      out := [];
      var failed := p.s.fields[REMAP_FAILURE];
      if failed.ok && failed.value > 0 {
        out := out + [Coded(p.gpu, 80, true, Plain)];
      }
      var unc := p.s.fields[REMAP_UNCORRECTABLE];
      var warned := Warn(p, 132, unc.ok && p.s.computeMajor.ok,
        p.s.computeMajor.value >= AMPERE_COMPUTE_MAJOR && unc.value >= MAX_UNCORRECTABLE_REMAPS, Amount(unc.value));
      out := out + warned;
      if p.s.unrepairable.ok && p.s.unrepairable.value != 0 {
        out := out + [Coded(p.gpu, 52, true, Plain)];
      }
    }

    method CheckStatus(p: GpuPoll) returns (out: seq<Report>)
      requires |p.s.fields| == NUM_FIELDS && notified.Valid() && Untaken(p, 5, notified.tracked)
      modifies notified
      ensures notified.Valid() && LevelsTaken(p, 5, 8, old(notified.tracked), notified.tracked)
      ensures out == StatusReports(p)
    {
      hide LevelsTaken, Untaken, Warned;
      ghost var t0 := notified.tracked;
      var inforomWarned := Warn(p, 9, p.inforom.ok, p.inforom.value != 0, Plain);
      ghost var t1 := notified.tracked;
      StillUntaken(p, 5, 6, t0, t1);
      var powerWarned := Warn(p, 11, p.s.powerUnreadable.ok, p.s.powerUnreadable.value != 0, Plain);
      ghost var t2 := notified.tracked;
      StillUntaken(p, 6, 7, t1, t2);
      var action := p.s.fields[RECOVERY_ACTION];
      var acted: seq<Report> := [];
      if action.ok {
        if ActionOf(action) == ACTION_RESET {
          acted := [Coded(p.gpu, 125, true, Plain)];
        } else if ActionOf(action) == ACTION_REBOOT {
          acted := [Coded(p.gpu, 126, true, Plain)];
        } else if ActionOf(action) == ACTION_DRAIN_AND_RESET {
          acted := [Coded(p.gpu, 128, true, Plain)];
        }
      }
      var drainWarned := Warn(p, 127, action.ok, action.value == ACTION_DRAIN_P2P, Plain);
      TakenTogether(p, 5, 6, 7, t0, t1, t2);
      TakenTogether(p, 5, 7, 8, t0, t2, notified.tracked);
      return inforomWarned + powerWarned + acted + drainWarned;
    }

    method CheckLater(p: GpuPoll) returns (out: seq<Report>)
      requires |p.s.fields| == NUM_FIELDS && notified.Valid() && Untaken(p, 3, notified.tracked)
      modifies notified
      ensures notified.Valid() && LevelsTaken(p, 3, LEVELS, old(notified.tracked), notified.tracked)
      ensures out == LaterReports(p)
    {
      hide LevelsTaken, Untaken, RecoveryReports, BerReports, RepairReports, StatusReports;
      ghost var t2 := notified.tracked;
      out := CheckRecoveries(p);
      ghost var t3 := notified.tracked;
      StillUntaken(p, 3, 4, t2, t3);
      var bers := CheckBer(p);
      var repairs := CheckRepairs(p);
      ghost var t4 := notified.tracked;
      StillUntaken(p, 4, 5, t3, t4);
      var status := CheckStatus(p);
      TakenTogether(p, 3, 4, 5, t2, t3, t4);
      TakenTogether(p, 3, 5, LEVELS, t2, t4, notified.tracked);
      out := out + bers + repairs + status;
    }

    /** Applies every rule to one GPU that is not lost. */
    method CheckGpu(p: GpuPoll) returns (out: seq<Report>)
      requires |p.s.fields| == NUM_FIELDS && !p.s.lost && notified.Valid()
      requires Untaken(p, 0, notified.tracked) && Unread(p, 0, NUM_FIELDS, baselines)
      modifies this`baselines, notified
      ensures notified.Valid() && LevelsTaken(p, 0, LEVELS, old(notified.tracked), notified.tracked)
      ensures RatesRead(p, old(baselines), baselines)
      ensures out == GpuReports(p)
    {
      ghost var t0, b0 := notified.tracked, baselines;
      assert Unread(p, THERMAL_VIOLATION, POWER_VIOLATION + 1, baselines);
      hide LevelsTaken, Untaken, Unread, CountersRead, RatesRead, MemoryReports, ClockReports, DownReports, GrowthReports, LaterReports;
      out := CheckMemory(p);
      ghost var t1 := notified.tracked;
      StillUntaken(p, 0, 1, t0, t1);
      var clocks := CheckClocks(p);
      ghost var t2, b1 := notified.tracked, baselines;
      StillUntaken(p, 1, 3, t1, t2);
      TakenTogether(p, 0, 1, 3, t0, t1, t2);
      SlowdownsLeaveTheLinks(p, b0, b1);
      var down := CheckDown(p);
      var grown := CheckCounters(p);
      RangesAreTheRates(p, b0, b1, baselines);
      var rest := CheckLater(p);
      TakenTogether(p, 0, 3, LEVELS, t0, t2, notified.tracked);
      out := out + clocks + (down + grown) + rest;
    }

    /** No rule applies to a lost GPU: it gets one report, and its baselines are gone. */
    method CheckOrClear(p: GpuPoll) returns (out: seq<Report>)
      requires |p.s.fields| == NUM_FIELDS && notified.Valid()
      requires Untaken(p, 0, notified.tracked) && Unread(p, 0, NUM_FIELDS, baselines)
      modifies this`baselines, notified
      ensures notified.Valid() && GpuNoted(p, old(notified.tracked), notified.tracked)
      ensures GpuRead(p, old(baselines), baselines)
      ensures out == GpuReports(p)
    {
      if p.s.lost {
        ClearBaselines(p.gpu);
        return [LostGpu(p.gpu)];
      }
      hide LevelsTaken, RatesRead, GpuReports;
      out := CheckGpu(p);
    }

    /** Applies the rules to every GPU. No link counts as down while any GPU is in MIG mode. */
    method CheckAll(n: NodePoll) returns (out: seq<Report>)
      requires WellSized(n.samples) && notified.Valid() && n.inforom == inforom
      requires n.base == baselines && n.tracked == notified.tracked
      modifies this`baselines, notified
      ensures notified.Valid() && NoticedUpTo(n, |n.samples|, notified.tracked)
      ensures AdvancedUpTo(n.samples, |n.samples|, n.base, baselines)
      ensures out == PollReports(n)
    {
      hide Untaken, Unread, GpuRead, GpuNoted, AdvancedUpTo, NoticedUpTo, GpuReports, AnyMig, InForce;
      var anyMig := SomeGpuInMig(n.samples);
      NothingAdvanced(n);
      out := [];
      for i := 0 to |n.samples|
        invariant notified.Valid() && out == ReportsUpTo(n, i)
        invariant AdvancedUpTo(n.samples, i, n.base, baselines) && NoticedUpTo(n, i, notified.tracked)
      {
        ghost var before, tracked := baselines, notified.tracked;
        var held := if i < |inforom| then inforom[i] else UNREAD;
        var p := GpuPoll(i, n.samples[i], anyMig, held, n.base, n.tracked, n.now);
        assert p == PollAt(n, i);
        NotYetAdvanced(n, i, baselines);
        NotYetNoticed(n, i, notified.tracked);
        var reports := CheckOrClear(p);
        out := out + reports;
        GpuAdvanced(n, i, before, baselines);
        GpuNoticed(n, i, tracked, notified.tracked);
      }
    }

    /** Applies the rules to one poll's readings. */
    method Evaluate(now: int, samples: seq<GpuHealth>) returns (out: seq<Report>)
      requires Valid() && WellSized(samples)
      modifies this`baselines, this`run, notified
      ensures Valid()
      ensures var n := NodePoll(samples, inforom, old(baselines), old(notified.tracked), now);
              && out == PollReports(n) && run == old(run) + [n]
              && NoticedUpTo(n, |samples|, notified.tracked)
      ensures AdvancedUpTo(samples, |samples|, old(baselines), baselines)
    {
      hide AdvancedUpTo, NoticedUpTo, IsRun, Leaves, PollReports, InForce;
      var n := NodePoll(samples, inforom, baselines, notified.tracked, now);
      out := CheckAll(n);
      AllAdvanced(samples, n.base, baselines);
      RunStep(run, n, baselines, notified.tracked);
      run := run + [n];
    }

    /** Reads every GPU once and returns this poll's reports. It reads nothing when NVML is not
        initialized, when the call is stuck, or when the GPUs cannot be counted; then nothing changes.
        It validates the InfoROMs when they never were, or not within the hour. */
    method Poll(now: int, ready: bool, answered: bool, count: Return, devices: seq<Device>, hasUnrepairable: bool)
      returns (out: seq<Report>, ok: bool, ghost samples: seq<GpuHealth>)
      requires Valid()
      modifies this, notified
      ensures Valid()
      ensures ok == (ready && answered && count.Success?)
      ensures !ok ==> out == [] && unchanged(this) && unchanged(notified)
      ensures ok ==> WellSized(samples)
      ensures ok ==>
                var validated := old(inforomAt).None? || now - old(inforomAt).value >= INFOROM_INTERVAL;
                && ReadBy(samples, devices, hasUnrepairable, validated)
                && inforomAt == (if validated then Some(now) else old(inforomAt))
                && if validated then |inforom| == |samples| && forall i :: 0 <= i < |samples| ==> inforom[i] == samples[i].inforom
                   else inforom == old(inforom)
      ensures ok ==>
                var n := NodePoll(samples, inforom, old(baselines), old(notified.tracked), now);
                && out == PollReports(n) && run == old(run) + [n]
                && NoticedUpTo(n, |samples|, notified.tracked)
                && AdvancedUpTo(samples, |samples|, old(baselines), baselines)
    {
      samples := [];
      if !ready {
        return [], false, [];
      }
      var validate := inforomAt.None? || now - inforomAt.value >= INFOROM_INTERVAL;
      if !answered || !count.Success? {
        return [], false, [];
      }
      var gpus := ReadAll(devices, hasUnrepairable, validate);
      ReadingsAreSized(gpus, devices, hasUnrepairable, validate);
      hide ReadBy, WellSized, PollReports, IsRun, Leaves, NoticedUpTo, AdvancedUpTo;
      if validate {
        inforomAt, inforom := Some(now), InforomResults(gpus);
      }
      samples := gpus;
      out := Evaluate(now, gpus);
      ok := true;
    }
  }
}
