/** The policy check: counters that grew since the last poll, and levels over their limit. */
module Policies {
  import opened Monitor
  import opened Counters
  import opened LevelReports
  import opened PolicyReader
  import opened ReturnCodes

  const MAX_RETIRED_PAGES := 10
  const MAX_TEMPERATURE_C := 100

  // The counters, by their DCGM field.
  const PCIE_REPLAYS := 202
  const DBE_DEVICE := 319

  datatype Report =
    | LostGpu(gpu: nat)
    | DoubleBit(gpu: nat, errors: int)
    | NvlinkErrors(gpu: nat, errors: int, field: nat)
    | Retirement(gpu: nat, sbe: int, dbe: int)
    | Overheated(gpu: nat, degrees: int)
    | PowerDraw(gpu: nat, watts: int)
    | Replays(gpu: nat, replays: int)

  /** When each level of a GPU was evaluated: the clock is read once for each. */
  datatype Times = Times(pages: int, thermal: int, power: int)

  /** One GPU in one poll. */
  datatype GpuPoll = GpuPoll(
    gpu: nat,
    s: GpuReadings,
    base: Baselines,
    tracked: map<LevelKey, int>,
    at: Times,
    threshold: nat)

  // ---------------------------------------------------------------------------
  // Counters
  // ---------------------------------------------------------------------------

  /** The place of an NVLink total among them, past the end for any other field. */
  function PlaceOf(field: nat): (i: nat)
    ensures i < |NVLINK_TOTALS| ==> field == NVLINK_TOTALS[i]
  {
    if field == NVLINK_TOTALS[0] then 0
    else if field == NVLINK_TOTALS[1] then 1
    else if field == NVLINK_TOTALS[2] then 2
    else if field == NVLINK_TOTALS[3] then 3
    else |NVLINK_TOTALS|
  }

  predicate IsNvlink(field: nat) {
    PlaceOf(field) < |NVLINK_TOTALS|
  }

  predicate IsCounter(field: nat) {
    field == PCIE_REPLAYS || field == DBE_DEVICE || IsNvlink(field)
  }

  /** The poll of the GPU comes to the counter, with a reading or without: the totals of a GPU whose
      handle could not be had are passed over. */
  predicate ComesTo(s: GpuReadings, field: nat) {
    field == PCIE_REPLAYS || field == DBE_DEVICE || PlaceOf(field) < |s.nvlink|
  }

  function CounterReading(s: GpuReadings, field: nat): Reading {
    if field == DBE_DEVICE then s.dbe
    else if field == PCIE_REPLAYS then s.pcieReplays
    else if PlaceOf(field) < |s.nvlink| then s.nvlink[PlaceOf(field)]
    else UNREAD
  }

  predicate Rises(base: Option<u64>, r: Reading) {
    InRange(r) && base.Some? && r.value > base.value
  }

  predicate Rose(p: GpuPoll, field: nat)
  {
    Rises(Held(p.base, CounterKey(p.gpu, field)), CounterReading(p.s, field))
  }

  /** A reading is kept as the baseline when it is in range, and clears the baseline otherwise. */
  function Noted(base: Baselines, key: CounterKey, r: Reading): Baselines {
    if InRange(r) then base[key := r.value] else base - {key}
  }

  function NvlinkNoted(p: GpuPoll, base: Baselines, k: nat): Baselines
    requires k <= |p.s.nvlink|
  {
    if k == 0 then base
    else Noted(NvlinkNoted(p, base, k - 1), CounterKey(p.gpu, NVLINK_TOTALS[k - 1]), p.s.nvlink[k - 1])
  }

  function Cleared(base: Baselines, gpu: nat): Baselines {
    map key | key in base && key.gpu != gpu :: base[key]
  }

  /** The baselines the GPU's poll leaves. */
  function BaseAfter(p: GpuPoll): Baselines
  {
    if p.s.lost then Cleared(p.base, p.gpu)
    else
      var first := Noted(p.base, CounterKey(p.gpu, DBE_DEVICE), p.s.dbe);
      Noted(NvlinkNoted(p, first, |p.s.nvlink|), CounterKey(p.gpu, PCIE_REPLAYS), p.s.pcieReplays)
  }

  /** What one poll does about one counter. */
  function PollOf(samples: seq<GpuReadings>, key: CounterKey): Poll
  {
    if key.gpu >= |samples| then Skipped
    else if samples[key.gpu].lost then Lost
    else if ComesTo(samples[key.gpu], key.field) then Policed(Read(CounterReading(samples[key.gpu], key.field)))
    else Skipped
  }

  function Afterwards(p: GpuPoll, key: CounterKey): Option<u64>
  {
    if key.gpu != p.gpu then Held(p.base, key)
    else if p.s.lost then None
    else if ComesTo(p.s, key.field) then Advance(None, Policed(Read(CounterReading(p.s, key.field))))
    else Held(p.base, key)
  }

  lemma NotedAt(base: Baselines, key: CounterKey, r: Reading, k: CounterKey)
    ensures Held(Noted(base, key, r), k) == if k == key then Advance(None, Policed(Read(r))) else Held(base, k)
  {
  }

  /** Every counter the poll of the GPU comes to is noted once, whatever else is reported; every
      other baseline stays. A lost GPU has none left. */
  lemma EveryCounterIsNoted(p: GpuPoll, key: CounterKey)
    ensures Held(BaseAfter(p), key) == Afterwards(p, key)
  {
    if !p.s.lost {
      var first := Noted(p.base, CounterKey(p.gpu, DBE_DEVICE), p.s.dbe);
      NotedAt(p.base, CounterKey(p.gpu, DBE_DEVICE), p.s.dbe, key);
      NvlinkNotedAt(p, first, |p.s.nvlink|, key);
      NotedAt(NvlinkNoted(p, first, |p.s.nvlink|), CounterKey(p.gpu, PCIE_REPLAYS), p.s.pcieReplays, key);
    }
  }

  lemma {:induction false} NvlinkNotedAt(p: GpuPoll, base: Baselines, k: nat, key: CounterKey)
    requires k <= |p.s.nvlink|
    ensures Held(NvlinkNoted(p, base, k), key) ==
            if key.gpu == p.gpu && PlaceOf(key.field) < k then Advance(None, Policed(Read(p.s.nvlink[PlaceOf(key.field)])))
            else Held(base, key)
    decreases k
  {
    if k > 0 {
      NvlinkNotedAt(p, base, k - 1, key);
      NotedAt(NvlinkNoted(p, base, k - 1), CounterKey(p.gpu, NVLINK_TOTALS[k - 1]), p.s.nvlink[k - 1], key);
      assert PlaceOf(NVLINK_TOTALS[k - 1]) == k - 1;
    }
  }

  /** Noting the double-bit errors leaves the NVLink totals' baselines, and all of them the replays'. */
  lemma NotedApart(p: GpuPoll)
    ensures var first := Noted(p.base, CounterKey(p.gpu, DBE_DEVICE), p.s.dbe);
            && (forall field :: IsNvlink(field) ==>
                  Held(first, CounterKey(p.gpu, field)) == Held(p.base, CounterKey(p.gpu, field)))
            && Held(NvlinkNoted(p, first, |p.s.nvlink|), CounterKey(p.gpu, PCIE_REPLAYS)) ==
               Held(p.base, CounterKey(p.gpu, PCIE_REPLAYS))
  {
    var first := Noted(p.base, CounterKey(p.gpu, DBE_DEVICE), p.s.dbe);
    NvlinkNotedAt(p, first, |p.s.nvlink|, CounterKey(p.gpu, PCIE_REPLAYS));
  }

  // ---------------------------------------------------------------------------
  // Levels
  // ---------------------------------------------------------------------------

  datatype Power = Power(watts: int, observed: bool, over: bool)

  /** Power in whole watts against the configured threshold or, when there is none, the GPU's own
      limit. The configured threshold needs no limit to be read. */
  function PowerOf(s: GpuReadings, threshold: nat): Power {
    if !s.powerMw.ok || (threshold == 0 && !s.powerLimitMw.ok) then Power(0, false, false)
    else
      var limit := if threshold == 0 then s.powerLimitMw.value / 1000 else threshold;
      Power(s.powerMw.value / 1000, true, s.powerMw.value / 1000 > limit)
  }

  /** What the power check comes to: it is observed when the draw is known, and the limit too unless
      a threshold is configured; the watts are the draw's whole ones; and the draw is over when it
      reaches the next whole watt above the threshold, or above the limit. */
  ghost predicate IsPower(s: GpuReadings, threshold: nat, power: Power) {
    && (power.observed <==> s.powerMw.ok && (threshold > 0 || s.powerLimitMw.ok))
    && (if power.observed then power.watts * 1000 <= s.powerMw.value < (power.watts + 1) * 1000 else power.watts == 0)
    && (threshold > 0 ==> (power.over <==> s.powerMw.ok && s.powerMw.value >= (threshold + 1) * 1000))
    && (threshold == 0 ==>
         (power.over <==> power.observed && exists w: nat :: s.powerLimitMw.value < w * 1000 <= s.powerMw.value))
  }

  lemma PowerIsDetermined(s: GpuReadings, threshold: nat, power: Power)
    ensures IsPower(s, threshold, power) <==> power == PowerOf(s, threshold)
  {
    var draw, limit := s.powerMw.value, s.powerLimitMw.value;
    if draw / 1000 > limit / 1000 {
      assert limit < (draw / 1000) * 1000 <= draw;
    }
    if w: nat :| limit < w * 1000 <= draw {
      assert limit / 1000 < w <= draw / 1000;
    }
  }

  /** Comparing whole watts is comparing the draw with the limit, or with a configured threshold,
      except when the draw is above it within the same watt. */
  lemma WholeWattsMissTheLastWatt(s: GpuReadings, threshold: nat)
    requires s.powerMw.ok && (threshold == 0 ==> s.powerLimitMw.ok)
    ensures var limit := if threshold == 0 then s.powerLimitMw.value else threshold * 1000;
            (PowerOf(s, threshold).over <==> s.powerMw.value > limit)
            <==> !(limit < s.powerMw.value < (limit / 1000 + 1) * 1000)
  {
  }

  /** The retired pages of both causes add up in 64 bits. */
  function Pages(s: GpuReadings): u64 {
    (s.retiredSbe.value + s.retiredDbe.value) % U64
  }

  /** The sum is over the limit as the true count of pages is, exactly unless that count wraps around to
      the limit or less. */
  lemma RetiredPagesWrap(s: GpuReadings)
    ensures var pages := s.retiredSbe.value + s.retiredDbe.value;
            (Pages(s) > MAX_RETIRED_PAGES <==> pages > MAX_RETIRED_PAGES) <==> !(U64 <= pages <= U64 + MAX_RETIRED_PAGES)
  {
  }

  function PagesLevel(p: GpuPoll): LevelReading {
    LevelReading(
      LevelKey(p.gpu, Policy("retiredPages")), p.at.pages,
      p.s.retiredSbe.ok && p.s.retiredDbe.ok,
      Pages(p.s) > MAX_RETIRED_PAGES)
  }

  function ThermalLevel(p: GpuPoll): LevelReading {
    LevelReading(LevelKey(p.gpu, Policy("thermal")), p.at.thermal, p.s.temperature.ok, p.s.temperature.value > MAX_TEMPERATURE_C)
  }

  function PowerLevel(p: GpuPoll): LevelReading {
    var power := PowerOf(p.s, p.threshold);
    LevelReading(LevelKey(p.gpu, Policy("power")), p.at.power, power.observed, power.over)
  }

  predicate Warns(p: GpuPoll, level: LevelReading) {
    level.observed && level.over && IsDue(p.tracked, level.key, level.at)
  }

  function LevelsOf(p: GpuPoll): (levels: seq<LevelReading>)
    ensures forall i, j :: 0 <= i < j < |levels| ==> levels[i].key != levels[j].key
  {
    if p.s.lost then [] else [PagesLevel(p), ThermalLevel(p), PowerLevel(p)]
  }

  function TakenAfter(p: GpuPoll): map<LevelKey, int> {
    if p.s.lost then p.tracked
    else TrackedAfter(TrackedAfter(TrackedAfter(p.tracked, PagesLevel(p)), ThermalLevel(p)), PowerLevel(p))
  }

  // ---------------------------------------------------------------------------
  // Reports
  // ---------------------------------------------------------------------------

  function When(due: bool, r: Report): seq<Report> {
    if due then [r] else []
  }

  /** The first NVLink total that rose, among the first k. */
  function FirstRisen(p: GpuPoll, k: nat): (out: seq<Report>)
    requires k <= |p.s.nvlink|
    ensures |out| <= 1
  {
    if k == 0 then []
    else if FirstRisen(p, k - 1) != [] then FirstRisen(p, k - 1)
    else When(Rose(p, NVLINK_TOTALS[k - 1]), NvlinkErrors(p.gpu, p.s.nvlink[k - 1].value, NVLINK_TOTALS[k - 1]))
  }

  function LevelReportsOf(p: GpuPoll): seq<Report> {
    When(Warns(p, PagesLevel(p)), Retirement(p.gpu, p.s.retiredSbe.value, p.s.retiredDbe.value)) +
    When(Warns(p, ThermalLevel(p)), Overheated(p.gpu, p.s.temperature.value)) +
    When(Warns(p, PowerLevel(p)), PowerDraw(p.gpu, PowerOf(p.s, p.threshold).watts))
  }

  function GpuReports(p: GpuPoll): seq<Report>
  {
    if p.s.lost then [LostGpu(p.gpu)]
    else
      When(Rose(p, DBE_DEVICE), DoubleBit(p.gpu, p.s.dbe.value)) +
      FirstRisen(p, |p.s.nvlink|) +
      LevelReportsOf(p) +
      When(Rose(p, PCIE_REPLAYS), Replays(p.gpu, p.s.pcieReplays.value))
  }

  /** The counter is above its baseline. A reading beyond 32 bits counts as none. */
  predicate Grew(p: GpuPoll, field: nat, r: Reading) {
    var key := CounterKey(p.gpu, field);
    r.ok && r.value <= 0xFFFF_FFFF && key in p.base && r.value > p.base[key]
  }

  /** The rules' growth is that of the counter's own reading. */
  lemma RoseIsGrowth(p: GpuPoll)
    ensures Rose(p, DBE_DEVICE) == Grew(p, DBE_DEVICE, p.s.dbe)
    ensures Rose(p, PCIE_REPLAYS) == Grew(p, PCIE_REPLAYS, p.s.pcieReplays)
    ensures forall i :: 0 <= i < |p.s.nvlink| ==> Rose(p, NVLINK_TOTALS[i]) == Grew(p, NVLINK_TOTALS[i], p.s.nvlink[i])
  {
    forall i | 0 <= i < |p.s.nvlink|
      ensures Rose(p, NVLINK_TOTALS[i]) == Grew(p, NVLINK_TOTALS[i], p.s.nvlink[i])
    {
      assert PlaceOf(NVLINK_TOTALS[i]) == i;
    }
  }

  ghost predicate IsFirstRisen(p: GpuPoll, k: nat, field: nat, errors: int)
    requires k <= |p.s.nvlink|
  {
    exists i :: 0 <= i < k && RisenAt(p, i, field, errors) &&
      forall j :: 0 <= j < i ==> !Grew(p, NVLINK_TOTALS[j], p.s.nvlink[j])
  }

  predicate RisenAt(p: GpuPoll, i: nat, field: nat, errors: int)
    requires i < |p.s.nvlink|
  {
    field == NVLINK_TOTALS[i] && errors == p.s.nvlink[i].value && Grew(p, NVLINK_TOTALS[i], p.s.nvlink[i])
  }

  predicate IsDuePolicy(p: GpuPoll, name: string, at: int) {
    IsDue(p.tracked, LevelKey(p.gpu, Policy(name)), at)
  }

  /** The rule of each report, on the readings. */
  ghost predicate Rule(p: GpuPoll, r: Report)
  {
    r.gpu == p.gpu &&
    match r
    case LostGpu(_) => false
    case DoubleBit(_, errors) => Grew(p, DBE_DEVICE, p.s.dbe) && errors == p.s.dbe.value
    case NvlinkErrors(_, errors, field) => IsFirstRisen(p, |p.s.nvlink|, field, errors)
    case Retirement(_, sbe, dbe) =>
      && p.s.retiredSbe.ok && p.s.retiredDbe.ok
      && Pages(p.s) > MAX_RETIRED_PAGES
      && IsDuePolicy(p, "retiredPages", p.at.pages)
      && sbe == p.s.retiredSbe.value && dbe == p.s.retiredDbe.value
    case Overheated(_, degrees) =>
      && p.s.temperature.ok && p.s.temperature.value > MAX_TEMPERATURE_C
      && IsDuePolicy(p, "thermal", p.at.thermal) && degrees == p.s.temperature.value
    case PowerDraw(_, watts) => IsPower(p.s, p.threshold, Power(watts, true, true)) && IsDuePolicy(p, "power", p.at.power)
    case Replays(_, replays) => Grew(p, PCIE_REPLAYS, p.s.pcieReplays) && replays == p.s.pcieReplays.value
  }

  lemma {:induction false} FirstRisenIsExact(p: GpuPoll, k: nat, r: Report)
    requires k <= |p.s.nvlink|
    ensures r in FirstRisen(p, k) <==> r.NvlinkErrors? && r.gpu == p.gpu && IsFirstRisen(p, k, r.field, r.errors)
    ensures FirstRisen(p, k) == [] <==> forall j :: 0 <= j < k ==> !Grew(p, NVLINK_TOTALS[j], p.s.nvlink[j])
    decreases k
  {
    RoseIsGrowth(p);
    hide Rose, Grew;
    if k > 0 {
      FirstRisenIsExact(p, k - 1, r);
      if FirstRisen(p, k - 1) == [] && r.NvlinkErrors? && RisenAt(p, k - 1, r.field, r.errors) {
        assert IsFirstRisen(p, k, r.field, r.errors);
      }
    }
  }

  /** A GPU that is not lost gets exactly the reports whose rule holds. */
  lemma ReportsFollowTheRules(p: GpuPoll, r: Report)
    requires !p.s.lost
    ensures r in GpuReports(p) <==> Rule(p, r)
  {
    hide Rose, Grew, FirstRisen, IsFirstRisen, LevelReportsOf, IsDuePolicy, IsPower;
    RoseIsGrowth(p);
    FirstRisenIsExact(p, |p.s.nvlink|, r);
    LevelsAreExact(p, r);
  }

  /** Which readings a level needs, and when it is over: two page counts, the temperature, or the draw
      with the limit it is held against. */
  lemma LevelsAreTheReadings(p: GpuPoll)
    ensures PagesLevel(p).observed <==> p.s.retiredSbe.ok && p.s.retiredDbe.ok
    ensures PagesLevel(p).over <==> (p.s.retiredSbe.value + p.s.retiredDbe.value) % U64 > 10
    ensures ThermalLevel(p).observed <==> p.s.temperature.ok
    ensures ThermalLevel(p).over <==> p.s.temperature.value > 100
    ensures exists watts :: IsPower(p.s, p.threshold, Power(watts, PowerLevel(p).observed, PowerLevel(p).over))
  {
    PowerIsDetermined(p.s, p.threshold, PowerOf(p.s, p.threshold));
    hide IsPower;
    assert IsPower(p.s, p.threshold, Power(PowerOf(p.s, p.threshold).watts, PowerLevel(p).observed, PowerLevel(p).over));
  }

  /** A level's rule holds of one report at most, and of that one exactly when the level warns. */
  lemma LevelRules(p: GpuPoll, r: Report)
    requires r.gpu == p.gpu
    ensures r.Retirement? ==>
              (Rule(p, r) <==> Warns(p, PagesLevel(p)) && r.sbe == p.s.retiredSbe.value && r.dbe == p.s.retiredDbe.value)
    ensures r.Overheated? ==> (Rule(p, r) <==> Warns(p, ThermalLevel(p)) && r.degrees == p.s.temperature.value)
    ensures r.PowerDraw? ==> (Rule(p, r) <==> Warns(p, PowerLevel(p)) && r.watts == PowerOf(p.s, p.threshold).watts)
  {
    hide IsDue, IsPower, PowerOf;
    if r.PowerDraw? {
      PowerIsDetermined(p.s, p.threshold, Power(r.watts, true, true));
    }
  }

  lemma LevelsAreExact(p: GpuPoll, r: Report)
    ensures r in LevelReportsOf(p) <==> (r.Retirement? || r.Overheated? || r.PowerDraw?) && Rule(p, r)
  {
    if r.gpu == p.gpu {
      LevelRules(p, r);
    }
    hide Warns, IsFirstRisen, IsPower, PowerOf, IsDuePolicy, Grew;
  }

  function Kind(r: Report): int {
    match r
    case LostGpu(_) => 0
    case DoubleBit(_, _) => 1
    case NvlinkErrors(_, _, _) => 2
    case Retirement(_, _, _) => 3
    case Overheated(_, _) => 4
    case PowerDraw(_, _) => 5
    case Replays(_, _) => 6
  }

  /** The reports are of different policies, in order, all before the kind given. */
  ghost predicate InOrder(out: seq<Report>, before: int) {
    && (forall i :: 0 <= i < |out| ==> Kind(out[i]) < before)
    && (forall i, j :: 0 <= i < j < |out| ==> Kind(out[i]) < Kind(out[j]))
  }

  lemma OneMoreKind(out: seq<Report>, due: bool, r: Report)
    requires InOrder(out, Kind(r))
    ensures InOrder(out + When(due, r), Kind(r) + 1)
  {
  }

  /** Each policy is reported at most once per GPU and poll, the four NVLink totals together. */
  lemma EachPolicyAtMostOnce(p: GpuPoll, i: nat, j: nat)
    requires i < j < |GpuReports(p)|
    ensures Kind(GpuReports(p)[i]) < Kind(GpuReports(p)[j])
  {
    hide When, Rose, FirstRisen, LevelReportsOf, InOrder;
    assert InOrder([], 1) by { NoneInOrder(); }
    OneMoreKind([], Rose(p, DBE_DEVICE), DoubleBit(p.gpu, p.s.dbe.value));
    var first := [] + When(Rose(p, DBE_DEVICE), DoubleBit(p.gpu, p.s.dbe.value));
    LinksInOrder(p, first);
    var links := first + FirstRisen(p, |p.s.nvlink|);
    LevelsInOrder(p, links);
    OneMoreKind(links + LevelReportsOf(p), Rose(p, PCIE_REPLAYS), Replays(p.gpu, p.s.pcieReplays.value));
    assert !p.s.lost;
    assert [] + When(Rose(p, DBE_DEVICE), DoubleBit(p.gpu, p.s.dbe.value)) == When(Rose(p, DBE_DEVICE), DoubleBit(p.gpu, p.s.dbe.value));
    OrderedAt(GpuReports(p), 7, i, j);
  }

  lemma NoneInOrder()
    ensures InOrder([], 1)
  {
  }

  lemma OrderedAt(out: seq<Report>, before: int, i: nat, j: nat)
    requires InOrder(out, before) && i < j < |out|
    ensures Kind(out[i]) < Kind(out[j])
  {
  }

  lemma LevelsInOrder(p: GpuPoll, out: seq<Report>)
    requires InOrder(out, 3)
    ensures InOrder(out + LevelReportsOf(p), 6)
  {
    hide When, Warns, PowerOf, InOrder;
    var pages := Retirement(p.gpu, p.s.retiredSbe.value, p.s.retiredDbe.value);
    var heat := Overheated(p.gpu, p.s.temperature.value);
    var draw := PowerDraw(p.gpu, PowerOf(p.s, p.threshold).watts);
    var a, b, c := When(Warns(p, PagesLevel(p)), pages), When(Warns(p, ThermalLevel(p)), heat), When(Warns(p, PowerLevel(p)), draw);
    OneMoreKind(out, Warns(p, PagesLevel(p)), pages);
    OneMoreKind(out + a, Warns(p, ThermalLevel(p)), heat);
    OneMoreKind(out + a + b, Warns(p, PowerLevel(p)), draw);
    assert out + a + b + c == out + (a + b + c);
  }

  lemma LinksInOrder(p: GpuPoll, out: seq<Report>)
    requires InOrder(out, 2)
    ensures InOrder(out + FirstRisen(p, |p.s.nvlink|), 3)
  {
    hide FirstRisen;
    var links := FirstRisen(p, |p.s.nvlink|);
    if links != [] {
      FirstRisenIsExact(p, |p.s.nvlink|, links[0]);
    }
  }

  // ---------------------------------------------------------------------------
  // A poll of every GPU
  // ---------------------------------------------------------------------------

  /** Everything a poll decides on. The clock is read for one GPU after another. */
  datatype NodePoll = NodePoll(
    samples: seq<GpuReadings>,
    base: Baselines,
    tracked: map<LevelKey, int>,
    clock: nat -> Times,
    threshold: nat)

  datatype State = State(base: Baselines, tracked: map<LevelKey, int>)

  /** What the first k GPUs leave of the baselines and trackers. */
  function StateAt(n: NodePoll, k: nat): State
    requires k <= |n.samples|
  {
    if k == 0 then State(n.base, n.tracked)
    else
      var before := StateAt(n, k - 1);
      var p := GpuPoll(k - 1, n.samples[k - 1], before.base, before.tracked, n.clock(k - 1), n.threshold);
      State(BaseAfter(p), TakenAfter(p))
  }

  function PollAt(n: NodePoll, k: nat): GpuPoll
    requires k < |n.samples|
  {
    GpuPoll(k, n.samples[k], StateAt(n, k).base, StateAt(n, k).tracked, n.clock(k), n.threshold)
  }

  function ReportsUpTo(n: NodePoll, k: nat): seq<Report>
    requires k <= |n.samples|
  {
    if k == 0 then [] else ReportsUpTo(n, k - 1) + GpuReports(PollAt(n, k - 1))
  }

  /** The levels of the first k GPUs, in the order they are taken. */
  function LevelsUpTo(n: NodePoll, k: nat): seq<LevelReading>
    requires k <= |n.samples|
  {
    if k == 0 then [] else LevelsUpTo(n, k - 1) + LevelsOf(PollAt(n, k - 1))
  }

  function PollReports(n: NodePoll): seq<Report>
  {
    ReportsUpTo(n, |n.samples|)
  }

  lemma {:induction false} OthersLeaveTheCounter(n: NodePoll, k: nat, key: CounterKey)
    requires k <= |n.samples|
    ensures Held(StateAt(n, k).base, key) ==
            if key.gpu < k then Advance(Held(n.base, key), PollOf(n.samples, key)) else Held(n.base, key)
    decreases k
  {
    if k > 0 {
      OthersLeaveTheCounter(n, k - 1, key);
      EveryCounterIsNoted(PollAt(n, k - 1), key);
      hide BaseAfter, TakenAfter, CounterReading, Policed;
    }
  }

  lemma {:induction false} ReportsByGpu(n: NodePoll, k: nat, r: Report)
    requires k <= |n.samples|
    ensures r in ReportsUpTo(n, k) <==> r.gpu < k && r in GpuReports(PollAt(n, r.gpu))
    decreases k
  {
    hide GpuReports, StateAt;
    if k > 0 {
      ReportsByGpu(n, k - 1, r);
      ReportNamesItsGpu(PollAt(n, k - 1), r);
    }
  }

  lemma ReportNamesItsGpu(p: GpuPoll, r: Report)
    ensures r in GpuReports(p) ==> r.gpu == p.gpu
  {
    if !p.s.lost {
      ReportsFollowTheRules(p, r);
    }
  }

  // ---------------------------------------------------------------------------
  // Whole runs of polls
  // ---------------------------------------------------------------------------

  /** The polls so far, as one counter sees them. */
  ghost function PollsOf(history: seq<seq<GpuReadings>>, key: CounterKey): (polls: seq<Poll>)
    ensures |polls| == |history| && forall i :: 0 <= i < |polls| ==> polls[i] == PollOf(history[i], key)
  {
    seq(|history|, i requires 0 <= i < |history| => PollOf(history[i], key))
  }

  /** Each baseline is what the polls so far make it. */
  ghost predicate Recorded(history: seq<seq<GpuReadings>>, base: Baselines) {
    forall key :: Held(base, key) == Baseline(PollsOf(history, key))
  }

  lemma PollRecorded(history: seq<seq<GpuReadings>>, n: NodePoll)
    requires Recorded(history, n.base)
    ensures Recorded(history + [n.samples], StateAt(n, |n.samples|).base)
  {
    hide StateAt;
    forall key
      ensures Held(StateAt(n, |n.samples|).base, key) == Baseline(PollsOf(history + [n.samples], key))
    {
      assert PollsOf(history + [n.samples], key) == PollsOf(history, key) + [PollOf(n.samples, key)];
      BaselineStep(PollsOf(history, key), PollOf(n.samples, key));
      OthersLeaveTheCounter(n, |n.samples|, key);
    }
  }

  ghost predicate WasLower(polls: seq<Poll>, i: nat, r: Reading) {
    IsLastEvent(polls, i) && polls[i].Read? && polls[i].r.ok && polls[i].r.value < r.value
  }

  /** A counter rose, for the policies, exactly when its reading is in range and the last poll that
      came to it, or lost its GPU, read it in range and lower. */
  lemma RoseSinceTheLastPoll(history: seq<seq<GpuReadings>>, n: NodePoll, key: CounterKey)
    requires Recorded(history, n.base) && key.gpu < |n.samples|
    ensures var polls, r := PollsOf(history, key), CounterReading(n.samples[key.gpu], key.field);
            Rose(PollAt(n, key.gpu), key.field) <==> InRange(r) && exists i :: WasLower(polls, i, r)
  {
    hide StateAt, CounterReading, PollOf, Baseline;
    var polls, r := PollsOf(history, key), CounterReading(n.samples[key.gpu], key.field);
    BaselineOf(history, n.base, key);
    OthersLeaveTheCounter(n, key.gpu, key);
    BaselineIsLastReading(polls);
    if Baseline(polls).Some? {
      var i :| IsLastEvent(polls, i) && polls[i].Read? && polls[i].r.ok;
      assert Rose(PollAt(n, key.gpu), key.field) ==> WasLower(polls, i, r);
    }
  }

  /** The poll neither comes to the counter nor loses its GPU: the GPU was not among those counted, or
      the counter is an NVLink total and there was no place for it. */
  predicate PassesOver(samples: seq<GpuReadings>, key: CounterKey) {
    key.gpu >= |samples| || (!samples[key.gpu].lost && !ComesTo(samples[key.gpu], key.field))
  }

  /** The poll read the counter in range. */
  predicate ReadsInRange(samples: seq<GpuReadings>, key: CounterKey) {
    PollOf(samples, key).Read? && PollOf(samples, key).r.ok
  }

  /** A poll without a usable reading of a counter costs two fresh readings before growth of it can be
      reported: exactly those that do not pass over it, unless two were needed already. */
  lemma FailedReadCostsTwoReadings(history: seq<seq<GpuReadings>>, samples: seq<GpuReadings>, key: CounterKey)
    requires IsCounter(key.field) && !ReadsInRange(samples, key)
    ensures Baseline(PollsOf(history + [samples], key)).None? <==>
            !PassesOver(samples, key) || Baseline(PollsOf(history, key)).None?
  {
    assert PollsOf(history + [samples], key) == PollsOf(history, key) + [PollOf(samples, key)];
    BaselineStep(PollsOf(history, key), PollOf(samples, key));
  }

  /** A counter that rose was read in range twice in a row, as promised, exactly unless the poll before
      passed over it. */
  lemma GrowthTakesTwoInARow(history: seq<seq<GpuReadings>>, samples: seq<GpuReadings>, n: NodePoll, key: CounterKey)
    requires Recorded(history + [samples], n.base) && IsCounter(key.field) && key.gpu < |n.samples|
    requires Rose(PollAt(n, key.gpu), key.field)
    ensures ReadsInRange(samples, key) <==> !PassesOver(samples, key)
  {
    hide StateAt, CounterReading, PollOf;
    BaselineOf(history + [samples], n.base, key);
    OthersLeaveTheCounter(n, key.gpu, key);
    if !ReadsInRange(samples, key) {
      FailedReadCostsTwoReadings(history, samples, key);
    } else {
      ReadsWhatItComesTo(samples, key);
    }
  }

  lemma ReadsWhatItComesTo(samples: seq<GpuReadings>, key: CounterKey)
    requires ReadsInRange(samples, key)
    ensures !PassesOver(samples, key)
  {
  }

  /** Which polls pass over a counter, by the driver's answers: those that do not count its GPU and,
      for an NVLink total, those that fail to get a handle of a GPU that is not lost. */
  lemma WhichPollsPassOver(samples: seq<GpuReadings>, devices: seq<Device>, readLimit: bool, key: CounterKey)
    requires ReadBy(samples, devices, readLimit) && IsCounter(key.field)
    ensures PassesOver(samples, key) <==>
            key.gpu >= |devices| || (IsNvlink(key.field) && HandleFails(devices[key.gpu]))
  {
    if key.gpu < |samples| {
      NoPlaceWithoutAHandle(samples[key.gpu], devices[key.gpu], readLimit);
    }
  }

  /** Such a run: an NVLink total is read, then the GPU's handle fails, and the first reading after
      that is already reported as growth, while the GPU's other counters need two. */
  lemma FailedHandleKeepsTheTotals(first: GpuReadings, n: NodePoll, low: u64, high: u64)
    requires !first.lost && |first.nvlink| == 4 && first.nvlink[0] == Reading(low, true)
    requires |n.samples| == 1 && !n.samples[0].lost
    requires |n.samples[0].nvlink| == 4 && n.samples[0].nvlink[0] == Reading(high, true)
    requires low < high <= MAX_UINT32 && Recorded([[first], [NothingRead(false)]], n.base)
    ensures NvlinkErrors(0, high, NVLINK_TOTALS[0]) in PollReports(n)
    ensures !Rose(PollAt(n, 0), DBE_DEVICE) && !Rose(PollAt(n, 0), PCIE_REPLAYS)
  {
    var history := [[first], [NothingRead(false)]];
    var p := PollAt(n, 0);
    BaselineOfTwo(history, n.base, CounterKey(0, NVLINK_TOTALS[0]));
    BaselineOfTwo(history, n.base, CounterKey(0, DBE_DEVICE));
    BaselineOfTwo(history, n.base, CounterKey(0, PCIE_REPLAYS));
    assert RisenAt(p, 0, NVLINK_TOTALS[0], high);
    assert Rule(p, NvlinkErrors(0, high, NVLINK_TOTALS[0]));
    ReportsFollowTheRules(p, NvlinkErrors(0, high, NVLINK_TOTALS[0]));
    ReportsByGpu(n, 1, NvlinkErrors(0, high, NVLINK_TOTALS[0]));
  }

  lemma BaselineOfTwo(history: seq<seq<GpuReadings>>, base: Baselines, key: CounterKey)
    requires |history| == 2 && Recorded(history, base)
    ensures Held(base, key) == Advance(Advance(None, PollOf(history[0], key)), PollOf(history[1], key))
  {
    var polls := PollsOf(history, key);
    BaselineOf(history, base, key);
    assert polls == [polls[0]] + [polls[1]] && [polls[0]] == [] + [polls[0]];
    BaselineStep([polls[0]], polls[1]);
    BaselineStep([], polls[0]);
  }

  lemma BaselineOf(history: seq<seq<GpuReadings>>, base: Baselines, key: CounterKey)
    requires Recorded(history, base)
    ensures Held(base, key) == Baseline(PollsOf(history, key))
  {
  }

  /** Each GPU's readings are the driver's answers about it. */
  ghost predicate ReadBy(samples: seq<GpuReadings>, devices: seq<Device>, readLimit: bool) {
    |samples| == |devices| && forall i :: 0 <= i < |samples| ==> IsReadingOf(samples[i], devices[i], readLimit)
  }

  method ReadAll(devices: seq<Device>, readLimit: bool) returns (samples: seq<GpuReadings>)
    ensures ReadBy(samples, devices, readLimit)
  {
    hide IsReadingOf;
    samples := [];
    for i := 0 to |devices|
      invariant ReadBy(samples, devices[..i], readLimit)
    {
      var g := ReadGpu(devices[i], readLimit);
      samples := samples + [g];
    }
    assert devices[..|devices|] == devices;
  }

  /** A level warns exactly when its reading reports, given everything read before it. */
  lemma WarnsWhenItReports(readings: seq<LevelReading>, p: GpuPoll, k: nat)
    requires InForce(readings, p.tracked) && k < |LevelsOf(p)|
    ensures Warns(p, LevelsOf(p)[k]) <==> Reports(readings + LevelsOf(p)[..k + 1], |readings| + k)
  {
    hide InForce, IsDue;
    var levels := LevelsOf(p);
    var t1 := TrackedAfter(p.tracked, levels[0]);
    var t2 := TrackedAfter(t1, levels[1]);
    assert readings + levels[..1] == readings + [levels[0]];
    assert readings + levels[..2] == readings + levels[..1] + [levels[1]];
    assert readings + levels[..3] == readings + levels[..2] + [levels[2]];
    ReadingRecorded(readings, levels[0], p.tracked);
    ReadingRecorded(readings + levels[..1], levels[1], t1);
    ReadingRecorded(readings + levels[..2], levels[2], t2);
    DueOfAnother(p.tracked, levels[0], levels[1]);
    DueOfAnother(p.tracked, levels[0], levels[2]);
    DueOfAnother(t1, levels[1], levels[2]);
    assert |readings + levels[..k]| == |readings| + k;
    assert Warns(p, levels[k]) <==> Reports(readings + levels[..k + 1], |readings| + k) by {
      assert levels[..0] == [] && readings + levels[..0] == readings;
      if k == 0 {
      } else if k == 1 {
      } else {
        assert k == 2;
      }
    }
  }

  lemma DueOfAnother(tracked: map<LevelKey, int>, r: LevelReading, other: LevelReading)
    requires r.key != other.key
    ensures IsDue(TrackedAfter(tracked, r), other.key, other.at) == IsDue(tracked, other.key, other.at)
  {
  }

  lemma OneByOne<T>(s: seq<T>, a: T, b: T, c: T)
    ensures s + [a] + [b] + [c] == s + [a, b, c]
  {
  }

  lemma LevelsApart(p: GpuPoll)
    ensures var t1 := TrackedAfter(p.tracked, PagesLevel(p));
            && IsDue(t1, ThermalLevel(p).key, p.at.thermal) == IsDue(p.tracked, ThermalLevel(p).key, p.at.thermal)
            && IsDue(TrackedAfter(t1, ThermalLevel(p)), PowerLevel(p).key, p.at.power) ==
               IsDue(p.tracked, PowerLevel(p).key, p.at.power)
  {
    hide TrackedAfter, IsDue, PowerOf;
    DueOfAnother(p.tracked, PagesLevel(p), ThermalLevel(p));
    DueOfAnother(p.tracked, PagesLevel(p), PowerLevel(p));
    DueOfAnother(TrackedAfter(p.tracked, PagesLevel(p)), ThermalLevel(p), PowerLevel(p));
  }

  function SamplesOf(run: seq<NodePoll>): (history: seq<seq<GpuReadings>>)
    ensures |history| == |run| && forall i :: 0 <= i < |run| ==> history[i] == run[i].samples
  {
    seq(|run|, i requires 0 <= i < |run| => run[i].samples)
  }

  /** A run of polls that read the GPUs: each starts from the baselines and the trackers that the ones
      before it left, the first from none. */
  ghost predicate IsRun(run: seq<NodePoll>) {
    forall k :: 0 <= k < |run| ==> StartsFrom(run, k)
  }

  ghost predicate StartsFrom(run: seq<NodePoll>, k: nat)
    requires k < |run|
  {
    Leaves(run[..k], run[k].base, run[k].tracked)
  }

  /** What a run leaves for the next poll. */
  ghost predicate Leaves(run: seq<NodePoll>, base: Baselines, tracked: map<LevelKey, int>) {
    && Recorded(SamplesOf(run), base)
    && tracked == if run == [] then map[] else StateAt(run[|run| - 1], |run[|run| - 1].samples|).tracked
  }

  lemma RunStep(run: seq<NodePoll>, n: NodePoll)
    requires IsRun(run) && Leaves(run, n.base, n.tracked)
    ensures IsRun(run + [n])
    ensures Leaves(run + [n], StateAt(n, |n.samples|).base, StateAt(n, |n.samples|).tracked)
  {
    hide Recorded, StateAt;
    assert SamplesOf(run + [n]) == SamplesOf(run) + [n.samples];
    PollRecorded(SamplesOf(run), n);
    forall k | 0 <= k < |run + [n]|
      ensures StartsFrom(run + [n], k)
    {
      assert (run + [n])[..k] == run[..k];
      assert k < |run| ==> StartsFrom(run, k);
    }
  }

  class Policies {
    var powerThresholdWatts: nat
    var baselines: Baselines
    const notified: LevelTrackers
    ghost var run: seq<NodePoll>  // every poll that read the GPUs, and what it started from

    ghost predicate Valid()
      reads this, notified
    {
      notified.Valid() && IsRun(run) && Leaves(run, baselines, notified.tracked)
    }

    constructor ()
      ensures Valid() && fresh(notified) && run == [] && powerThresholdWatts == 0
      ensures notified.tracked == map[] && notified.readings == []
    {
      powerThresholdWatts, baselines := 0, map[];
      notified := new LevelTrackers();
      run := [];
    }

    /** Zero compares each GPU with its own limit. */
    method SetPowerThresholdWatts(watts: nat)
      requires Valid()
      modifies this`powerThresholdWatts
      ensures Valid() && powerThresholdWatts == watts
    {
      powerThresholdWatts := watts;
    }

    method CounterGrew(key: CounterKey, r: Reading) returns (grew: bool)
      modifies this`baselines
      ensures grew == Rises(Held(old(baselines), key), r)
      ensures baselines == Noted(old(baselines), key, r)
    {
      var had, prev := key in baselines, if key in baselines then baselines[key] else 0;
      if !r.ok || r.value > MAX_UINT32 {
        baselines := baselines - {key};
        return false;
      }
      baselines := baselines[key := r.value];
      return had && r.value > prev;
    }

    method ClearBaselines(gpu: nat)
      modifies this`baselines
      ensures baselines == Cleared(old(baselines), gpu)
    {
      var keys := baselines.Keys;
      ghost var was := baselines;
      while keys != {}
        invariant keys <= was.Keys
        invariant forall key :: Held(baselines, key) ==
                    if key.gpu == gpu && key !in keys then None else Held(was, key)
        decreases |keys|
      {
        var key :| key in keys;
        if key.gpu == gpu {
          baselines := baselines - {key};
        }
        keys := keys - {key};
      }
      assert forall key :: Held(baselines, key) == Held(Cleared(was, gpu), key);
      assert forall key :: key in baselines <==> Held(baselines, key).Some?;
      assert forall key :: key in Cleared(was, gpu) <==> Held(Cleared(was, gpu), key).Some?;
    }

    /** Every NVLink total updates its baseline; the first that rose is reported. */
    method CheckNvlink(p: GpuPoll) returns (out: seq<Report>)
      requires forall field :: IsNvlink(field) ==>
                 Held(baselines, CounterKey(p.gpu, field)) == Held(p.base, CounterKey(p.gpu, field))
      modifies this`baselines
      ensures baselines == NvlinkNoted(p, old(baselines), |p.s.nvlink|)
      ensures out == FirstRisen(p, |p.s.nvlink|)
    {
      out := [];
      var reported := false;
      for i := 0 to |p.s.nvlink|
        invariant out == FirstRisen(p, i) && reported == (out != [])
        invariant baselines == NvlinkNoted(p, old(baselines), i)
        invariant forall j :: i <= j < |p.s.nvlink| ==>
                    Held(baselines, CounterKey(p.gpu, NVLINK_TOTALS[j])) == Held(p.base, CounterKey(p.gpu, NVLINK_TOTALS[j]))
      {
        assert PlaceOf(NVLINK_TOTALS[i]) == i;
        var grew := CounterGrew(CounterKey(p.gpu, NVLINK_TOTALS[i]), p.s.nvlink[i]);
        if grew && !reported {
          out := out + [NvlinkErrors(p.gpu, p.s.nvlink[i].value, NVLINK_TOTALS[i])];
          reported := true;
        }
      }
    }

    method PowerNow(s: GpuReadings) returns (watts: int, observed: bool, over: bool)
      ensures IsPower(s, powerThresholdWatts, Power(watts, observed, over))
    {
      PowerIsDetermined(s, powerThresholdWatts, PowerOf(s, powerThresholdWatts));
      if !s.powerMw.ok {
        return 0, false, false;
      }
      var limit := powerThresholdWatts;
      if limit == 0 {
        if !s.powerLimitMw.ok {
          return 0, false, false;
        }
        limit := s.powerLimitMw.value / 1000;
      }
      watts := s.powerMw.value / 1000;
      return watts, true, watts > limit;
    }

    method CheckLevels(p: GpuPoll) returns (out: seq<Report>)
      requires !p.s.lost && notified.Valid() && notified.tracked == p.tracked && p.threshold == powerThresholdWatts
      modifies notified
      ensures notified.Valid() && notified.tracked == TakenAfter(p)
      ensures notified.readings == old(notified.readings) + LevelsOf(p)
      ensures out == LevelReportsOf(p)
    {
      hide InForce, IsDue, Reports, TrackedAfter, PowerOf, IsPower;
      ghost var before := notified.readings;
      LevelsApart(p);
      var pagesObserved := p.s.retiredSbe.ok && p.s.retiredDbe.ok;
      var pages := (p.s.retiredSbe.value + p.s.retiredDbe.value) % U64;
      var due := notified.Report(p.at.pages, LevelKey(p.gpu, Policy("retiredPages")), pagesObserved, pages > MAX_RETIRED_PAGES);
      var retirement := if due then [Retirement(p.gpu, p.s.retiredSbe.value, p.s.retiredDbe.value)] else [];
      due := notified.Report(p.at.thermal, LevelKey(p.gpu, Policy("thermal")), p.s.temperature.ok,
        p.s.temperature.value > MAX_TEMPERATURE_C);
      var overheated := if due then [Overheated(p.gpu, p.s.temperature.value)] else [];
      var watts, powerObserved, overPower := PowerNow(p.s);
      PowerIsDetermined(p.s, p.threshold, Power(watts, powerObserved, overPower));
      due := notified.Report(p.at.power, LevelKey(p.gpu, Policy("power")), powerObserved, overPower);
      var powerDraw := if due then [PowerDraw(p.gpu, watts)] else [];
      OneByOne(before, PagesLevel(p), ThermalLevel(p), PowerLevel(p));
      return retirement + overheated + powerDraw;
    }

    /** Applies every policy to one GPU that is not lost. */
    method CheckPresent(p: GpuPoll) returns (out: seq<Report>)
      requires !p.s.lost && baselines == p.base
      requires notified.Valid() && notified.tracked == p.tracked && p.threshold == powerThresholdWatts
      modifies this`baselines, notified
      ensures baselines == BaseAfter(p)
      ensures notified.Valid() && notified.tracked == TakenAfter(p)
      ensures notified.readings == old(notified.readings) + LevelsOf(p)
      ensures out == GpuReports(p)
    {
      hide InForce, TakenAfter, LevelsOf, LevelReportsOf, FirstRisen, NvlinkNoted, Noted, Rises;
      NotedApart(p);
      out := [];
      var grew := CounterGrew(CounterKey(p.gpu, DBE_DEVICE), p.s.dbe);
      if grew {
        out := out + [DoubleBit(p.gpu, p.s.dbe.value)];
      }
      var links := CheckNvlink(p);
      out := out + links;
      var levels := CheckLevels(p);
      out := out + levels;
      grew := CounterGrew(CounterKey(p.gpu, PCIE_REPLAYS), p.s.pcieReplays);
      if grew {
        out := out + [Replays(p.gpu, p.s.pcieReplays.value)];
      }
    }

    method CheckGpu(p: GpuPoll) returns (out: seq<Report>)
      requires baselines == p.base
      requires notified.Valid() && notified.tracked == p.tracked && p.threshold == powerThresholdWatts
      modifies this`baselines, notified
      ensures baselines == BaseAfter(p)
      ensures notified.Valid() && notified.tracked == TakenAfter(p)
      ensures notified.readings == old(notified.readings) + LevelsOf(p)
      ensures out == GpuReports(p)
    {
      hide InForce;
      if p.s.lost {
        ClearBaselines(p.gpu);
        return [LostGpu(p.gpu)];
      }
      hide GpuReports, BaseAfter, TakenAfter, LevelsOf;
      out := CheckPresent(p);
    }

    /** Applies the policies to one poll's readings. */
    method Evaluate(samples: seq<GpuReadings>, clock: nat -> Times) returns (out: seq<Report>)
      requires Valid()
      modifies this`baselines, this`run, notified
      ensures Valid()
      ensures var n := NodePoll(samples, old(baselines), old(notified.tracked), clock, powerThresholdWatts);
              && out == PollReports(n) && run == old(run) + [n] && State(baselines, notified.tracked) == StateAt(n, |samples|)
              && notified.readings == old(notified.readings) + LevelsUpTo(n, |samples|)
    {
      hide IsRun, Leaves, InForce, BaseAfter, TakenAfter, GpuReports, LevelsOf;
      var n := NodePoll(samples, baselines, notified.tracked, clock, powerThresholdWatts);
      out := [];
      for i := 0 to |samples|
        invariant notified.Valid() && run == old(run)
        invariant State(baselines, notified.tracked) == StateAt(n, i)
        invariant out == ReportsUpTo(n, i)
        invariant notified.readings == old(notified.readings) + LevelsUpTo(n, i)
      {
        var reports := CheckGpu(GpuPoll(i, samples[i], baselines, notified.tracked, clock(i), powerThresholdWatts));
        out := out + reports;
      }
      RunStep(run, n);
      run := run + [n];
    }

    /** Reads every GPU once and evaluates the readings. It reads nothing when NVML is not initialized,
        when the call is stuck, or when the GPUs cannot be counted; then nothing changes. */
    method Poll(ready: bool, answered: bool, count: Return, devices: seq<Device>, clock: nat -> Times)
      returns (out: seq<Report>, ok: bool, ghost samples: seq<GpuReadings>)
      requires Valid()
      modifies this`baselines, this`run, notified
      ensures Valid() && ok == (ready && answered && count.Success?)
      ensures !ok ==> out == [] && unchanged(this) && unchanged(notified)
      ensures ok ==> ReadBy(samples, devices, powerThresholdWatts == 0)
      ensures ok ==>
                var n := NodePoll(samples, old(baselines), old(notified.tracked), clock, powerThresholdWatts);
                && out == PollReports(n) && run == old(run) + [n] && State(baselines, notified.tracked) == StateAt(n, |samples|)
                && notified.readings == old(notified.readings) + LevelsUpTo(n, |samples|)
    {
      samples := [];
      if !ready {
        return [], false, [];
      }
      var readLimit := powerThresholdWatts == 0;
      if !answered || !count.Success? {
        return [], false, [];
      }
      hide ReadBy;
      var gpus := ReadAll(devices, readLimit);
      out := Evaluate(gpus, clock);
      return out, true, gpus;
    }
  }
}
