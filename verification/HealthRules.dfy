/** The health rules as a function of one GPU's readings: what a poll reports, in order, and the
    rule behind each report. */
module HealthRules {
  import opened Monitor
  import opened Counters
  import opened LevelReports
  import opened DriverReads
  import opened HealthReader
  import opened Ber

  const MAX_RETIRED_TOTAL := 63
  const MAX_RETIRED_DBE := 15
  const MAX_UNCORRECTABLE_REMAPS := 512
  const AMPERE_COMPUTE_MAJOR := 8

  const ACTION_RESET := 1
  const ACTION_REBOOT := 2
  const ACTION_DRAIN_P2P := 3
  const ACTION_DRAIN_AND_RESET := 4

  /** What a report says beyond its code, as far as it tells reports apart. */
  datatype Detail = Plain | Amount(n: int) | Link(link: nat) | Grew(field: nat, growth: int) | BitErrors(rate: Rate)

  datatype Report = LostGpu(gpu: nat) | Coded(gpu: nat, code: int, fatal: bool, detail: Detail)

  /** One GPU in one poll: its readings, what holds for the whole poll, and what earlier polls left. */
  datatype GpuPoll = GpuPoll(
    gpu: nat,
    s: GpuHealth,
    anyMig: bool,
    inforom: Reading,
    base: Baselines,
    tracked: map<LevelKey, int>,
    now: int)

  function GrowthOf(p: GpuPoll, field: nat): Option<u64>
    requires field < |p.s.fields|
  {
    Growth(Held(p.base, CounterKey(p.gpu, field)), p.s.fields[field])
  }

  function Or0(n: Option<u64>): u64 {
    if n.Some? then n.value else 0
  }

  /** Retired pages in 64 bits: the sum wraps around. A count that was not read adds zero. */
  function Retired(s: GpuHealth): u64
    requires |s.fields| == NUM_FIELDS
  {
    (s.fields[RETIRED_SBE].value + s.fields[RETIRED_DBE].value) % U64
  }

  /** The recovery action is narrowed to a 32-bit enumeration before it is compared. */
  function ActionOf(r: Reading): int {
    r.value % U32
  }

  // ---------------------------------------------------------------------------
  // Warnings: levels that are rate-limited
  // ---------------------------------------------------------------------------

  datatype Level = Level(observed: bool, over: bool, detail: Detail)

  const NO_LEVEL := Level(false, false, Plain)

  const WARNING_CODES: set<int> := {6, 9, 10, 11, 12, 71, 127, 132}

  /** What the readings say about each warning's level. */
  function LevelOf(p: GpuPoll, code: int): Level
    requires |p.s.fields| == NUM_FIELDS
  {
    var f := p.s.fields;
    match code
    case 6 => Level(f[RETIRED_PENDING].ok, f[RETIRED_PENDING].value != 0, Plain)
    case 9 => Level(p.inforom.ok, p.inforom.value != 0, Plain)
    case 10 => SlowdownLevel(GrowthOf(p, THERMAL_VIOLATION))
    case 11 => Level(p.s.powerUnreadable.ok, p.s.powerUnreadable.value != 0, Plain)
    case 12 => SlowdownLevel(GrowthOf(p, POWER_VIOLATION))
    case 71 =>
      var succeeded := f[NVLINK_RECOVERY_SUCCEEDED];
      if IsBlackwell(p.s.computeMajor) then Level(succeeded.ok, succeeded.value > 0, Amount(succeeded.value)) else NO_LEVEL
    case 127 => Level(f[RECOVERY_ACTION].ok, f[RECOVERY_ACTION].value == ACTION_DRAIN_P2P, Plain)
    case 132 =>
      var unc := f[REMAP_UNCORRECTABLE];
      Level(
        unc.ok && p.s.computeMajor.ok,
        p.s.computeMajor.value >= AMPERE_COMPUTE_MAJOR && unc.value >= MAX_UNCORRECTABLE_REMAPS,
        Amount(unc.value))
    case _ => NO_LEVEL
  }

  function SlowdownLevel(growth: Option<u64>): Level {
    Level(growth.Some?, Or0(growth) > 0, Amount(Or0(growth)))
  }

  function KeyOf(gpu: nat, code: int): LevelKey {
    LevelKey(gpu, HealthCode(code))
  }

  predicate Warns(p: GpuPoll, code: int, level: Level) {
    level.observed && level.over && IsDue(p.tracked, KeyOf(p.gpu, code), p.now)
  }

  function WarnedAt(p: GpuPoll, code: int, level: Level): seq<Report> {
    if Warns(p, code, level) then [Coded(p.gpu, code, false, level.detail)] else []
  }

  function Warned(p: GpuPoll, code: int): seq<Report>
    requires |p.s.fields| == NUM_FIELDS
  {
    WarnedAt(p, code, LevelOf(p, code))
  }

  // ---------------------------------------------------------------------------
  // Reports, in order
  // ---------------------------------------------------------------------------

  function Failed(p: GpuPoll, code: int, detail: Detail, when: bool): seq<Report> {
    if when then [Coded(p.gpu, code, true, detail)] else []
  }

  function RetirementReports(p: GpuPoll): seq<Report>
    requires |p.s.fields| == NUM_FIELDS
  {
    var dbe := p.s.fields[RETIRED_DBE];
    if Retired(p.s) >= MAX_RETIRED_TOTAL then Failed(p, 7, Amount(Retired(p.s)), true)
    else Failed(p, 8, Amount(dbe.value), dbe.ok && dbe.value > MAX_RETIRED_DBE)
  }

  function MemoryReports(p: GpuPoll): seq<Report>
    requires |p.s.fields| == NUM_FIELDS
  {
    var dbe := p.s.fields[DBE_VOLATILE];
    Failed(p, 4, Amount(dbe.value), dbe.ok && dbe.value > 0) + Warned(p, 6) + RetirementReports(p)
  }

  function ClockReports(p: GpuPoll): seq<Report>
    requires |p.s.fields| == NUM_FIELDS
  {
    Warned(p, 10) + Warned(p, 12)
  }

  function DownReports(p: GpuPoll): (out: seq<Report>)
    ensures !p.anyMig ==> |out| == |p.s.linksDown|
    ensures !p.anyMig ==> forall k :: 0 <= k < |out| ==> out[k] == Coded(p.gpu, 14, true, Link(p.s.linksDown[k]))
  {
    if p.anyMig then []
    else seq(|p.s.linksDown|, k requires 0 <= k < |p.s.linksDown| => Coded(p.gpu, 14, true, Link(p.s.linksDown[k])))
  }

  /** The NVLink error counters before the given field. */
  function GrowthReports(p: GpuPoll, before: nat): seq<Report>
    requires |p.s.fields| == NUM_FIELDS && FIRST_NVLINK_COUNTER <= before <= NVLINK_ECC_ERRORS + 1
  {
    if before == FIRST_NVLINK_COUNTER then []
    else
      var n := Or0(GrowthOf(p, before - 1));
      GrowthReports(p, before - 1) + Failed(p, 71, Grew(before - 1, n), n > 0)
  }

  function RecoveryReports(p: GpuPoll): seq<Report>
    requires |p.s.fields| == NUM_FIELDS
  {
    var failed := p.s.fields[NVLINK_RECOVERY_FAILED];
    if IsBlackwell(p.s.computeMajor) then
      Failed(p, 71, Amount(failed.value), failed.ok && failed.value > 0) + Warned(p, 71)
    else []
  }

  function BerReports(p: GpuPoll): seq<Report>
    requires |p.s.fields| == NUM_FIELDS
  {
    var effective, symbol := p.s.fields[NVLINK_EFFECTIVE_BER], p.s.fields[NVLINK_SYMBOL_BER];
    Failed(p, 119, BitErrors(BerParts(effective.value)), effective.ok && EffectiveBerExceeded(BerParts(effective.value))) +
    Failed(p, 121, BitErrors(BerParts(symbol.value)), symbol.ok && SymbolBerExceeded(BerParts(symbol.value), FloorOf(p.s)))
  }

  function FloorOf(s: GpuHealth): nat {
    if IsBlackwell(s.computeMajor) then SYMBOL_FLOOR_SUMMED else SYMBOL_FLOOR
  }

  function RepairReports(p: GpuPoll): seq<Report>
    requires |p.s.fields| == NUM_FIELDS
  {
    var failed := p.s.fields[REMAP_FAILURE];
    Failed(p, 80, Plain, failed.ok && failed.value > 0) + Warned(p, 132) +
    Failed(p, 52, Plain, p.s.unrepairable.ok && p.s.unrepairable.value != 0)
  }

  function ActionReports(p: GpuPoll): seq<Report>
    requires |p.s.fields| == NUM_FIELDS
  {
    var action := p.s.fields[RECOVERY_ACTION];
    if !action.ok then []
    else if ActionOf(action) == ACTION_RESET then Failed(p, 125, Plain, true)
    else if ActionOf(action) == ACTION_REBOOT then Failed(p, 126, Plain, true)
    else Failed(p, 128, Plain, ActionOf(action) == ACTION_DRAIN_AND_RESET)
  }

  function StatusReports(p: GpuPoll): seq<Report>
    requires |p.s.fields| == NUM_FIELDS
  {
    Warned(p, 9) + Warned(p, 11) + ActionReports(p) + Warned(p, 127)
  }

  function LinkReports(p: GpuPoll): seq<Report>
    requires |p.s.fields| == NUM_FIELDS
  {
    DownReports(p) + GrowthReports(p, NVLINK_ECC_ERRORS + 1)
  }

  function LaterReports(p: GpuPoll): seq<Report>
    requires |p.s.fields| == NUM_FIELDS
  {
    RecoveryReports(p) + BerReports(p) + RepairReports(p) + StatusReports(p)
  }

  function GpuReports(p: GpuPoll): seq<Report>
    requires |p.s.fields| == NUM_FIELDS
  {
    if p.s.lost then [LostGpu(p.gpu)]
    else MemoryReports(p) + ClockReports(p) + LinkReports(p) + LaterReports(p)
  }

  // ---------------------------------------------------------------------------
  // The rules: one per code
  // ---------------------------------------------------------------------------

  /** The rule of each Fatal code, on the readings. */
  predicate FatalRule(p: GpuPoll, code: int, d: Detail)
    requires |p.s.fields| == NUM_FIELDS
  {
    var f := p.s.fields;
    var pages := (f[RETIRED_SBE].value + f[RETIRED_DBE].value) % U64;
    var blackwell := p.s.computeMajor.ok && p.s.computeMajor.value >= BLACKWELL_COMPUTE_MAJOR;
    match code
    case 4 => f[DBE_VOLATILE].ok && f[DBE_VOLATILE].value > 0 && d == Amount(f[DBE_VOLATILE].value)
    case 7 => pages >= MAX_RETIRED_TOTAL && d == Amount(pages)
    case 8 =>
      && pages < MAX_RETIRED_TOTAL
      && f[RETIRED_DBE].ok && f[RETIRED_DBE].value > MAX_RETIRED_DBE && d == Amount(f[RETIRED_DBE].value)
    case 14 => !p.anyMig && d.Link? && d.link in p.s.linksDown
    case 52 => p.s.unrepairable.ok && p.s.unrepairable.value != 0 && d == Plain
    case 71 =>
      || (d.Grew? && FIRST_NVLINK_COUNTER <= d.field <= NVLINK_ECC_ERRORS && GrowthOf(p, d.field) == Some(d.growth) && d.growth > 0)
      || (&& blackwell && d == Amount(f[NVLINK_RECOVERY_FAILED].value)
          && f[NVLINK_RECOVERY_FAILED].ok && f[NVLINK_RECOVERY_FAILED].value > 0)
    case 80 => f[REMAP_FAILURE].ok && f[REMAP_FAILURE].value > 0 && d == Plain
    case 119 => ExceedsBer(f[NVLINK_EFFECTIVE_BER], d) && EffectiveBerExceeded(d.rate)
    case 121 =>
      ExceedsBer(f[NVLINK_SYMBOL_BER], d) && SymbolBerExceeded(d.rate, if blackwell then SYMBOL_FLOOR_SUMMED else SYMBOL_FLOOR)
    case 125 => NarrowsTo(f[RECOVERY_ACTION], ACTION_RESET) && d == Plain
    case 126 => NarrowsTo(f[RECOVERY_ACTION], ACTION_REBOOT) && d == Plain
    case 128 => NarrowsTo(f[RECOVERY_ACTION], ACTION_DRAIN_AND_RESET) && d == Plain
    case _ => false
  }

  /** The action was observed, and its low 32 bits are n. */
  predicate NarrowsTo(r: Reading, n: int) {
    r.ok && r.value % U32 == n
  }

  /** The rule of each warning code, on the readings: when it would be reported if it is due. */
  predicate WarningRule(p: GpuPoll, code: int, d: Detail)
    requires |p.s.fields| == NUM_FIELDS
  {
    var f := p.s.fields;
    var major := p.s.computeMajor;
    match code
    case 6 => f[RETIRED_PENDING].ok && f[RETIRED_PENDING].value != 0 && d == Plain
    case 9 => p.inforom.ok && p.inforom.value != 0 && d == Plain
    case 10 => SlowedDown(p, THERMAL_VIOLATION, d)
    case 11 => p.s.powerUnreadable.ok && p.s.powerUnreadable.value != 0 && d == Plain
    case 12 => SlowedDown(p, POWER_VIOLATION, d)
    case 71 =>
      && major.ok && major.value >= BLACKWELL_COMPUTE_MAJOR
      && f[NVLINK_RECOVERY_SUCCEEDED].ok && f[NVLINK_RECOVERY_SUCCEEDED].value > 0
      && d == Amount(f[NVLINK_RECOVERY_SUCCEEDED].value)
    case 127 => f[RECOVERY_ACTION].ok && f[RECOVERY_ACTION].value == ACTION_DRAIN_P2P && d == Plain
    case 132 =>
      && major.ok && major.value >= AMPERE_COMPUTE_MAJOR
      && f[REMAP_UNCORRECTABLE].ok && f[REMAP_UNCORRECTABLE].value >= MAX_UNCORRECTABLE_REMAPS
      && d == Amount(f[REMAP_UNCORRECTABLE].value)
    case _ => false
  }

  /** The time spent slowed down, a counter, is above its baseline, by the amount reported. */
  predicate SlowedDown(p: GpuPoll, field: nat, d: Detail)
    requires field < |p.s.fields|
  {
    var r, key := p.s.fields[field], CounterKey(p.gpu, field);
    r.ok && key in p.base && r.value > p.base[key] && d == Amount(r.value - p.base[key])
  }

  predicate ExceedsBer(r: Reading, d: Detail) {
    r.ok && d == BitErrors(BerParts(r.value))
  }

  predicate Rule(p: GpuPoll, r: Report)
    requires |p.s.fields| == NUM_FIELDS
  {
    && r.Coded? && r.gpu == p.gpu
    && if r.fatal then FatalRule(p, r.code, r.detail)
       else WarningRule(p, r.code, r.detail) && IsDue(p.tracked, KeyOf(p.gpu, r.code), p.now)
  }

  /** The readings that a warning's level needs were observed. */
  predicate IsObserved(p: GpuPoll, code: int)
    requires |p.s.fields| == NUM_FIELDS
  {
    var f := p.s.fields;
    match code
    case 6 => f[RETIRED_PENDING].ok
    case 9 => p.inforom.ok
    case 10 => f[THERMAL_VIOLATION].ok && CounterKey(p.gpu, THERMAL_VIOLATION) in p.base
    case 11 => p.s.powerUnreadable.ok
    case 12 => f[POWER_VIOLATION].ok && CounterKey(p.gpu, POWER_VIOLATION) in p.base
    case 71 => f[NVLINK_RECOVERY_SUCCEEDED].ok && p.s.computeMajor.ok && p.s.computeMajor.value >= BLACKWELL_COMPUTE_MAJOR
    case 127 => f[RECOVERY_ACTION].ok
    case 132 => f[REMAP_UNCORRECTABLE].ok && p.s.computeMajor.ok
    case _ => false
  }

  /** A level is observed when its readings are; it is then over its limit exactly when the rule holds,
      and clean otherwise. */
  lemma LevelsAreTheReadings(p: GpuPoll, code: int, d: Detail)
    requires |p.s.fields| == NUM_FIELDS
    ensures LevelOf(p, code).observed <==> IsObserved(p, code)
    ensures LevelOf(p, code).observed && LevelOf(p, code).over && LevelOf(p, code).detail == d <==> WarningRule(p, code, d)
  {
  }

  predicate Among(r: Report, fatal: set<int>, warning: set<int>) {
    r.Coded? && if r.fatal then r.code in fatal else r.code in warning
  }

  lemma WarnedIsExact(p: GpuPoll, code: int, r: Report)
    requires |p.s.fields| == NUM_FIELDS && code in WARNING_CODES
    ensures r in Warned(p, code) <==> Among(r, {}, {code}) && Rule(p, r)
  {
  }

  lemma MemoryIsExact(p: GpuPoll, r: Report)
    requires |p.s.fields| == NUM_FIELDS
    ensures r in MemoryReports(p) <==> Among(r, {4, 7, 8}, {6}) && Rule(p, r)
  {
    WarnedIsExact(p, 6, r);
    hide Warned, LevelOf, Warns;
  }

  lemma ClockIsExact(p: GpuPoll, r: Report)
    requires |p.s.fields| == NUM_FIELDS
    ensures r in ClockReports(p) <==> Among(r, {}, {10, 12}) && Rule(p, r)
  {
    WarnedIsExact(p, 10, r);
    WarnedIsExact(p, 12, r);
    hide Warned, Rule;
  }

  lemma {:induction false} GrowthIsExact(p: GpuPoll, before: nat, r: Report)
    requires |p.s.fields| == NUM_FIELDS && FIRST_NVLINK_COUNTER <= before <= NVLINK_ECC_ERRORS + 1
    ensures r in GrowthReports(p, before) <==>
            Among(r, {71}, {}) && r.detail.Grew? && r.detail.field < before && Rule(p, r)
    decreases before
  {
    if before > FIRST_NVLINK_COUNTER {
      GrowthIsExact(p, before - 1, r);
    }
  }

  lemma NvlinkIsExact(p: GpuPoll, r: Report)
    requires |p.s.fields| == NUM_FIELDS
    ensures r in LinkReports(p) || r in RecoveryReports(p) <==>
            Among(r, {14, 71}, {71}) && Rule(p, r)
  {
    DownIsExact(p, r);
    GrowthIsExact(p, NVLINK_ECC_ERRORS + 1, r);
    WarnedIsExact(p, 71, r);
    hide Warned, GrowthReports, DownReports, GrowthOf;
  }

  lemma DownIsExact(p: GpuPoll, r: Report)
    requires |p.s.fields| == NUM_FIELDS
    ensures r in DownReports(p) <==> Among(r, {14}, {}) && Rule(p, r)
  {
    if r in DownReports(p) {
      var k :| 0 <= k < |DownReports(p)| && DownReports(p)[k] == r;
      assert r.detail.link == p.s.linksDown[k];
    }
    if Among(r, {14}, {}) && Rule(p, r) {
      var k :| 0 <= k < |p.s.linksDown| && p.s.linksDown[k] == r.detail.link;
      assert DownReports(p)[k] == r;
    }
  }

  lemma BerIsExact(p: GpuPoll, r: Report)
    requires |p.s.fields| == NUM_FIELDS
    ensures r in BerReports(p) <==> Among(r, {119, 121}, {}) && Rule(p, r)
  {
    hide BerParts, EffectiveBerExceeded, SymbolBerExceeded;
  }

  lemma RepairIsExact(p: GpuPoll, r: Report)
    requires |p.s.fields| == NUM_FIELDS
    ensures r in RepairReports(p) <==> Among(r, {52, 80}, {132}) && Rule(p, r)
  {
    WarnedIsExact(p, 132, r);
    hide Warned, LevelOf, Warns;
  }

  lemma StatusIsExact(p: GpuPoll, r: Report)
    requires |p.s.fields| == NUM_FIELDS
    ensures r in StatusReports(p) <==> Among(r, {125, 126, 128}, {9, 11, 127}) && Rule(p, r)
  {
    WarnedIsExact(p, 9, r);
    WarnedIsExact(p, 11, r);
    WarnedIsExact(p, 127, r);
    hide Warned, LevelOf, Warns;
  }

  /** A GPU that is not lost gets exactly the reports whose rule holds. */
  lemma ReportsFollowTheRules(p: GpuPoll, r: Report)
    requires |p.s.fields| == NUM_FIELDS && !p.s.lost
    ensures r in GpuReports(p) <==> Rule(p, r)
  {
    MemoryIsExact(p, r);
    ClockIsExact(p, r);
    NvlinkIsExact(p, r);
    BerIsExact(p, r);
    RepairIsExact(p, r);
    StatusIsExact(p, r);
    OnlyTheCodes(p, r);
    hide MemoryReports, ClockReports, DownReports, GrowthReports, RecoveryReports, BerReports, RepairReports, StatusReports, Rule;
  }

  lemma OnlyTheCodes(p: GpuPoll, r: Report)
    requires |p.s.fields| == NUM_FIELDS
    ensures Rule(p, r) ==> Among(r, {4, 7, 8, 14, 71, 119, 121, 52, 80, 125, 126, 128}, WARNING_CODES)
  {
  }

  // ---------------------------------------------------------------------------
  // What the rules amount to
  // ---------------------------------------------------------------------------

  /** The reading a Fatal code is about was observed in this poll. For growth, the counter's
      baseline was too. */
  predicate RestsOnAReading(p: GpuPoll, r: Report)
    requires |p.s.fields| == NUM_FIELDS && r.Coded?
  {
    var f := p.s.fields;
    match r.code
    case 4 => f[DBE_VOLATILE].ok
    case 7 => f[RETIRED_SBE].ok || f[RETIRED_DBE].ok
    case 8 => f[RETIRED_DBE].ok
    case 14 => f[NVLINK_COUNT].ok && !p.s.mig && r.detail.Link? && r.detail.link in p.s.linksDown
    case 52 => p.s.unrepairable.ok
    case 71 =>
      if r.detail.Grew? then r.detail.field < NUM_FIELDS && f[r.detail.field].ok && CounterKey(p.gpu, r.detail.field) in p.base
      else f[NVLINK_RECOVERY_FAILED].ok && p.s.computeMajor.ok
    case 80 => f[REMAP_FAILURE].ok
    case 119 => f[NVLINK_EFFECTIVE_BER].ok && p.s.computeMajor.ok
    case 121 => f[NVLINK_SYMBOL_BER].ok && p.s.computeMajor.ok
    case 125 => f[RECOVERY_ACTION].ok
    case 126 => f[RECOVERY_ACTION].ok
    case 128 => f[RECOVERY_ACTION].ok
    case _ => false
  }

  lemma FatalRuleRests(p: GpuPoll, r: Report)
    requires WellRead(p.s) && r.Coded? && FatalRule(p, r.code, r.detail)
    ensures RestsOnAReading(p, r)
  {
    hide BerParts, EffectiveBerExceeded, SymbolBerExceeded;
    if r.code == 7 {
      assert ZeroUnlessRead(p.s.fields[RETIRED_SBE]) && ZeroUnlessRead(p.s.fields[RETIRED_DBE]);
    } else if r.code == 71 || r.code == 119 || r.code == 121 {
      hide Retired;
      assert forall f :: 0 <= f < NUM_FIELDS && IsNvlink5(f) && p.s.fields[f].ok ==> p.s.computeMajor.ok;
    }
  }

  /** Every Fatal is justified: a lost GPU has its one report and nothing else; any other Fatal
      rests on a reading observed in this poll. */
  lemma FatalsAreJustified(p: GpuPoll, r: Report)
    requires WellRead(p.s)
    ensures r in GpuReports(p) ==>
              && (r.LostGpu? <==> p.s.lost)
              && (p.s.lost ==> GpuReports(p) == [r])
              && (r.Coded? && r.fatal ==> RestsOnAReading(p, r))
  {
    if !p.s.lost {
      hide GpuReports, FatalRule, RestsOnAReading;
      ReportsFollowTheRules(p, r);
      if r in GpuReports(p) && r.fatal {
        FatalRuleRests(p, r);
      }
    }
  }

  lemma UnreadLevel(p: GpuPoll, code: int)
    requires p.s == NothingRead(false) && !p.inforom.ok
    ensures !LevelOf(p, code).observed
  {
  }

  /** A poll that observed nothing about a GPU reports nothing about it. */
  lemma NothingReadNothingReported(p: GpuPoll)
    requires p.s == NothingRead(false) && !p.inforom.ok
    ensures GpuReports(p) == []
  {
    if GpuReports(p) != [] {
      var r := GpuReports(p)[0];
      UnreadLevel(p, if r.Coded? then r.code else 0);
      ReportsFollowTheRules(p, r);
      FatalsAreJustified(p, r);
      hide GpuReports, FatalRule, LevelOf;
    }
  }

  /** The retired-page limit compares a 64-bit sum: it is the comparison of the true sum, except
      when that sum wraps around to fewer than 63 pages. */
  lemma RetiredPagesWrap(s: GpuHealth)
    requires |s.fields| == NUM_FIELDS
    ensures var pages := s.fields[RETIRED_SBE].value + s.fields[RETIRED_DBE].value;
            (Retired(s) >= MAX_RETIRED_TOTAL <==> pages >= MAX_RETIRED_TOTAL)
            <==> !(U64 <= pages < U64 + MAX_RETIRED_TOTAL)
  {
  }

  predicate Reports(p: GpuPoll, code: int)
    requires |p.s.fields| == NUM_FIELDS
  {
    Coded(p.gpu, code, true, Plain) in GpuReports(p)
  }

  /** The value is n, or n plus some multiple of 2^32. */
  predicate IsCopyOf(value: int, q: nat, n: int) {
    value == q * 0x1_0000_0000 + n
  }

  /** Recovery action 1 asks for code 125, 2 for 126 and 4 for 128, and so does every value that
      narrows to the action: exactly those. */
  lemma ActionsAreReported(p: GpuPoll)
    requires |p.s.fields| == NUM_FIELDS && !p.s.lost
    ensures var action := p.s.fields[RECOVERY_ACTION];
            && (Reports(p, 125) <==> action.ok && exists q: nat :: IsCopyOf(action.value, q, 1))
            && (Reports(p, 126) <==> action.ok && exists q: nat :: IsCopyOf(action.value, q, 2))
            && (Reports(p, 128) <==> action.ok && exists q: nat :: IsCopyOf(action.value, q, 4))
  {
    hide GpuReports;
    forall code | code == 125 || code == 126 || code == 128
      ensures Reports(p, code) <==> FatalRule(p, code, Plain)
    {
      ReportsFollowTheRules(p, Coded(p.gpu, code, true, Plain));
    }
    hide *;
    var value := p.s.fields[RECOVERY_ACTION].value;
    CopiesNarrow(value, 1);
    CopiesNarrow(value, 2);
    CopiesNarrow(value, 4);
  }

  lemma CopiesNarrow(value: u64, n: nat)
    requires n < U32
    ensures value % U32 == n <==> exists q: nat :: IsCopyOf(value, q, n)
  {
    if value % U32 == n {
      assert IsCopyOf(value, value / U32, n);
    }
    if q: nat :| IsCopyOf(value, q, n) {
      assert value % U32 == n;
    }
  }

  /** A known action that is none of them: no recovery needed (0), and draining (3), are not Fatal. */
  lemma OtherActionsAreNotFatal(p: GpuPoll)
    requires |p.s.fields| == NUM_FIELDS && !p.s.lost && p.s.fields[RECOVERY_ACTION].value in {0, 3}
    ensures !Reports(p, 125) && !Reports(p, 126) && !Reports(p, 128)
  {
    hide GpuReports;
    ActionsAreReported(p);
  }

  /** Recovery actions above 4 are ignored, as documented, exactly unless they narrow to an action that
      is not. */
  lemma NewerActionsAreIgnored(p: GpuPoll)
    requires |p.s.fields| == NUM_FIELDS && !p.s.lost
    requires p.s.fields[RECOVERY_ACTION].ok && p.s.fields[RECOVERY_ACTION].value > 4
    ensures var value := p.s.fields[RECOVERY_ACTION].value;
            !Reports(p, 125) && !Reports(p, 126) && !Reports(p, 128) && Coded(p.gpu, 127, false, Plain) !in GpuReports(p)
            <==> forall q: nat :: !IsCopyOf(value, q, 1) && !IsCopyOf(value, q, 2) && !IsCopyOf(value, q, 4)
  {
    hide GpuReports, IsCopyOf;
    ActionsAreReported(p);
    ReportsFollowTheRules(p, Coded(p.gpu, 127, false, Plain));
  }
}
