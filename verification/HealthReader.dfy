/** Reads one GPU's health values from the driver, and what a value that was not read looks like. */
module HealthReader {
  import opened Counters
  import opened DriverReads
  import opened ReturnCodes

  // Indexes of the field values.
  const DBE_VOLATILE := 0
  const RETIRED_PENDING := 1
  const RETIRED_SBE := 2
  const RETIRED_DBE := 3
  const REMAP_FAILURE := 4
  const REMAP_UNCORRECTABLE := 5
  const RECOVERY_ACTION := 6
  const THERMAL_VIOLATION := 7
  const POWER_VIOLATION := 8
  const NVLINK_COUNT := 9
  const FIRST_NVLINK_COUNTER := 10  // symbol errors; the ten error counters are consecutive
  const NVLINK_ECC_ERRORS := 19     // the last of them
  const NVLINK_EFFECTIVE_BER := 20
  const NVLINK_SYMBOL_BER := 21
  const NVLINK_RECOVERY_SUCCEEDED := 22
  const NVLINK_RECOVERY_FAILED := 23
  const NUM_FIELDS := 24

  const BLACKWELL_COMPUTE_MAJOR := 10
  const MIG_ENABLED := 1
  const FEATURE_DISABLED := 0
  const MAX_LINKS := 18

  // ---------------------------------------------------------------------------
  // The driver's answers, and what each of them makes a reading of
  // ---------------------------------------------------------------------------

  /** Everything the driver would answer about one GPU in one poll. Asked for the summed scope, a
      field value can differ. */
  datatype Device = Device(
    handle: Return,
    computeMajor: Answer,
    fieldsReturn: Return,
    fieldValue: (nat, bool) -> FieldValue,
    power: Return,
    unrepairable: Answer,
    mig: Answer,
    linkState: nat -> Answer,
    inforom: Return)

  /** One poll's values for one GPU. */
  datatype GpuHealth = GpuHealth(
    lost: bool,
    fields: seq<Reading>,
    powerUnreadable: Reading,
    unrepairable: Reading,
    computeMajor: Reading,
    inforom: Reading,
    mig: bool,
    linksDown: seq<nat>)

  function NoFields(): (fields: seq<Reading>)
    ensures |fields| == NUM_FIELDS && forall f :: 0 <= f < NUM_FIELDS ==> fields[f] == UNREAD
  {
    seq(NUM_FIELDS, _ => UNREAD)
  }

  function NothingRead(lost: bool): GpuHealth {
    GpuHealth(lost, NoFields(), UNREAD, UNREAD, UNREAD, UNREAD, false, [])
  }

  predicate IsNvlink5(f: int) {
    FIRST_NVLINK_COUNTER <= f < NUM_FIELDS && f != NVLINK_ECC_ERRORS
  }

  predicate IsBlackwell(major: Reading) {
    major.ok && major.value >= BLACKWELL_COMPUTE_MAJOR
  }

  /** A NVLink5 field is asked for only when the architecture, and so its scope, is known. */
  predicate Asked(dev: Device, f: nat) {
    IsNvlink5(f) ==> dev.computeMajor.ret.Success?
  }

  function ValueOf(dev: Device, f: nat): FieldValue {
    dev.fieldValue(f, IsNvlink5(f) && IsBlackwell(Observe(dev.computeMajor)))
  }

  function FieldReading(dev: Device, f: nat): Reading {
    if dev.fieldsReturn.Success? && Asked(dev, f) && ValueOf(dev, f).ret.Success? then FieldValueUint(ValueOf(dev, f))
    else UNREAD
  }

  predicate IsInMig(dev: Device) {
    dev.mig.ret.Success? && dev.mig.value == MIG_ENABLED
  }

  /** The links whose state is asked for. */
  function Links(dev: Device): nat {
    var count := FieldReading(dev, NVLINK_COUNT);
    if IsInMig(dev) || !count.ok then 0 else if count.value < MAX_LINKS then count.value else MAX_LINKS
  }

  predicate IsDown(dev: Device, link: nat) {
    dev.linkState(link) == Answer(FEATURE_DISABLED, Success)
  }

  predicate ValueLost(dev: Device, f: nat) {
    Asked(dev, f) && ValueOf(dev, f).ret.GpuIsLost?
  }

  predicate LinkLost(dev: Device, link: nat) {
    dev.linkState(link).ret.GpuIsLost?
  }

  predicate FieldsLost(dev: Device) {
    || dev.fieldsReturn.GpuIsLost?
    || (dev.fieldsReturn.Success? && exists f :: 0 <= f < NUM_FIELDS && ValueLost(dev, f))
  }

  predicate LinksLost(dev: Device, links: nat) {
    exists link :: 0 <= link < links && LinkLost(dev, link)
  }

  /** Some call made for the GPU answers that it is lost. */
  predicate AnswersLost(dev: Device, hasUnrepairable: bool, validate: bool) {
    || dev.handle.GpuIsLost?
    || (dev.handle.Success?
        && (|| dev.computeMajor.ret.GpuIsLost?
            || FieldsLost(dev)
            || dev.power.GpuIsLost?
            || (hasUnrepairable && dev.unrepairable.ret.GpuIsLost?)
            || dev.mig.ret.GpuIsLost?
            || LinksLost(dev, Links(dev))
            || (validate && dev.inforom.GpuIsLost?)))
  }

  predicate Ascending(s: seq<nat>) {
    forall i, j :: 0 <= i < j < |s| ==> s[i] < s[j]
  }

  /** The links that read disabled, in order. */
  ghost predicate DownLinks(down: seq<nat>, dev: Device) {
    Ascending(down) && forall link: nat :: link in down <==> link < Links(dev) && IsDown(dev, link)
  }

  /** Every value is the driver's answer about it, or not read. */
  ghost predicate ReadFrom(g: GpuHealth, dev: Device, hasUnrepairable: bool, validate: bool) {
    && !g.lost
    && |g.fields| == NUM_FIELDS
    && (forall f :: 0 <= f < NUM_FIELDS ==> g.fields[f] == FieldReading(dev, f))
    && g.computeMajor == Observe(dev.computeMajor)
    && g.powerUnreadable == Reading(if dev.power.Success? || dev.power.NotSupported? then 0 else 1, true)
    && g.unrepairable == (if hasUnrepairable then Observe(dev.unrepairable) else UNREAD)
    && g.mig == IsInMig(dev)
    && DownLinks(g.linksDown, dev)
    && g.inforom == (if !validate then UNREAD
                     else if dev.inforom.CorruptedInforom? then Reading(1, true)
                     else Observe(Answer(0, dev.inforom)))
  }

  /** Everything is the driver's answers, unless one of them says the GPU is lost or there is no handle. */
  ghost predicate IsReadingOf(g: GpuHealth, dev: Device, hasUnrepairable: bool, validate: bool) {
    if AnswersLost(dev, hasUnrepairable, validate) then g == NothingRead(true)
    else if !dev.handle.Success? then g == NothingRead(false)
    else ReadFrom(g, dev, hasUnrepairable, validate)
  }

  /** What the rules may rely on: a value that was not read is zero, a lost GPU has no values, a
      link is down only where links were counted, and a NVLink5 field is only known beside the
      architecture it was read for. */
  ghost predicate WellRead(g: GpuHealth) {
    && |g.fields| == NUM_FIELDS
    && (forall f :: 0 <= f < NUM_FIELDS ==> ZeroUnlessRead(g.fields[f]))
    && (forall f :: 0 <= f < NUM_FIELDS && IsNvlink5(f) && g.fields[f].ok ==> g.computeMajor.ok)
    && ZeroUnlessRead(g.powerUnreadable) && ZeroUnlessRead(g.unrepairable)
    && ZeroUnlessRead(g.computeMajor) && ZeroUnlessRead(g.inforom)
    && (g.linksDown != [] ==> g.fields[NVLINK_COUNT].ok && |g.linksDown| <= g.fields[NVLINK_COUNT].value && !g.mig)
    && (g.lost ==> g == NothingRead(true))
  }

  /** An ascending sequence of naturals below a bound is no longer than the bound. */
  lemma {:induction false} AscendingIsBounded(s: seq<nat>, bound: nat)
    requires Ascending(s) && forall x :: x in s ==> x < bound
    ensures |s| <= bound
  {
    if s != [] {
      var last := s[|s| - 1];
      assert last in s;
      var before := s[..|s| - 1];
      forall x | x in before
        ensures x < last
      {
        var i :| 0 <= i < |before| && before[i] == x;
        assert s[i] < s[|s| - 1];
      }
      AscendingIsBounded(before, last);
    }
  }

  lemma ReadingsAreWellRead(g: GpuHealth, dev: Device, hasUnrepairable: bool, validate: bool)
    requires IsReadingOf(g, dev, hasUnrepairable, validate)
    ensures WellRead(g)
    ensures g.lost <==> AnswersLost(dev, hasUnrepairable, validate)
  {
    if AnswersLost(dev, hasUnrepairable, validate) || !dev.handle.Success? {
      return;
    }
    forall f | 0 <= f < NUM_FIELDS
      ensures ZeroUnlessRead(g.fields[f])
      ensures IsNvlink5(f) && g.fields[f].ok ==> g.computeMajor.ok
    {
      assert g.fields[f] == FieldReading(dev, f);
    }
    assert g.fields[NVLINK_COUNT] == FieldReading(dev, NVLINK_COUNT);
    AscendingIsBounded(g.linksDown, Links(dev));
    if g.linksDown != [] {
      assert g.linksDown[0] in g.linksDown;
    }
  }

  /** The NVLink5 fields: 10 to 18 and 20 to 23. Only they are asked for by scope, and only once the
      architecture is known: summed over the links from major version 10 on. */
  predicate IsScoped(f: nat) {
    10 <= f <= 23 && f != 19
  }

  predicate IsSummed(f: nat, major: Answer) {
    IsScoped(f) && major.value >= 10
  }

  /** Field f was asked for and answered. */
  predicate Answered(dev: Device, f: nat) {
    && dev.fieldsReturn.Success? && (IsScoped(f) ==> dev.computeMajor.ret.Success?)
    && dev.fieldValue(f, IsSummed(f, dev.computeMajor)).ret.Success?
  }

  /** The readings of a GPU that is there, from the driver's answers themselves. */
  lemma ReadingsAreTheAnswers(g: GpuHealth, dev: Device, hasUnrepairable: bool, validate: bool)
    requires IsReadingOf(g, dev, hasUnrepairable, validate) && dev.handle.Success? && !g.lost
    ensures |g.fields| == 24
    ensures forall f: nat :: f < 24 ==>
              var v := dev.fieldValue(f, IsSummed(f, dev.computeMajor));
              g.fields[f] == if Answered(dev, f) then FieldValueUint(v) else Reading(0, false)
    ensures IsAnswer(g.computeMajor, dev.computeMajor)
    ensures if hasUnrepairable then IsAnswer(g.unrepairable, dev.unrepairable) else g.unrepairable == Reading(0, false)
    ensures g.mig <==> dev.mig == Answer(1, Success)
    ensures g.powerUnreadable.ok && (g.powerUnreadable.value == 0 <==> dev.power.Success? || dev.power.NotSupported?)
    ensures validate ==> (g.inforom.ok <==> dev.inforom.Success? || dev.inforom.CorruptedInforom?)
    ensures validate ==> (g.inforom.value != 0 <==> dev.inforom.CorruptedInforom?)
    ensures !validate ==> g.inforom == Reading(0, false)
    ensures forall link: nat :: link in g.linksDown <==>
              && !g.mig && g.fields[9].ok && link < g.fields[9].value && link < 18
              && dev.linkState(link) == Answer(0, Success)
  {
  }

  /** Nothing was observed, and no link counts as down. */
  predicate IsBlank(g: GpuHealth) {
    && |g.fields| == 24 && (forall f :: 0 <= f < 24 ==> g.fields[f] == Reading(0, false))
    && g.powerUnreadable == g.unrepairable == g.computeMajor == g.inforom == Reading(0, false)
    && !g.mig && g.linksDown == []
  }

  /** A GPU is lost exactly when an answer to one of the calls made for it says so: without a handle no
      other call is made, and a field or a link is only asked for as above. Nothing is then kept, nor of
      a GPU without a handle. */
  lemma LostIsAnAnswer(g: GpuHealth, dev: Device, hasUnrepairable: bool, validate: bool)
    requires IsReadingOf(g, dev, hasUnrepairable, validate)
    ensures g.lost || !dev.handle.Success? ==> IsBlank(g)
    ensures !dev.handle.Success? ==> (g.lost <==> dev.handle.GpuIsLost?)
    ensures dev.handle.Success? ==>
              (g.lost <==>
                || dev.computeMajor.ret.GpuIsLost? || dev.fieldsReturn.GpuIsLost? || dev.power.GpuIsLost? || dev.mig.ret.GpuIsLost?
                || (hasUnrepairable && dev.unrepairable.ret.GpuIsLost?) || (validate && dev.inforom.GpuIsLost?)
                || (exists f: nat :: f < 24 && SaysFieldLost(dev, f))
                || (exists link: nat :: SaysLinkLost(dev, link)))
  {
    if dev.handle.Success? {
      forall f: nat | f < 24
        ensures SaysFieldLost(dev, f) <==> dev.fieldsReturn.Success? && ValueLost(dev, f)
      {
      }
      forall link: nat
        ensures SaysLinkLost(dev, link) <==> link < Links(dev) && LinkLost(dev, link)
      {
      }
      hide ValueLost, LinkLost, SaysFieldLost, SaysLinkLost, Links;
    }
  }

  predicate SaysFieldLost(dev: Device, f: nat) {
    && dev.fieldsReturn.Success? && (IsScoped(f) ==> dev.computeMajor.ret.Success?)
    && dev.fieldValue(f, IsSummed(f, dev.computeMajor)).ret.GpuIsLost?
  }

  /** Links are asked about outside MIG mode, as far as the GPU counts them, and 18 at most. */
  predicate SaysLinkLost(dev: Device, link: nat) {
    && dev.mig != Answer(1, Success) && link < 18
    && Answered(dev, 9) && link < FieldValueUint(dev.fieldValue(9, false)).value
    && dev.linkState(link).ret.GpuIsLost?
  }

  // ---------------------------------------------------------------------------
  // Reading
  // ---------------------------------------------------------------------------

  /** The fields worth asking for, in order. */
  method FieldsToAsk(dev: Device, major: Reading) returns (asked: seq<nat>)
    requires major == Observe(dev.computeMajor)
    ensures Ascending(asked)
    ensures forall f: nat :: f in asked <==> f < NUM_FIELDS && Asked(dev, f)
  {
    asked := [];
    for f := 0 to NUM_FIELDS
      invariant Ascending(asked) && forall i :: 0 <= i < |asked| ==> asked[i] < f
      invariant forall k: nat :: k in asked <==> k < f && Asked(dev, k)
    {
      if IsNvlink5(f) && !major.ok {
        continue;
      }
      asked := asked + [f];
    }
  }

  /** Reads the field values together. The loop over them runs to the end even when one of them says
      the GPU is lost. */
  method ReadFields(dev: Device, major: Reading) returns (fields: seq<Reading>, lost: bool)
    requires major == Observe(dev.computeMajor)
    ensures |fields| == NUM_FIELDS && forall f :: 0 <= f < NUM_FIELDS ==> fields[f] == FieldReading(dev, f)
    ensures lost <==> FieldsLost(dev)
  {
    hide FieldValueUint, ValueOf, Asked;
    fields := NoFields();
    var asked := FieldsToAsk(dev, major);
    if !dev.fieldsReturn.Success? {
      return fields, dev.fieldsReturn.GpuIsLost?;
    }
    lost := false;
    ghost var read: set<nat> := {};
    assert forall i :: 0 <= i < |asked| ==> asked[i] in asked;
    for k := 0 to |asked|
      invariant |fields| == NUM_FIELDS
      invariant (forall i :: 0 <= i < k ==> asked[i] in read) && forall f :: f in read ==> f in asked
      invariant forall f :: 0 <= f < NUM_FIELDS ==> fields[f] == if f in read then FieldReading(dev, f) else UNREAD
      invariant lost <==> exists i :: 0 <= i < k && ValueLost(dev, asked[i])
    {
      var f := asked[k];
      read := read + {f};
      assert f in asked;
      var v := ValueOf(dev, f);
      if v.ret.Success? && FieldValueUint(v).ok {
        fields := fields[f := FieldValueUint(v)];
      }
      if v.ret.GpuIsLost? {
        lost := true;
        assert ValueLost(dev, asked[k]);
      }
    }
    if f :| 0 <= f < NUM_FIELDS && ValueLost(dev, f) {
      assert f in asked;
    }
  }

  /** Reads the state of each link the GPU reports outside MIG mode, stopping when the GPU is lost. */
  method ReadLinks(dev: Device, mig: bool, count: Reading) returns (down: seq<nat>, lost: bool)
    requires mig == IsInMig(dev) && count == FieldReading(dev, NVLINK_COUNT)
    ensures lost <==> LinksLost(dev, Links(dev))
    ensures !lost ==> DownLinks(down, dev)
  {
    down, lost := [], false;
    if mig || !count.ok {
      return;
    }
    var links := if count.value < MAX_LINKS then count.value else MAX_LINKS;
    for link := 0 to links
      invariant !lost && forall k :: 0 <= k < link ==> !LinkLost(dev, k)
      invariant Ascending(down) && forall i :: 0 <= i < |down| ==> down[i] < link
      invariant forall k: nat :: k in down <==> k < link && IsDown(dev, k)
    {
      var state := dev.linkState(link);
      if state.ret.Success? && state.value == FEATURE_DISABLED {
        down := down + [link];
      }
      if state.ret.GpuIsLost? {
        assert LinkLost(dev, link);
        return down, true;
      }
    }
  }

  /** Reads one GPU, stopping at the first call that says it is lost. */
  method ReadGpuHealth(dev: Device, hasUnrepairable: bool, validate: bool) returns (g: GpuHealth)
    ensures IsReadingOf(g, dev, hasUnrepairable, validate)
  {
    hide FieldReading, FieldsLost, LinksLost, Links, DownLinks;
    if !dev.handle.Success? {
      return NothingRead(dev.handle.GpuIsLost?);
    }
    g := NothingRead(false);

    g := g.(computeMajor := Observe(dev.computeMajor));
    if dev.computeMajor.ret.GpuIsLost? {
      return NothingRead(true);
    }

    var fields, lost := ReadFields(dev, g.computeMajor);
    g := g.(fields := fields);
    if lost {
      return NothingRead(true);
    }

    match OutcomeOf(dev.power) {
      case Observed => g := g.(powerUnreadable := Reading(0, true));
      case NotObserved => g := g.(powerUnreadable := Reading(0, true));
      case GpuLost => return NothingRead(true);
      case _ => g := g.(powerUnreadable := Reading(1, true));
    }

    if hasUnrepairable {
      g := g.(unrepairable := Observe(dev.unrepairable));
      if dev.unrepairable.ret.GpuIsLost? {
        return NothingRead(true);
      }
    }

    var mode := Observe(dev.mig);
    g := g.(mig := mode.ok && mode.value == MIG_ENABLED);
    if dev.mig.ret.GpuIsLost? {
      return NothingRead(true);
    }

    var down: seq<nat>;
    down, lost := ReadLinks(dev, g.mig, g.fields[NVLINK_COUNT]);
    g := g.(linksDown := down);
    if lost {
      return NothingRead(true);
    }

    if validate {
      g := g.(inforom := if dev.inforom.CorruptedInforom? then Reading(1, true) else Observe(Answer(0, dev.inforom)));
      if dev.inforom.GpuIsLost? {
        return NothingRead(true);
      }
    }
  }
}
