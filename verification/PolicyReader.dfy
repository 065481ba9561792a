/** Reads one GPU's policy values from the driver. */
module PolicyReader {
  import opened Counters
  import opened DriverReads
  import opened ReturnCodes

  /** The DCGM fields of the NVLink error totals, in the order they are read. */
  const NVLINK_TOTALS: seq<nat> := [409, 419, 429, 439]

  /** The NVLink readings of one GPU, one per total; none at all when its handle could not be had. */
  type NvlinkReadings = s: seq<Reading> | |s| <= 4 witness []

  /** One poll's values for one GPU. */
  datatype GpuReadings = GpuReadings(
    lost: bool,
    dbe: Reading,
    pcieReplays: Reading,
    retiredSbe: Reading,
    retiredDbe: Reading,
    temperature: Reading,
    powerMw: Reading,
    powerLimitMw: Reading,
    nvlink: NvlinkReadings)

  /** Everything the driver would answer about one GPU in one poll. The retired pages of each cause
      are counted. */
  datatype Device = Device(
    handle: Return,
    dbe: Answer,
    pcieReplays: Answer,
    sbePages: Answer,
    dbePages: Answer,
    temperature: Answer,
    power: Answer,
    powerLimit: Answer,
    fieldsReturn: Return,
    fieldValue: nat -> FieldValue)

  const NO_NVLINK: seq<Reading> := [UNREAD, UNREAD, UNREAD, UNREAD]

  function NothingRead(lost: bool): GpuReadings {
    GpuReadings(lost, UNREAD, UNREAD, UNREAD, UNREAD, UNREAD, UNREAD, UNREAD, [])
  }

  function TotalReading(dev: Device, i: nat): Reading {
    if dev.fieldsReturn.Success? && dev.fieldValue(i).ret.Success? then FieldValueUint(dev.fieldValue(i)) else UNREAD
  }

  predicate TotalLost(dev: Device, i: nat) {
    dev.fieldValue(i).ret.GpuIsLost?
  }

  predicate TotalsLost(dev: Device) {
    || dev.fieldsReturn.GpuIsLost?
    || (dev.fieldsReturn.Success? && exists i :: 0 <= i < |NVLINK_TOTALS| && TotalLost(dev, i))
  }

  /** Some call made for the GPU answers that it is lost. */
  predicate AnswersLost(dev: Device, readLimit: bool) {
    || dev.handle.GpuIsLost?
    || (dev.handle.Success?
        && (|| dev.dbe.ret.GpuIsLost? || dev.pcieReplays.ret.GpuIsLost?
            || dev.sbePages.ret.GpuIsLost? || dev.dbePages.ret.GpuIsLost?
            || dev.temperature.ret.GpuIsLost? || dev.power.ret.GpuIsLost?
            || (readLimit && dev.powerLimit.ret.GpuIsLost?)
            || TotalsLost(dev)))
  }

  /** Everything is the driver's answers; nothing is, not even a place for the NVLink totals, when
      one of them says the GPU is lost or there is no handle. */
  ghost predicate IsReadingOf(g: GpuReadings, dev: Device, readLimit: bool) {
    if AnswersLost(dev, readLimit) then g == NothingRead(true)
    else if !dev.handle.Success? then g == NothingRead(false)
    else
      && !g.lost
      && g.dbe == Observe(dev.dbe) && g.pcieReplays == Observe(dev.pcieReplays)
      && g.retiredSbe == Observe(dev.sbePages) && g.retiredDbe == Observe(dev.dbePages)
      && g.temperature == Observe(dev.temperature) && g.powerMw == Observe(dev.power)
      && g.powerLimitMw == (if readLimit then Observe(dev.powerLimit) else UNREAD)
      && |g.nvlink| == |NVLINK_TOTALS| && forall i :: 0 <= i < |g.nvlink| ==> g.nvlink[i] == TotalReading(dev, i)
  }

  /** The GPU is still there, but its handle could not be had. */
  predicate HandleFails(dev: Device) {
    !dev.handle.Success? && !dev.handle.GpuIsLost?
  }

  /** Which readings have no place for the NVLink totals, of those of a GPU that is not lost. */
  lemma NoPlaceWithoutAHandle(g: GpuReadings, dev: Device, readLimit: bool)
    requires IsReadingOf(g, dev, readLimit)
    ensures g.lost <==> AnswersLost(dev, readLimit)
    ensures !g.lost ==> |g.nvlink| == if HandleFails(dev) then 0 else |NVLINK_TOTALS|
  {
  }

  /** The readings of a GPU that is there, from the driver's answers themselves. */
  lemma ReadingsAreTheAnswers(g: GpuReadings, dev: Device, readLimit: bool)
    requires IsReadingOf(g, dev, readLimit) && dev.handle.Success? && !g.lost
    ensures IsAnswer(g.dbe, dev.dbe) && IsAnswer(g.pcieReplays, dev.pcieReplays)
    ensures IsAnswer(g.retiredSbe, dev.sbePages) && IsAnswer(g.retiredDbe, dev.dbePages)
    ensures IsAnswer(g.temperature, dev.temperature) && IsAnswer(g.powerMw, dev.power)
    ensures if readLimit then IsAnswer(g.powerLimitMw, dev.powerLimit) else g.powerLimitMw == Reading(0, false)
    ensures |g.nvlink| == 4
    ensures forall i: nat :: i < 4 ==>
              var v := dev.fieldValue(i);
              g.nvlink[i] == if dev.fieldsReturn.Success? && v.ret.Success? then FieldValueUint(v) else Reading(0, false)
  {
  }

  /** Nothing was observed, and the NVLink totals have no place. */
  predicate IsBlank(g: GpuReadings) {
    && g.dbe == g.pcieReplays == g.retiredSbe == g.retiredDbe == g.temperature == g.powerMw == g.powerLimitMw == Reading(0, false)
    && g.nvlink == []
  }

  /** A GPU is lost exactly when an answer to one of the calls made for it says so. Nothing is then kept,
      nor of a GPU without a handle. */
  lemma LostIsAnAnswer(g: GpuReadings, dev: Device, readLimit: bool)
    requires IsReadingOf(g, dev, readLimit)
    ensures g.lost || !dev.handle.Success? ==> IsBlank(g)
    ensures !dev.handle.Success? ==> (g.lost <==> dev.handle.GpuIsLost?)
    ensures dev.handle.Success? ==>
              (g.lost <==>
                || dev.dbe.ret.GpuIsLost? || dev.pcieReplays.ret.GpuIsLost?
                || dev.sbePages.ret.GpuIsLost? || dev.dbePages.ret.GpuIsLost?
                || dev.temperature.ret.GpuIsLost? || dev.power.ret.GpuIsLost? || (readLimit && dev.powerLimit.ret.GpuIsLost?)
                || dev.fieldsReturn.GpuIsLost?
                || (dev.fieldsReturn.Success? && exists i: nat :: i < 4 && dev.fieldValue(i).ret.GpuIsLost?))
  {
    assert forall i :: TotalLost(dev, i) <==> dev.fieldValue(i).ret.GpuIsLost?;
  }

  /** Reads the four totals together. */
  method ReadTotals(dev: Device) returns (nvlink: seq<Reading>, lost: bool)
    ensures |nvlink| == |NVLINK_TOTALS| && forall i :: 0 <= i < |nvlink| ==> nvlink[i] == TotalReading(dev, i)
    ensures lost <==> TotalsLost(dev)
  {
    nvlink := NO_NVLINK;
    if !dev.fieldsReturn.Success? {
      return nvlink, dev.fieldsReturn.GpuIsLost?;
    }
    lost := false;
    for i := 0 to |NVLINK_TOTALS|
      invariant |nvlink| == |NVLINK_TOTALS|
      invariant forall k :: 0 <= k < i ==> nvlink[k] == TotalReading(dev, k)
      invariant forall k :: i <= k < |nvlink| ==> nvlink[k] == UNREAD
      invariant lost <==> exists k :: 0 <= k < i && TotalLost(dev, k)
    {
      var v := dev.fieldValue(i);
      if v.ret.Success? && FieldValueUint(v).ok {
        nvlink := nvlink[i := FieldValueUint(v)];
      }
      if v.ret.GpuIsLost? {
        assert TotalLost(dev, i);
        lost := true;
      }
    }
  }

  /** Reads one GPU, stopping at the first call that says it is lost. */
  method ReadGpu(dev: Device, readLimit: bool) returns (g: GpuReadings)
    ensures IsReadingOf(g, dev, readLimit)
  {
    hide TotalsLost, TotalReading;
    if !dev.handle.Success? {
      return NothingRead(dev.handle.GpuIsLost?);
    }
    g := NothingRead(false).(nvlink := NO_NVLINK);
    g := g.(dbe := Observe(dev.dbe));
    if dev.dbe.ret.GpuIsLost? {
      return NothingRead(true);
    }
    g := g.(pcieReplays := Observe(dev.pcieReplays));
    if dev.pcieReplays.ret.GpuIsLost? {
      return NothingRead(true);
    }
    g := g.(retiredSbe := Observe(dev.sbePages));
    if dev.sbePages.ret.GpuIsLost? {
      return NothingRead(true);
    }
    g := g.(retiredDbe := Observe(dev.dbePages));
    if dev.dbePages.ret.GpuIsLost? {
      return NothingRead(true);
    }
    g := g.(temperature := Observe(dev.temperature));
    if dev.temperature.ret.GpuIsLost? {
      return NothingRead(true);
    }
    g := g.(powerMw := Observe(dev.power));
    if dev.power.ret.GpuIsLost? {
      return NothingRead(true);
    }
    if readLimit {
      g := g.(powerLimitMw := Observe(dev.powerLimit));
      if dev.powerLimit.ret.GpuIsLost? {
        return NothingRead(true);
      }
    }
    var nvlink, lost := ReadTotals(dev);
    if lost {
      return NothingRead(true);
    }
    g := g.(nvlink := nvlink);
  }
}
