/** The manager: routes each monitor's conditions to the exporter, holds back a report until it
    has occurred often enough, and keeps the fatal gauge. */
module Manager {
  import opened Monitor
  import opened ExporterHistory
  import opened NodeExporter

  // ---------------------------------------------------------------------------
  // The occurrence debounce, over the conditions handled so far
  // ---------------------------------------------------------------------------

  /** A resolution of a fatal condition: it clears state instead of reporting it. */
  predicate IsResolution(c: Condition) {
    c.resolved && c.severity.Fatal?
  }

  /** How many reports of the reason are being held back after run. */
  function Held(run: seq<Condition>, reason: string): (n: nat) {
    if run == [] then 0
    else
      var before, c := run[..|run| - 1], run[|run| - 1];
      if c.reason != reason then Held(before, reason)
      else if IsResolution(c) || Held(before, reason) >= c.minOccurrences then 0
      else Held(before, reason) + 1
  }

  /** How many reports of the reason arrived since it was last reset. */
  function Reported(run: seq<Condition>, reason: string): nat {
    if run == [] then 0
    else
      var before, c := run[..|run| - 1], run[|run| - 1];
      if c.reason != reason then Reported(before, reason)
      else if IsResolution(c) then 0
      else Reported(before, reason) + 1
  }

  /** How many of those the manager passed on. */
  function Exported(run: seq<Condition>, reason: string): nat {
    if run == [] then 0
    else
      var before, c := run[..|run| - 1], run[|run| - 1];
      if c.reason != reason then Exported(before, reason)
      else if IsResolution(c) then 0
      else Exported(before, reason) + if Held(before, reason) >= c.minOccurrences then 1 else 0
  }

  lemma HeldStep(run: seq<Condition>, c: Condition, reason: string)
    ensures Held(run + [c], reason) ==
      if c.reason != reason then Held(run, reason)
      else if IsResolution(c) || Held(run, reason) >= c.minOccurrences then 0
      else Held(run, reason) + 1
  {
    PrefixOfExtension(run, c);
  }

  lemma QuotientAndRemainder(n: int, d: int, q: int, r: int)
    requires 0 < d && 0 <= r < d && n == q * d + r
    ensures n / d == q && n % d == r
  {
    var k := n / d - q;
    assert k * d == r - n % d;
    if k >= 1 {
      MultipleIsLarge(k, d);
    } else if k <= -1 {
      MultipleIsLarge(-k, d);
    }
  }

  lemma MultipleIsLarge(k: int, d: int)
    requires 1 <= k && 0 < d
    ensures d <= k * d
  {
  }

  /** While every report of the reason asks for m prior occurrences, one report in m+1 is passed
      on and the rest are held; a negative m holds nothing back. */
  lemma {:induction false} DebouncePassesOneInEvery(run: seq<Condition>, reason: string, m: int)
    requires forall i :: 0 <= i < |run| && run[i].reason == reason && !IsResolution(run[i]) ==> run[i].minOccurrences == m
    ensures m >= 0 ==> Exported(run, reason) == Reported(run, reason) / (m + 1)
    ensures m >= 0 ==> Held(run, reason) == Reported(run, reason) % (m + 1)
    ensures m < 0 ==> Exported(run, reason) == Reported(run, reason) && Held(run, reason) == 0
  {
    DebounceBalance(run, reason, m);
    if m >= 0 {
      QuotientAndRemainder(Reported(run, reason), m + 1, Exported(run, reason), Held(run, reason));
    }
  }

  lemma {:induction false} DebounceBalance(run: seq<Condition>, reason: string, m: int)
    requires forall i :: 0 <= i < |run| && run[i].reason == reason && !IsResolution(run[i]) ==> run[i].minOccurrences == m
    ensures m >= 0 ==> Held(run, reason) <= m && Reported(run, reason) == Exported(run, reason) * (m + 1) + Held(run, reason)
    ensures m < 0 ==> Exported(run, reason) == Reported(run, reason) && Held(run, reason) == 0
  {
    if run != [] {
      var before := run[..|run| - 1];
      assert forall i :: 0 <= i < |before| ==> before[i] == run[i];
      DebounceBalance(before, reason, m);
      var e := Exported(before, reason);
      assert (e + 1) * (m + 1) == e * (m + 1) + m + 1;
    }
  }

  // ---------------------------------------------------------------------------
  // Routing
  // ---------------------------------------------------------------------------

  /** What handling one condition does to the exporter's log, given what was handled before. */
  function Routed(handled: seq<Condition>, kind: string, c: Condition, now: int): seq<Op> {
    if IsResolution(c) then [ResolveOp(kind, c.reason, now)]
    else if c.severity.Fatal? && Held(handled, c.reason) >= c.minOccurrences then [FatalOp(kind, c.reason, c.message, now)]
    else []
  }

  /** The events it records besides those of the exporter's own resolutions. */
  function Recorded(handled: seq<Condition>, kind: string, c: Condition): seq<Event> {
    if Held(handled, c.reason) < c.minOccurrences then []
    else if c.severity.Info? then [Event(false, kind, c.reason)]
    else if c.severity.Warning? then [Event(true, kind, c.reason)]
    else []
  }

  class MonitorManager {
    const exporter: Exporter
    var conditionTypeMap: map<string, string>
    var conditionCountMap: map<string, int>
    var conditionTypeGauge: map<string, int>
    ghost var handled: seq<Condition>  // every condition that came from a registered monitor

    function Count(reason: string): int
      reads this
    {
      if reason in conditionCountMap then conditionCountMap[reason] else 0
    }

    function Gauge(kind: string): int
      reads this
    {
      if kind in conditionTypeGauge then conditionTypeGauge[kind] else 0
    }

    /** The counts are the debounce's, and a kind's gauge is 1 exactly while the exporter holds
        an unresolved reason for it. */
    ghost predicate Valid()
      reads this, exporter
    {
      && exporter.Valid()
      && (forall reason: string :: Count(reason) == Held(handled, reason))
      && (forall kind: string :: Gauge(kind) == if HasUnresolved(exporter.log, kind) then 1 else 0)
    }

    constructor (exporter: Exporter)
      requires exporter.Valid() && exporter.log == []
      ensures Valid() && handled == [] && this.exporter == exporter && conditionTypeMap == map[]
    {
      this.exporter := exporter;
      conditionTypeMap, conditionCountMap, conditionTypeGauge := map[], map[], map[];
      handled := [];
    }

    method Register(monitorName: string, kind: string)
      requires Valid()
      modifies this`conditionTypeMap
      ensures Valid() && conditionTypeMap == old(conditionTypeMap)[monitorName := kind]
    {
      conditionTypeMap := conditionTypeMap[monitorName := kind];
    }

    /** Handles one condition. err says that the monitor is not registered or the severity is not
        one the manager knows. */
    method ExportCondition(monitorName: string, c: Condition, now: int) returns (err: bool)
      requires Valid()
      modifies this, exporter
      ensures Valid() && conditionTypeMap == old(conditionTypeMap)
      ensures monitorName !in conditionTypeMap ==>
                err && handled == old(handled) && exporter.log == old(exporter.log) && exporter.events == old(exporter.events)
      ensures monitorName in conditionTypeMap ==>
                && handled == old(handled) + [c]
                && exporter.log == old(exporter.log) + Routed(old(handled), conditionTypeMap[monitorName], c, now)
                && (err <==> c.severity.Unrecognized? && old(Held(handled, c.reason)) >= c.minOccurrences)
      ensures monitorName in conditionTypeMap && !IsResolution(c) ==>
                exporter.events == old(exporter.events) + Recorded(old(handled), conditionTypeMap[monitorName], c)
    {
      hide Held, HasUnresolved;
      if monitorName !in conditionTypeMap {
        return true;
      }
      var conditionType := conditionTypeMap[monitorName];
      ghost var before := handled;
      forall reason
        ensures Held(before + [c], reason) ==
          if c.reason != reason then Held(before, reason)
          else if IsResolution(c) || Held(before, reason) >= c.minOccurrences then 0
          else Held(before, reason) + 1
      {
        HeldStep(before, c, reason);
      }
      handled := before + [c];

      if c.resolved && c.severity == Fatal {
        conditionCountMap := conditionCountMap[c.reason := 0];
        ghost var log := exporter.log;
        var recovered := exporter.Resolve(c.reason, conditionType, now);
        OtherKindsUnresolved(log, ResolveOp(conditionType, c.reason, now), conditionType);
        ResolveNeverAdds(log, conditionType, c.reason, now);
        if recovered {
          conditionTypeGauge := conditionTypeGauge[conditionType := 0];
        }
        return false;
      }

      if (if c.reason in conditionCountMap then conditionCountMap[c.reason] else 0) < c.minOccurrences {
        conditionCountMap := conditionCountMap[c.reason := (if c.reason in conditionCountMap then conditionCountMap[c.reason] else 0) + 1];
        return false;
      }
      conditionCountMap := conditionCountMap[c.reason := 0];
      err := SendCondition(c, conditionType, now);
    }

    method SendCondition(c: Condition, conditionType: string, now: int) returns (err: bool)
      requires exporter.Valid()
      requires forall kind: string :: Gauge(kind) == if HasUnresolved(exporter.log, kind) then 1 else 0
      modifies this`conditionTypeGauge, exporter
      ensures exporter.Valid()
      ensures forall kind: string :: Gauge(kind) == if HasUnresolved(exporter.log, kind) then 1 else 0
      ensures exporter.log == old(exporter.log) +
                if c.severity.Fatal? then [FatalOp(conditionType, c.reason, c.message, now)] else []
      ensures exporter.events == old(exporter.events) +
                if c.severity.Info? then [Event(false, conditionType, c.reason)]
                else if c.severity.Warning? then [Event(true, conditionType, c.reason)] else []
      ensures err <==> c.severity.Unrecognized?
    {
      err := false;
      match c.severity {
        case Info => exporter.Info(c.reason, conditionType);
        case Warning => exporter.Warning(c.reason, conditionType);
        case Fatal =>
          ghost var log := exporter.log;
          conditionTypeGauge := conditionTypeGauge[conditionType := 1];
          exporter.Fatal(c.reason, c.message, conditionType, now);
          OtherKindsUnresolved(log, FatalOp(conditionType, c.reason, c.message, now), conditionType);
          ReasonStep(log, FatalOp(conditionType, c.reason, c.message, now), conditionType, c.reason);
        case Unrecognized(_) => err := true;
      }
    }
  }

  lemma OtherKindsUnresolved(log: seq<Op>, op: Op, kind: string)
    requires !op.HeartbeatOp? && op.kind == kind
    ensures forall k: string :: k != kind ==> (HasUnresolved(log + [op], k) <==> HasUnresolved(log, k))
  {
    forall k: string, r: string | k != kind
      ensures Unresolved(log + [op], k, r) <==> Unresolved(log, k, r)
    {
      ReasonStep(log, op, k, r);
    }
  }

  lemma ResolveNeverAdds(log: seq<Op>, kind: string, reason: string, now: int)
    ensures HasUnresolved(log + [ResolveOp(kind, reason, now)], kind) ==> HasUnresolved(log, kind)
  {
    forall r: string
      ensures Unresolved(log + [ResolveOp(kind, reason, now)], kind, r) ==> Unresolved(log, kind, r)
    {
      ReasonStep(log, ResolveOp(kind, reason, now), kind, r);
    }
  }
}
