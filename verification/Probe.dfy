/** The probe runner's hysteresis: each check's counters, and the history they stand for. */
module Probe {
  import opened Monitor

  datatype Outcome = Healthy | Unhealthy | Unknown | Unexpected(name: string)

  /** The outcome of one check execution, as the transport returned it. */
  datatype Result = Result(outcome: Outcome, detail: string)

  /** One result of one check, stamped with its cycle's time. */
  datatype Observation = Observation(result: Result, at: int)

  /** The thresholds of a validated spec, with the recovery threshold already defaulted. */
  datatype Timing = Timing(failureThreshold: int, recoveryThreshold: int, grace: int, startedAt: int)

  ghost predicate ValidTiming(t: Timing) {
    1 <= t.failureThreshold && 1 <= t.recoveryThreshold && 0 <= t.grace
  }

  predicate InGrace(t: Timing, at: int) {
    at - t.startedAt < t.grace
  }

  /** What a check tells the manager about one of its results. */
  datatype Notice = Fired(detail: string) | Summary(failures: nat) | Recovered

  // ---------------------------------------------------------------------------
  // The history a check's counters stand for
  // ---------------------------------------------------------------------------

  predicate Counts(o: Observation) {
    o.result.outcome.Healthy? || o.result.outcome.Unhealthy?
  }

  /** The results that are evidence about the agent: everything else is erased. */
  function Counted(h: seq<Observation>): (c: seq<Observation>)
    ensures forall i :: 0 <= i < |c| ==> Counts(c[i])
  {
    if h == [] then []
    else Counted(h[..|h| - 1]) + if Counts(h[|h| - 1]) then [h[|h| - 1]] else []
  }

  /** How many unhealthy results in a row end h. */
  function FailureRun(h: seq<Observation>): (n: nat)
    ensures n <= |h|
  {
    if h == [] || !h[|h| - 1].result.outcome.Unhealthy? then 0 else 1 + FailureRun(h[..|h| - 1])
  }

  /** How many healthy results in a row end h. */
  function HealthyRun(h: seq<Observation>): (n: nat)
    ensures n <= |h|
  {
    if h == [] || !h[|h| - 1].result.outcome.Healthy? then 0 else 1 + HealthyRun(h[..|h| - 1])
  }

  /** The runs are what they claim to be: everything in them agrees, and they cannot be extended. */
  lemma {:induction false} RunsAreMaximal(h: seq<Observation>)
    ensures forall i :: |h| - FailureRun(h) <= i < |h| ==> h[i].result.outcome.Unhealthy?
    ensures FailureRun(h) < |h| ==> !h[|h| - FailureRun(h) - 1].result.outcome.Unhealthy?
    ensures forall i :: |h| - HealthyRun(h) <= i < |h| ==> h[i].result.outcome.Healthy?
    ensures HealthyRun(h) < |h| ==> !h[|h| - HealthyRun(h) - 1].result.outcome.Healthy?
  {
    if h != [] {
      RunsAreMaximal(h[..|h| - 1]);
    }
  }

  /** When the failure streak that ends h began. */
  function StreakStart(h: seq<Observation>): int
    requires FailureRun(h) > 0
  {
    h[|h| - FailureRun(h)].at
  }

  /** Result i ended a run of at least failureThreshold failures, outside the grace period. */
  ghost predicate Trips(t: Timing, h: seq<Observation>, i: nat)
    requires i < |h|
  {
    && h[i].result.outcome.Unhealthy?
    && FailureRun(h[..i + 1]) >= t.failureThreshold
    && !InGrace(t, h[i].at)
  }

  ghost predicate RecoversAt(t: Timing, h: seq<Observation>, j: nat)
    requires j < |h|
  {
    HealthyRun(h[..j + 1]) >= t.recoveryThreshold
  }

  /** Result i tripped the check, and nothing since has recovered it. */
  ghost predicate FiredSince(t: Timing, h: seq<Observation>, i: nat) {
    i < |h| && Trips(t, h, i) && forall j: nat :: i < j < |h| ==> !RecoversAt(t, h, j)
  }

  ghost predicate FiredBy(t: Timing, h: seq<Observation>) {
    exists i: nat :: FiredSince(t, h, i)
  }

  /** What the next counted result o makes the check say, given the counted results h before it. */
  ghost function NoticeFor(t: Timing, h: seq<Observation>, o: Observation): Option<Notice> {
    var after := h + [o];
    if o.result.outcome.Unhealthy? then
      if !FiredBy(t, h) && Trips(t, after, |h|) then Some(Fired(o.result.detail)) else None
    else if !o.result.outcome.Healthy? then None
    else if FiredBy(t, h) then
      if RecoversAt(t, after, |h|) then Some(Recovered) else None
    else if FailureRun(h) > 0 && !InGrace(t, StreakStart(h)) then Some(Summary(FailureRun(h)))
    else None
  }

  function Listed<T>(o: Option<T>): seq<T> {
    if o.Some? then [o.value] else []
  }

  /** Everything the check says over the raw history h, Unknown rounds included. */
  ghost function Notices(t: Timing, h: seq<Observation>): seq<Notice> {
    if h == [] then []
    else Notices(t, h[..|h| - 1]) + Listed(NoticeFor(t, Counted(h[..|h| - 1]), h[|h| - 1]))
  }

  // ---------------------------------------------------------------------------
  // How the history grows by one result
  // ---------------------------------------------------------------------------

  lemma CountedStep(h: seq<Observation>, o: Observation)
    ensures Counted(h + [o]) == Counted(h) + if Counts(o) then [o] else []
  {
    PrefixOfExtension(h, o);
  }

  lemma RunsStep(h: seq<Observation>, o: Observation)
    ensures FailureRun(h + [o]) == if o.result.outcome.Unhealthy? then FailureRun(h) + 1 else 0
    ensures HealthyRun(h + [o]) == if o.result.outcome.Healthy? then HealthyRun(h) + 1 else 0
  {
    PrefixOfExtension(h, o);
  }

  lemma TripsIsLocal(t: Timing, h: seq<Observation>, o: Observation, i: nat)
    requires i < |h|
    ensures Trips(t, h + [o], i) == Trips(t, h, i)
    ensures RecoversAt(t, h + [o], i) == RecoversAt(t, h, i)
  {
    assert (h + [o])[..i + 1] == h[..i + 1];
  }

  /** Firing latches until a recovery, and a recovery clears it. */
  lemma FiredStep(t: Timing, h: seq<Observation>, o: Observation)
    requires ValidTiming(t)
    ensures FiredBy(t, h + [o]) <==>
            (FiredBy(t, h) && !RecoversAt(t, h + [o], |h|)) || Trips(t, h + [o], |h|)
  {
    if FiredBy(t, h + [o]) {
      var i: nat :| FiredSince(t, h + [o], i);
      FiredSinceStep(t, h, o, i);
    }
    if FiredBy(t, h) {
      var i: nat :| FiredSince(t, h, i);
      FiredSinceStep(t, h, o, i);
    }
    FiredSinceStep(t, h, o, |h|);
  }

  lemma FiredSinceStep(t: Timing, h: seq<Observation>, o: Observation, i: nat)
    requires i <= |h|
    ensures FiredSince(t, h + [o], i) <==>
            if i < |h| then FiredSince(t, h, i) && !RecoversAt(t, h + [o], |h|) else Trips(t, h + [o], |h|)
  {
    forall j: nat | j < |h|
      ensures Trips(t, h + [o], j) == Trips(t, h, j) && RecoversAt(t, h + [o], j) == RecoversAt(t, h, j)
    {
      TripsIsLocal(t, h, o, j);
    }
  }

  /** While fired, the healthy run is short of recovery. */
  lemma FiredAwaitsRecovery(t: Timing, h: seq<Observation>)
    requires ValidTiming(t) && FiredBy(t, h)
    ensures HealthyRun(h) < t.recoveryThreshold
  {
    var i: nat :| FiredSince(t, h, i);
    assert h[..|h|] == h;
    if i < |h| - 1 {
      assert !RecoversAt(t, h, |h| - 1);
    }
  }

  /** One more failure: what the history says about the check, before and after. */
  lemma UnhealthyStep(t: Timing, h: seq<Observation>, o: Observation)
    requires ValidTiming(t) && o.result.outcome.Unhealthy?
    ensures
      var trips := FailureRun(h) + 1 >= t.failureThreshold && !InGrace(t, o.at);
      && FailureRun(h + [o]) == FailureRun(h) + 1
      && HealthyRun(h + [o]) == 0
      && StreakStart(h + [o]) == (if FailureRun(h) == 0 then o.at else StreakStart(h))
      && (FiredBy(t, h + [o]) <==> FiredBy(t, h) || trips)
      && NoticeFor(t, h, o) == if !FiredBy(t, h) && trips then Some(Fired(o.result.detail)) else None
  {
    RunsStep(h, o);
    FiredStep(t, h, o);
    PrefixOfExtension(h, o);
  }

  /** One more healthy result: what the history says about the check, before and after. */
  lemma HealthyStep(t: Timing, h: seq<Observation>, o: Observation)
    requires ValidTiming(t) && o.result.outcome.Healthy?
    ensures
      var recovers := HealthyRun(h) + 1 >= t.recoveryThreshold;
      && FailureRun(h + [o]) == 0
      && HealthyRun(h + [o]) == HealthyRun(h) + 1
      && (FiredBy(t, h + [o]) <==> FiredBy(t, h) && !recovers)
      && NoticeFor(t, h, o) ==
         (if FiredBy(t, h) then if recovers then Some(Recovered) else None
          else if FailureRun(h) > 0 && !InGrace(t, StreakStart(h)) then Some(Summary(FailureRun(h)))
          else None)
  {
    RunsStep(h, o);
    FiredStep(t, h, o);
    PrefixOfExtension(h, o);
  }

  // ---------------------------------------------------------------------------
  // When a check fires, and the grace period
  // ---------------------------------------------------------------------------

  /** The last n results are failures. */
  predicate EndsInFailures(h: seq<Observation>, n: int) {
    n <= |h| && forall i :: 0 <= i < |h| && |h| - n <= i ==> h[i].result.outcome.Unhealthy?
  }

  lemma RunReaches(h: seq<Observation>, n: int)
    ensures FailureRun(h) >= n <==> EndsInFailures(h, n)
  {
    RunsAreMaximal(h);
    if FailureRun(h) < n <= |h| {
      assert !h[|h| - FailureRun(h) - 1].result.outcome.Unhealthy?;
    }
  }

  /** A check fires exactly on a failure that comes no earlier than the grace period's end, makes the
      threshold's number of failures in a row, and finds it not fired. */
  lemma FiresExactly(t: Timing, h: seq<Observation>, o: Observation, detail: string)
    requires ValidTiming(t)
    ensures NoticeFor(t, h, o) == Some(Fired(detail)) <==>
            && o.result.outcome.Unhealthy? && o.result.detail == detail
            && o.at >= t.startedAt + t.grace
            && EndsInFailures(h + [o], t.failureThreshold)
            && !FiredBy(t, h)
  {
    RunReaches(h + [o], t.failureThreshold);
    PrefixOfExtension(h, o);
  }

  /** A result inside the grace period never makes a check fired, and never says so. */
  lemma GraceNeverFires(t: Timing, h: seq<Observation>, o: Observation)
    requires ValidTiming(t) && o.at < t.startedAt + t.grace
    ensures FiredBy(t, h + [o]) ==> FiredBy(t, h)
    ensures forall detail :: NoticeFor(t, h, o) != Some(Fired(detail))
  {
    FiredStep(t, h, o);
    PrefixOfExtension(h, o);
    forall detail
      ensures NoticeFor(t, h, o) != Some(Fired(detail))
    {
      FiresExactly(t, h, o, detail);
    }
  }

  ghost predicate AllBefore(h: seq<Observation>, time: int) {
    forall i :: 0 <= i < |h| ==> h[i].at < time
  }

  /** Whatever a check returns while the grace period lasts, it says nothing at all. */
  lemma {:induction false} BootIsSilent(t: Timing, h: seq<Observation>)
    requires ValidTiming(t) && AllBefore(h, t.startedAt + t.grace)
    ensures Notices(t, h) == [] && !FiredBy(t, Counted(h))
    ensures AllBefore(Counted(h), t.startedAt + t.grace)
  {
    if h != [] {
      var before, o := h[..|h| - 1], h[|h| - 1];
      BootIsSilent(t, before);
      GraceNeverFires(t, Counted(before), o);
      hide FiredBy;
      assert h == before + [o];
      CountedStep(before, o);
      assert Counted(before) + [] == Counted(before);
    }
  }

  function Shifted(h: seq<Observation>, delta: int): (out: seq<Observation>)
    ensures |out| == |h| && forall i :: 0 <= i < |h| ==> out[i] == h[i].(at := h[i].at + delta)
  {
    seq(|h|, i requires 0 <= i < |h| => h[i].(at := h[i].at + delta))
  }

  lemma {:induction false} RunsShift(h: seq<Observation>, delta: int)
    ensures FailureRun(Shifted(h, delta)) == FailureRun(h) && HealthyRun(Shifted(h, delta)) == HealthyRun(h)
  {
    if h != [] {
      RunsShift(h[..|h| - 1], delta);
      assert Shifted(h, delta)[..|h| - 1] == Shifted(h[..|h| - 1], delta);
    }
  }

  lemma TripsShift(t: Timing, h: seq<Observation>, delta: int, i: nat)
    requires i < |h|
    ensures Trips(t.(startedAt := t.startedAt + delta), Shifted(h, delta), i) == Trips(t, h, i)
    ensures RecoversAt(t.(startedAt := t.startedAt + delta), Shifted(h, delta), i) == RecoversAt(t, h, i)
  {
    assert Shifted(h, delta)[..i + 1] == Shifted(h[..i + 1], delta);
    RunsShift(h[..i + 1], delta);
  }

  lemma FiredShift(t: Timing, h: seq<Observation>, delta: int)
    ensures FiredBy(t.(startedAt := t.startedAt + delta), Shifted(h, delta)) == FiredBy(t, h)
  {
    var later := t.(startedAt := t.startedAt + delta);
    forall i: nat
      ensures FiredSince(later, Shifted(h, delta), i) == FiredSince(t, h, i)
    {
      forall j: nat | j < |h|
        ensures Trips(later, Shifted(h, delta), j) == Trips(t, h, j) && RecoversAt(later, Shifted(h, delta), j) == RecoversAt(t, h, j)
      {
        TripsShift(t, h, delta, j);
      }
    }
  }

  lemma {:induction false} CountedShift(h: seq<Observation>, delta: int)
    ensures Counted(Shifted(h, delta)) == Shifted(Counted(h), delta)
  {
    if h != [] {
      CountedShift(h[..|h| - 1], delta);
      assert Shifted(h, delta)[..|h| - 1] == Shifted(h[..|h| - 1], delta);
    }
  }

  lemma NoticeShifts(t: Timing, h: seq<Observation>, o: Observation, delta: int)
    ensures NoticeFor(t.(startedAt := t.startedAt + delta), Shifted(h, delta), o.(at := o.at + delta)) == NoticeFor(t, h, o)
  {
    FiredShift(t, h, delta);
    RunsShift(h, delta);
    TripsShift(t, h + [o], delta, |h|);
    assert Shifted(h + [o], delta) == Shifted(h, delta) + [o.(at := o.at + delta)];
    hide FiredBy, Trips, RecoversAt;
  }

  /** Only times since the start matter: moving the start and every result alike changes
      nothing a check ever says. */
  lemma {:induction false} TimesShift(t: Timing, h: seq<Observation>, delta: int)
    ensures Notices(t.(startedAt := t.startedAt + delta), Shifted(h, delta)) == Notices(t, h)
  {
    if h != [] {
      var before, o := h[..|h| - 1], h[|h| - 1];
      TimesShift(t, before, delta);
      CountedShift(before, delta);
      NoticeShifts(t, Counted(before), o, delta);
      assert Shifted(h, delta)[..|h| - 1] == Shifted(before, delta);
    }
  }

  // ---------------------------------------------------------------------------
  // Unknown rounds, alternation, and what an episode summary stands for
  // ---------------------------------------------------------------------------

  lemma {:induction false} CountedIdempotent(h: seq<Observation>)
    ensures Counted(Counted(h)) == Counted(h)
  {
    if h != [] {
      var init, o := h[..|h| - 1], h[|h| - 1];
      CountedIdempotent(init);
      if Counts(o) {
        CountedStep(Counted(init), o);
      } else {
        assert Counted(h) == Counted(init);
      }
    }
  }

  lemma NoticesStep(t: Timing, h: seq<Observation>, o: Observation)
    ensures Notices(t, h + [o]) == Notices(t, h) + Listed(NoticeFor(t, Counted(h), o))
  {
    PrefixOfExtension(h, o);
  }

  /** Erasing the rounds that could not execute changes nothing the check ever says. */
  lemma {:induction false} UnknownRoundsAreErased(t: Timing, h: seq<Observation>)
    ensures Notices(t, h) == Notices(t, Counted(h))
  {
    if h != [] {
      var init, o := h[..|h| - 1], h[|h| - 1];
      UnknownRoundsAreErased(t, init);
      CountedIdempotent(init);
      if Counts(o) {
        NoticesStep(t, Counted(init), o);
      } else {
        assert Counted(h) == Counted(init) && NoticeFor(t, Counted(init), o) == None;
        assert Notices(t, h) == Notices(t, init);
      }
    }
  }

  lemma {:induction false} CountedConcat(a: seq<Observation>, b: seq<Observation>)
    ensures Counted(a + b) == Counted(a) + Counted(b)
    decreases |b|
  {
    if b == [] {
      assert a + b == a;
    } else {
      var n := |b| - 1;
      CountedConcat(a, b[..n]);
      assert a + b == a + b[..n] + [b[n]] && b == b[..n] + [b[n]];
      CountedStep(a + b[..n], b[n]);
      CountedStep(b[..n], b[n]);
    }
  }

  /** A round that gave neither a healthy nor an unhealthy result might as well not have been, wherever
      in the history it came. */
  lemma OddRoundChangesNothing(t: Timing, a: seq<Observation>, o: Observation, b: seq<Observation>)
    requires !o.result.outcome.Healthy? && !o.result.outcome.Unhealthy?
    ensures Notices(t, a + [o] + b) == Notices(t, a + b)
  {
    CountedStep(a, o);
    CountedConcat(a + [o], b);
    CountedConcat(a, b);
    assert Counted(a) + [] == Counted(a);
    UnknownRoundsAreErased(t, a + [o] + b);
    UnknownRoundsAreErased(t, a + b);
  }

  /** The notices that change a node condition: fire and recover. */
  function Transitions(ns: seq<Notice>): seq<Notice> {
    if ns == [] then []
    else Transitions(ns[..|ns| - 1]) + if ns[|ns| - 1].Summary? then [] else [ns[|ns| - 1]]
  }

  ghost predicate AlternatesFromFire(ns: seq<Notice>) {
    && (forall i :: 0 <= i < |ns| ==> ns[i].Fired? || ns[i].Recovered?)
    && (ns != [] ==> ns[0].Fired?)
    && (forall i, j :: 0 <= i < j < |ns| && j == i + 1 ==> ns[i].Fired? != ns[j].Fired?)
  }

  predicate EndsFired(ns: seq<Notice>) {
    ns != [] && ns[|ns| - 1].Fired?
  }

  lemma TransitionsStep(ns: seq<Notice>, n: Notice)
    ensures Transitions(ns + [n]) == Transitions(ns) + if n.Summary? then [] else [n]
  {
    PrefixOfExtension(ns, n);
  }

  /** Fire and recover strictly alternate, fire first, and the last one says whether it is fired. */
  lemma {:induction false} EpisodesAlternate(t: Timing, h: seq<Observation>)
    requires ValidTiming(t)
    ensures AlternatesFromFire(Transitions(Notices(t, h)))
    ensures FiredBy(t, Counted(h)) <==> EndsFired(Transitions(Notices(t, h)))
  {
    if h != [] {
      var init, o := h[..|h| - 1], h[|h| - 1];
      EpisodesAlternate(t, init);
      var c, said, next := Counted(init), Notices(t, init), NoticeFor(t, Counted(init), o);
      CountedStep(init, o);
      NoticesStep(t, init, o);
      assert h == init + [o];
      if o.result.outcome.Healthy? {
        HealthyStep(t, c, o);
      } else if o.result.outcome.Unhealthy? {
        UnhealthyStep(t, c, o);
      } else {
        assert c + [] == c;
      }
      if next.Some? {
        TransitionsStep(said, next.value);
        AlternationStep(Transitions(said), next.value);
      } else {
        assert said + Listed(next) == said;
      }
    }
  }

  lemma AlternationStep(tr: seq<Notice>, n: Notice)
    requires AlternatesFromFire(tr)
    requires n.Fired? ==> !EndsFired(tr)
    requires n.Recovered? ==> EndsFired(tr)
    ensures
      var after := tr + if n.Summary? then [] else [n];
      AlternatesFromFire(after) && EndsFired(after) == if n.Summary? then EndsFired(tr) else n.Fired?
  {
    if n.Summary? {
      assert tr + [] == tr;
    }
  }

  /** The clock never goes back across h. */
  ghost predicate Monotone(h: seq<Observation>) {
    forall i, j :: 0 <= i <= j < |h| ==> h[i].at <= h[j].at
  }

  /** A failure streak that reached the threshold without firing began inside the grace period. */
  lemma UnfiredStreakBeganInGrace(t: Timing, h: seq<Observation>)
    requires ValidTiming(t) && Monotone(h)
    requires FailureRun(h) >= t.failureThreshold && !FiredBy(t, h)
    ensures StreakStart(h) < t.startedAt + t.grace
  {
    assert h[..|h|] == h;
    if !InGrace(t, StreakStart(h)) {
      assert FiredSince(t, h, |h| - 1);
    }
  }

  /** A summary is said exactly for a completed streak of failures that began outside the grace period
      while nothing was fired, and it carries that streak's length: 1 to failureThreshold-1 failures if
      the clock never went back. */
  lemma SummaryIsAShortEpisode(t: Timing, h: seq<Observation>, o: Observation, n: nat)
    requires ValidTiming(t)
    ensures NoticeFor(t, h, o) == Some(Summary(n)) <==>
            && o.result.outcome.Healthy?
            && !FiredBy(t, h)
            && FailureRun(h) == n >= 1
            && StreakStart(h) >= t.startedAt + t.grace
    ensures Monotone(h) && NoticeFor(t, h, o) == Some(Summary(n)) ==> n < t.failureThreshold
  {
    if Monotone(h) && FailureRun(h) >= t.failureThreshold && !FiredBy(t, h) {
      UnfiredStreakBeganInGrace(t, h);
    }
  }

  // ---------------------------------------------------------------------------
  // The runner itself
  // ---------------------------------------------------------------------------

  function SummarySeverity(s: Severity): Severity {
    if s == Info then Info else Warning
  }

  /** The condition a notice becomes. A recovery is sent only for a Fatal check: any other
      severity recorded an event when it fired, so there is nothing to resolve. */
  function ToCondition(reason: string, severity: Severity, n: Notice): Option<Condition> {
    match n
    case Fired(detail) => Some(Condition(reason, detail, severity, 0, false))
    case Summary(_) => Some(Condition(reason, "check failed and recovered", SummarySeverity(severity), 0, false))
    case Recovered =>
      if severity == Fatal then Some(Condition(reason, "the check is healthy again", Fatal, 0, true)) else None
  }

  /** What the check sends to the manager for its next counted result. */
  ghost function Sends(reason: string, severity: Severity, t: Timing, h: seq<Observation>, o: Observation): seq<Condition> {
    match NoticeFor(t, h, o)
    case None => []
    case Some(n) => Listed(ToCondition(reason, severity, n))
  }

  /** What a condition sent says: it asks for no prior occurrences and names the check. A firing has
      the check's severity and the failure's own detail; a summary is never Fatal; only a Fatal check
      resolves. */
  lemma WhatIsSent(reason: string, severity: Severity, t: Timing, h: seq<Observation>, o: Observation, c: Condition)
    requires c in Sends(reason, severity, t, h, o)
    ensures c.reason == reason && c.minOccurrences == 0
    ensures c.resolved ==> c.severity == severity == Fatal && NoticeFor(t, h, o) == Some(Recovered)
    ensures !c.resolved && NoticeFor(t, h, o).value.Fired? ==> c.severity == severity && c.message == o.result.detail
    ensures !c.resolved && !NoticeFor(t, h, o).value.Fired? ==>
              NoticeFor(t, h, o).value.Summary? && c.severity == if severity.Info? then Info else Warning
  {
    hide FiredBy, Trips, RecoversAt, StreakStart;
  }

  /** Everything is sent but the recovery of a check that is not Fatal. */
  lemma WhatIsNotSent(reason: string, severity: Severity, t: Timing, h: seq<Observation>, o: Observation)
    ensures Sends(reason, severity, t, h, o) == [] <==>
            NoticeFor(t, h, o).None? || (NoticeFor(t, h, o) == Some(Recovered) && severity != Fatal)
  {
    hide FiredBy, Trips, RecoversAt, StreakStart, NoticeFor;
  }

  class CheckState {
    const reason: string
    const severity: Severity
    var consecutiveFailures: int
    var consecutiveHealthy: int
    var fired: bool
    var streakStart: int
    var streakStartedInGrace: bool
    ghost var seen: seq<Observation>  // every result of this check that counted

    /** Every field is the value its name promises, read off the history of results. */
    ghost predicate Valid(t: Timing)
      reads this
    {
      && consecutiveFailures == FailureRun(seen)
      && (fired <==> FiredBy(t, seen))
      && consecutiveHealthy == (if fired then HealthyRun(seen) else 0)
      && (consecutiveFailures > 0 ==>
        streakStart == StreakStart(seen) && streakStartedInGrace == InGrace(t, StreakStart(seen)))
    }

    constructor (reason: string, severity: Severity)
      ensures this.reason == reason && this.severity == severity && seen == []
      ensures forall t :: Valid(t)
    {
      this.reason, this.severity := reason, severity;
      consecutiveFailures, consecutiveHealthy, fired := 0, 0, false;
      streakStart, streakStartedInGrace := 0, false;
      seen := [];
    }
  }

  datatype Round = Round(at: int, liveness: Result, readiness: Result)

  function LivenessResults(rounds: seq<Round>): seq<Observation> {
    if rounds == [] then []
    else LivenessResults(rounds[..|rounds| - 1]) + [Observation(rounds[|rounds| - 1].liveness, rounds[|rounds| - 1].at)]
  }

  /** Readiness is asked only in the rounds whose liveness was healthy. */
  function ReadinessResults(rounds: seq<Round>): seq<Observation> {
    if rounds == [] then []
    else
      var r := rounds[|rounds| - 1];
      ReadinessResults(rounds[..|rounds| - 1]) +
      if r.liveness.outcome.Healthy? then [Observation(r.readiness, r.at)] else []
  }

  /** The rounds in which readiness was asked. */
  function Asked(rounds: seq<Round>): seq<Round> {
    if rounds == [] then []
    else Asked(rounds[..|rounds| - 1]) + if rounds[|rounds| - 1].liveness.outcome.Healthy? then [rounds[|rounds| - 1]] else []
  }

  lemma RoundStep(rounds: seq<Round>, r: Round)
    ensures LivenessResults(rounds + [r]) == LivenessResults(rounds) + [Observation(r.liveness, r.at)]
    ensures ReadinessResults(rounds + [r]) ==
      if r.liveness.outcome.Healthy? then ReadinessResults(rounds) + [Observation(r.readiness, r.at)] else ReadinessResults(rounds)
  {
    PrefixOfExtension(rounds, r);
  }

  lemma RoundSeen(rounds: seq<Round>, r: Round)
    ensures
      var o := Observation(r.liveness, r.at);
      Counted(LivenessResults(rounds + [r])) == Counted(LivenessResults(rounds)) + if Counts(o) then [o] else []
    ensures
      var o := Observation(r.readiness, r.at);
      Counted(ReadinessResults(rounds + [r])) ==
      Counted(ReadinessResults(rounds)) + if r.liveness.outcome.Healthy? && Counts(o) then [o] else []
  {
    RoundStep(rounds, r);
    CountedStep(LivenessResults(rounds), Observation(r.liveness, r.at));
    CountedStep(ReadinessResults(rounds), Observation(r.readiness, r.at));
  }

  /** Readiness holds still while liveness is not healthy: dropping all those rounds changes
      neither its results nor anything it says. */
  lemma {:induction false} ReadinessHoldsStill(t: Timing, rounds: seq<Round>)
    ensures ReadinessResults(Asked(rounds)) == ReadinessResults(rounds)
    ensures Notices(t, ReadinessResults(Asked(rounds))) == Notices(t, ReadinessResults(rounds))
  {
    if rounds != [] {
      var init, r := rounds[..|rounds| - 1], rounds[|rounds| - 1];
      ReadinessHoldsStill(t, init);
      if r.liveness.outcome.Healthy? {
        RoundStep(Asked(init), r);
      } else {
        assert Asked(rounds) == Asked(init) && ReadinessResults(rounds) == ReadinessResults(init);
      }
    }
  }

  class Runner {
    const subsystem: string
    const timing: Timing
    const manager: Notifications
    const liveness: CheckState
    const readiness: CheckState?  // null when the spec has no readiness check
    ghost var rounds: seq<Round>

    ghost predicate Valid()
      reads this, liveness, readiness
    {
      && ValidTiming(timing)
      && liveness != readiness
      && liveness.Valid(timing)
      && liveness.seen == Counted(LivenessResults(rounds))
      && (readiness != null ==>
        readiness.Valid(timing) && readiness.seen == Counted(ReadinessResults(rounds)))
    }

    /** A recovery threshold of zero means resolve on the first healthy result. */
    constructor (subsystem: string, failureThreshold: int, recoveryThreshold: int, grace: int, startedAt: int,
                 manager: Notifications, liveness: CheckState, readiness: CheckState?)
      requires 1 <= failureThreshold && 0 <= recoveryThreshold && 0 <= grace
      requires liveness != readiness
      requires liveness.seen == [] && forall t :: liveness.Valid(t)
      requires readiness != null ==> readiness.seen == [] && forall t :: readiness.Valid(t)
      ensures Valid() && rounds == []
      ensures this.manager == manager && this.liveness == liveness && this.readiness == readiness
      ensures timing == Timing(failureThreshold, if recoveryThreshold == 0 then 1 else recoveryThreshold, grace, startedAt)
    {
      this.subsystem := subsystem;
      timing := Timing(failureThreshold, if recoveryThreshold == 0 then 1 else recoveryThreshold, grace, startedAt);
      this.manager, this.liveness, this.readiness := manager, liveness, readiness;
      rounds := [];
    }

    /** One round: liveness first, and readiness only when liveness is healthy. */
    method RunOnce(round: Round) returns (failed: bool)
      requires Valid()
      modifies this, manager, liveness, readiness
      ensures Valid() && rounds == old(rounds) + [round]
      ensures manager.queue == old(manager.queue)
                + Sends(liveness.reason, liveness.severity, timing, old(liveness.seen), Observation(round.liveness, round.at))
                + (if round.liveness.outcome.Healthy? && readiness != null
                   then Sends(readiness.reason, readiness.severity, timing, old(readiness.seen), Observation(round.readiness, round.at))
                   else [])
      ensures failed == (round.liveness.outcome.Unexpected? ||
                         (round.liveness.outcome.Healthy? && readiness != null && round.readiness.outcome.Unexpected?))
    {
      ghost var before := rounds;
      rounds := rounds + [round];
      RoundSeen(before, round);
      failed := Apply(liveness, round.liveness, round.at);
      if !round.liveness.outcome.Healthy? || readiness == null {
        return;
      }
      var readinessFailed := Apply(readiness, round.readiness, round.at);
      failed := failed || readinessFailed;
    }

    /** Records one result and sends at most one condition for it. */
    method Apply(cs: CheckState, result: Result, now: int) returns (failed: bool)
      requires ValidTiming(timing) && cs.Valid(timing)
      modifies cs, manager
      ensures cs.Valid(timing)
      ensures cs.seen == old(cs.seen) + if Counts(Observation(result, now)) then [Observation(result, now)] else []
      ensures manager.queue == old(manager.queue)
                + Sends(cs.reason, cs.severity, timing, old(cs.seen), Observation(result, now))
      ensures failed <==> result.outcome.Unexpected?
    {
      failed := false;
      match result.outcome {
        case Unknown =>
        case Healthy => ApplyHealthy(cs, result, now);
        case Unhealthy => ApplyUnhealthy(cs, result, now);
        case Unexpected(_) => failed := true;
      }
    }

    method ApplyHealthy(cs: CheckState, result: Result, now: int)
      requires ValidTiming(timing) && cs.Valid(timing) && result.outcome.Healthy?
      modifies cs, manager
      ensures cs.Valid(timing) && cs.seen == old(cs.seen) + [Observation(result, now)]
      ensures manager.queue == old(manager.queue)
                + Sends(cs.reason, cs.severity, timing, old(cs.seen), Observation(result, now))
    {
      ghost var h, o := cs.seen, Observation(result, now);
      HealthyStep(timing, h, o);
      if FiredBy(timing, h) {
        FiredAwaitsRecovery(timing, h);
      }
      hide FiredBy, StreakStart, NoticeFor, FailureRun, HealthyRun;
      assert manager.queue + [] == manager.queue;
      cs.seen := cs.seen + [o];

      var streak := cs.consecutiveFailures;
      cs.consecutiveFailures := 0;
      if !cs.fired {
        if streak == 0 || cs.streakStartedInGrace {
          return;
        }
        manager.Notify(Condition(cs.reason, "check failed and recovered", SummarySeverity(cs.severity), 0, false));
        return;
      }
      cs.consecutiveHealthy := cs.consecutiveHealthy + 1;
      if cs.consecutiveHealthy < timing.recoveryThreshold {
        return;
      }
      cs.fired := false;
      cs.consecutiveHealthy := 0;
      if cs.severity != Fatal {
        return;
      }
      manager.Notify(Condition(cs.reason, "the check is healthy again", Fatal, 0, true));
    }

    method ApplyUnhealthy(cs: CheckState, result: Result, now: int)
      requires ValidTiming(timing) && cs.Valid(timing) && result.outcome.Unhealthy?
      modifies cs, manager
      ensures cs.Valid(timing) && cs.seen == old(cs.seen) + [Observation(result, now)]
      ensures manager.queue == old(manager.queue)
                + Sends(cs.reason, cs.severity, timing, old(cs.seen), Observation(result, now))
    {
      ghost var h, o := cs.seen, Observation(result, now);
      UnhealthyStep(timing, h, o);
      hide FiredBy, StreakStart, NoticeFor, FailureRun, HealthyRun;
      assert manager.queue + [] == manager.queue;
      cs.seen := cs.seen + [o];

      var inGrace := InGrace(timing, now);
      if cs.consecutiveFailures == 0 {
        cs.streakStart := now;
        cs.streakStartedInGrace := inGrace;
      }
      cs.consecutiveFailures := cs.consecutiveFailures + 1;
      cs.consecutiveHealthy := 0;
      if cs.fired || inGrace || cs.consecutiveFailures < timing.failureThreshold {
        return;
      }
      cs.fired := true;
      manager.Notify(Condition(cs.reason, result.detail, cs.severity, 0, false));
    }
  }
}
