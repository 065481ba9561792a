/** The driver probe behind an escalation: calls of the reader, each with the steps its probe's caller
    and goroutines took, and how old the outstanding probe call then is. */
module ProbeCalls {
  import opened Monitor
  import opened Reader
  import opened InFlight

  /** One call of the reader, with the steps of the probe's protocol since the call before it: its own
      run of the probe, interleaved with those of goroutines that earlier runs abandoned. */
  datatype Turn = Turn(call: Reader.Call, steps: seq<Step<()>>)

  function CallsOf(turns: seq<Turn>): (h: seq<Reader.Call>)
    ensures |h| == |turns| && forall i :: 0 <= i < |turns| ==> h[i] == turns[i].call
  {
    seq(|turns|, i requires 0 <= i < |turns| => turns[i].call)
  }

  function StepsOf(turns: seq<Turn>): seq<Step<()>> {
    if turns == [] then [] else StepsOf(turns[..|turns| - 1]) + turns[|turns| - 1].steps
  }

  // ---------------------------------------------------------------------------
  // The caller's side of the protocol
  // ---------------------------------------------------------------------------

  predicate IsCallers(step: Step<()>) {
    !step.Return? && !step.Clear? && !step.Publish? && !step.Close?
  }

  /** The steps the caller took. */
  function Callers(steps: seq<Step<()>>): seq<Step<()>> {
    if steps == [] then []
    else Callers(steps[..|steps| - 1]) + if IsCallers(steps[|steps| - 1]) then [steps[|steps| - 1]] else []
  }

  /** What only the caller changes: where it is, what it waits for, and when each call started. */
  datatype Side = Side(caller: Caller, pending: Option<nat>, starts: seq<int>)

  function SideOf(s: State<()>): Side {
    Side(s.caller, s.pending, seq(|s.calls|, i requires 0 <= i < |s.calls| => s.calls[i].startedAt))
  }

  predicate Allowed(c: Side, step: Step<()>) {
    match step
    case EnterFresh => c.caller.Idle? && c.pending.None?
    case EnterReaped => c.caller.Idle? && c.pending.Some?
    case EnterStuck => c.caller.Idle? && c.pending.Some?
    case Claim => c.caller.Entered?
    case Stamp(_) => c.caller.Claimed?
    case Spawn => c.caller.Stamped?
    case Receive(_) => c.caller.Waiting?
    case TimeOut => c.caller.Waiting?
    case _ => false
  }

  function SideNext(c: Side, step: Step<()>): Side
    requires Allowed(c, step)
  {
    match step
    case EnterFresh => c.(caller := Entered)
    case EnterReaped => c.(caller := Entered, pending := None)
    case EnterStuck => c
    case Claim => c.(caller := Claimed, pending := Some(|c.starts|))
    case Stamp(at) => c.(caller := Stamped(at))
    case Spawn => c.(caller := Waiting, starts := c.starts + [c.caller.at])
    case Receive(_) => c.(caller := Idle, pending := None)
    case TimeOut => c.(caller := Idle)
  }

  ghost predicate SideRuns(c: Side, steps: seq<Step<()>>)
    decreases |steps|, 0
  {
    steps == [] || (SideRuns(c, steps[..|steps| - 1]) && Allowed(SideAfter(c, steps[..|steps| - 1]), steps[|steps| - 1]))
  }

  ghost function SideAfter(c: Side, steps: seq<Step<()>>): Side
    requires SideRuns(c, steps)
    decreases |steps|, 1
  {
    if steps == [] then c else SideNext(SideAfter(c, steps[..|steps| - 1]), steps[|steps| - 1])
  }

  lemma StepOnSide(s: State<()>, step: Step<()>)
    requires Enabled(s, step)
    ensures IsCallers(step) ==> Allowed(SideOf(s), step) && SideOf(Next(s, step)) == SideNext(SideOf(s), step)
    ensures !IsCallers(step) ==> SideOf(Next(s, step)) == SideOf(s)
  {
    assert step.Spawn? ==> SideOf(Next(s, step)).starts == SideOf(s).starts + [s.caller.at];
    assert !step.Spawn? ==> SideOf(Next(s, step)).starts == SideOf(s).starts;
  }

  lemma SideGoesOneStep(run: seq<Step<()>>, step: Step<()>, c: Side, m: seq<Step<()>>)
    requires IsRun(Initial(), run) && IsRun(Initial(), run + [step])
    requires SideRuns(c, m) && SideOf(InFlight.After(Initial(), run)) == SideAfter(c, m)
    ensures var m' := m + if IsCallers(step) then [step] else [];
            SideRuns(c, m') && SideOf(InFlight.After(Initial(), run + [step])) == SideAfter(c, m')
  {
    hide SideOf, SideNext, Allowed, Enabled, Next, IsCallers;
    PrefixOfExtension(run, step);
    StepOnSide(InFlight.After(Initial(), run), step);
    SideStep(c, m, step);
  }

  lemma SideAtFirst(c: Side)
    ensures SideRuns(c, Callers([])) && SideAfter(c, Callers([])) == c
  {
  }

  /** However the goroutines interleave, the caller's side goes by the caller's steps alone. */
  lemma {:induction false} SideGoesByItsSteps(before: seq<Step<()>>, steps: seq<Step<()>>)
    requires IsRun(Initial(), before + steps)
    ensures IsRun(Initial(), before)
    ensures var c := SideOf(InFlight.After(Initial(), before));
            SideRuns(c, Callers(steps)) && SideOf(InFlight.After(Initial(), before + steps)) == SideAfter(c, Callers(steps))
    decreases |steps|
  {
    hide SideOf, SideRuns, SideAfter, Callers, IsRun, InFlight.After, IsCallers;
    PrefixIsRun(Initial(), before + steps, |before|);
    assert (before + steps)[..|before|] == before;
    if steps == [] {
      assert before + steps == before;
      SideAtFirst(SideOf(InFlight.After(Initial(), before)));
    } else {
      var n := |steps| - 1;
      var run := before + steps[..n];
      PrefixIsRun(Initial(), before + steps, |run|);
      assert (before + steps)[..|run|] == run && run + [steps[n]] == before + steps;
      SideGoesByItsSteps(before, steps[..n]);
      OneMoreCallers(steps[..n], steps[n]);
      assert steps == steps[..n] + [steps[n]];
      SideGoesOneStep(run, steps[n], SideOf(InFlight.After(Initial(), before)), Callers(steps[..n]));
    }
  }

  lemma OneMoreCallers(steps: seq<Step<()>>, step: Step<()>)
    ensures Callers(steps + [step]) == Callers(steps) + if IsCallers(step) then [step] else []
  {
    PrefixOfExtension(steps, step);
  }

  lemma SideStep(c: Side, steps: seq<Step<()>>, step: Step<()>)
    requires SideRuns(c, steps)
    ensures Allowed(SideAfter(c, steps), step) ==>
              SideRuns(c, steps + [step]) && SideAfter(c, steps + [step]) == SideNext(SideAfter(c, steps), step)
    ensures SideRuns(c, steps + []) && SideAfter(c, steps + []) == SideAfter(c, steps)
  {
    PrefixOfExtension(steps, step);
    assert steps + [] == steps;
  }

  // ---------------------------------------------------------------------------
  // Runs of the probe
  // ---------------------------------------------------------------------------

  /** The run found an earlier call outstanding. */
  predicate Waits(m: seq<Step<()>>) {
    m == [EnterStuck]
  }

  /** The run made a call of its own. */
  predicate Begins(m: seq<Step<()>>) {
    && |m| == 5 && (m[0].EnterFresh? || m[0].EnterReaped?) && m[1].Claim? && m[2].Stamp? && m[3].Spawn?
    && (m[4].TimeOut? || m[4].Receive?)
  }

  /** Turn i made a call. */
  predicate BeginsAt(turns: seq<Turn>, i: nat) {
    i < |turns| && Begins(Callers(turns[i].steps))
  }

  /** Turn i found that an earlier call, abandoned at its deadline, had come back after all. */
  predicate ReapsAt(turns: seq<Turn>, i: nat) {
    BeginsAt(turns, i) && Callers(turns[i].steps)[0].EnterReaped?
  }

  /** The reader runs the probe in a call exactly while the checks are stalled, and sees it stuck
      when it finds a call outstanding or its own does not come back in time. */
  predicate Fits(turns: seq<Turn>, i: nat)
    requires i < |turns|
  {
    var h, m, c := CallsOf(turns), Callers(turns[i].steps), turns[i].call;
    if !ReadyBy(h[..i]) || !Stalled(c) then m == []
    else
      || (Waits(m) && c.probe.Stuck?)
      || (Begins(m) && c.third <= m[2].at <= c.fourth && c.probe == if m[4].TimeOut? then Stuck else Done)
  }

  ghost predicate Traced(turns: seq<Turn>) {
    IsRun(Initial(), StepsOf(turns)) && forall i :: 0 <= i < |turns| ==> Fits(turns, i)
  }

  lemma {:induction false} StepsOfPrefix(turns: seq<Turn>, k: nat)
    requires k <= |turns| && IsRun(Initial(), StepsOf(turns))
    ensures IsRun(Initial(), StepsOf(turns[..k]))
    decreases |turns|
  {
    if k < |turns| {
      var before := turns[..|turns| - 1];
      PrefixIsRun(Initial(), StepsOf(turns), |StepsOf(before)|);
      assert StepsOf(turns)[..|StepsOf(before)|] == StepsOf(before);
      StepsOfPrefix(before, k);
      assert before[..k] == turns[..k];
    } else {
      assert turns[..k] == turns;
    }
  }

  /** The probe's protocol after the first k turns. */
  ghost function StateAt(turns: seq<Turn>, k: nat): State<()>
    requires k <= |turns| && Traced(turns)
  {
    StepsOfPrefix(turns, k);
    InFlight.After(Initial(), StepsOf(turns[..k]))
  }

  /** The last of the first k turns that made a call. */
  function LastBegun(turns: seq<Turn>, k: nat): Option<nat>
    requires k <= |turns|
  {
    if k == 0 then None else if BeginsAt(turns, k - 1) then Some(k - 1) else LastBegun(turns, k - 1)
  }

  lemma {:induction false} LastBegunIsLast(turns: seq<Turn>, k: nat)
    requires k <= |turns| && LastBegun(turns, k).Some?
    ensures var i := LastBegun(turns, k).value;
            i < k && BeginsAt(turns, i) && forall m :: i < m < k ==> !BeginsAt(turns, m)
    decreases k
  {
    if !BeginsAt(turns, k - 1) {
      LastBegunIsLast(turns, k - 1);
    }
  }

  /** A run of the probe from an idle caller: it ends idle; it made a call if it began one, fresh
      exactly when nothing was pending; and it leaves that call pending when it times out. */
  lemma RunOfTheProbe(c: Side, m: seq<Step<()>>)
    requires c.caller.Idle? && SideRuns(c, m) && (m == [] || Waits(m) || Begins(m))
    ensures SideAfter(c, m).caller.Idle?
    ensures !Begins(m) ==> SideAfter(c, m) == c && (m != [] ==> c.pending.Some?)
    ensures Begins(m) ==> SideAfter(c, m).starts == c.starts + [m[2].at] && (m[0].EnterFresh? <==> c.pending.None?)
    ensures Begins(m) ==> SideAfter(c, m).pending == if m[4].TimeOut? then Some(|c.starts|) else None
  {
    if Waits(m) {
      assert m[..0] == [];
    } else if Begins(m) {
      assert m[..4][..3] == m[..3] && m[..3][..2] == m[..2] && m[..2][..1] == m[..1] && m[..1][..0] == [];
      assert SideRuns(c, m[..4]) && SideRuns(c, m[..3]) && SideRuns(c, m[..2]) && SideRuns(c, m[..1]) && SideRuns(c, []);
      assert SideAfter(c, m[..1]) == SideNext(c, m[0]);
      assert SideAfter(c, m[..2]) == SideNext(SideAfter(c, m[..1]), m[1]);
      assert SideAfter(c, m[..3]) == SideNext(SideAfter(c, m[..2]), m[2]);
      assert SideAfter(c, m[..4]) == SideNext(SideAfter(c, m[..3]), m[3]);
    }
  }

  /** Between two turns the caller is idle; the last call made is the one its turn stamped; and after
      a stuck turn that call is still pending. */
  ghost predicate AtRest(turns: seq<Turn>, k: nat)
    requires k <= |turns| && Traced(turns)
  {
    var c, begun := SideOf(StateAt(turns, k)), LastBegun(turns, k);
    && c.caller.Idle?
    && (begun.None? <==> c.starts == [])
    && (begun.Some? ==> BeginsAt(turns, begun.value) && c.starts[|c.starts| - 1] == Callers(turns[begun.value].steps)[2].at)
    && (c.pending.Some? ==> c.pending.value + 1 == |c.starts|)
    && (k > 0 && IsStuckCall(CallsOf(turns), k - 1) ==> c.pending.Some?)
  }

  lemma TurnOnSide(turns: seq<Turn>, k: nat)
    requires k < |turns| && Traced(turns)
    ensures var c, m := SideOf(StateAt(turns, k)), Callers(turns[k].steps);
            SideRuns(c, m) && SideOf(StateAt(turns, k + 1)) == SideAfter(c, m)
  {
    StepsOfPrefix(turns, k + 1);
    assert turns[..k + 1][..k] == turns[..k] && turns[..k + 1][k] == turns[k];
    assert StepsOf(turns[..k + 1]) == StepsOf(turns[..k]) + turns[k].steps;
    SideGoesByItsSteps(StepsOf(turns[..k]), turns[k].steps);
  }

  lemma AtRestInitially(turns: seq<Turn>)
    requires Traced(turns)
    ensures AtRest(turns, 0)
  {
    assert turns[..0] == [];
  }

  /** What the reader sees of the probe in a turn, by the shape of the turn's run of it. */
  lemma SeenByTheReader(turns: seq<Turn>, k: nat)
    requires k < |turns| && Traced(turns)
    ensures var m := Callers(turns[k].steps);
            && (m == [] || Waits(m) || Begins(m))
            && (IsStuckCall(CallsOf(turns), k) ==> Waits(m) || (Begins(m) && m[4].TimeOut?))
  {
    hide Callers;
    assert Fits(turns, k);
  }

  lemma AtRestStep(turns: seq<Turn>, k: nat)
    requires k < |turns| && Traced(turns) && AtRest(turns, k)
    ensures AtRest(turns, k + 1)
  {
    hide StateAt, Traced, Callers, SideRuns, SideAfter, SideOf, IsStuckCall;
    TurnOnSide(turns, k);
    SeenByTheReader(turns, k);
    RunOfTheProbe(SideOf(StateAt(turns, k)), Callers(turns[k].steps));
  }

  lemma {:induction false} AlwaysAtRest(turns: seq<Turn>, k: nat)
    requires k <= |turns| && Traced(turns)
    ensures AtRest(turns, k)
    decreases k
  {
    hide AtRest, Traced;
    if k == 0 {
      AtRestInitially(turns);
    } else {
      AlwaysAtRest(turns, k - 1);
      AtRestStep(turns, k - 1);
    }
  }

  /** A turn that makes a call right after a stuck one reaped the call that one left pending. */
  lemma BeginsByReaping(turns: seq<Turn>, i: nat)
    requires Traced(turns) && 0 < i < |turns| && BeginsAt(turns, i) && IsStuckCall(CallsOf(turns), i - 1)
    ensures ReapsAt(turns, i)
  {
    hide StateAt, Traced, Callers, SideRuns, SideAfter, SideOf, IsStuckCall;
    AlwaysAtRest(turns, i);
    TurnOnSide(turns, i);
    RunOfTheProbe(SideOf(StateAt(turns, i)), Callers(turns[i].steps));
  }

  /** After a stuck turn a probe call is pending, made by the last turn that made any. */
  lemma OneCallIsPending(turns: seq<Turn>, j: nat) returns (i: nat)
    requires Traced(turns) && j < |turns| && IsStuckCall(CallsOf(turns), j)
    ensures i <= j && BeginsAt(turns, i) && forall m :: i < m <= j ==> !BeginsAt(turns, m)
    ensures var s := StateAt(turns, j + 1);
            && s.calls != [] && s.pending == Some(|s.calls| - 1)
            && turns[i].call.third <= s.calls[|s.calls| - 1].startedAt <= turns[i].call.fourth
  {
    hide StateAt, Callers, Begins, Waits, IsStuckCall, ReadyBy, Stalled;
    AlwaysAtRest(turns, j + 1);
    LastBegunIsLast(turns, j + 1);
    i := LastBegun(turns, j + 1).value;
    StampedInItsTurn(turns, i);
    var s := StateAt(turns, j + 1);
    assert SideOf(s).starts[|s.calls| - 1] == s.calls[|s.calls| - 1].startedAt;
  }

  lemma StampedInItsTurn(turns: seq<Turn>, i: nat)
    requires Traced(turns) && BeginsAt(turns, i)
    ensures turns[i].call.third <= Callers(turns[i].steps)[2].at <= turns[i].call.fourth
  {
    hide Callers;
    assert Fits(turns, i);
  }

  lemma LaterTurnsBeginLater(turns: seq<Turn>, m: nat, i: nat)
    requires Monotone(CallsOf(turns)) && m <= i < |turns|
    ensures turns[m].call.third <= turns[i].call.third
    ensures m < i ==> turns[m].call.fourth <= turns[i].call.third
  {
    var h := CallsOf(turns);
    assert m < i ==> h[m].fourth <= h[i].first;
  }

  /** At an escalation one probe call is outstanding, made by the last turn i that made any. It began
      at least the escalation window ago, by the clock reading that turn i took right before its probe,
      exactly when no turn inside the window found that an earlier probe call had come back. The start
      that the call itself stamped lies between that reading and the turn's last one. */
  lemma EscalationsProbeIsOld(turns: seq<Turn>, j: nat) returns (i: nat)
    requires Traced(turns) && j < |turns| && Monotone(CallsOf(turns)) && Escalates(CallsOf(turns), j)
    ensures i <= j && BeginsAt(turns, i) && forall m :: i < m <= j ==> !BeginsAt(turns, m)
    ensures var s := StateAt(turns, j + 1);
            && s.calls != [] && s.pending == Some(|s.calls| - 1)
            && turns[i].call.third <= s.calls[|s.calls| - 1].startedAt <= turns[i].call.fourth
    ensures turns[j].call.fourth - turns[i].call.third >= ESCALATION_WINDOW <==>
            forall m :: 0 <= m <= j && ReapsAt(turns, m) ==> turns[j].call.fourth - turns[m].call.third >= ESCALATION_WINDOW
  {
    var first := StuckFrom(turns, j);
    hide StateAt, Traced, Callers, Escalates, IsStuckCall, Begins, Monotone;
    i := OneCallIsPending(turns, j);
    if first < i {
      BeginsByReaping(turns, i);
    } else {
      LaterTurnsBeginLater(turns, i, first);
    }
    forall m | 0 <= m <= j && ReapsAt(turns, m)
      ensures turns[m].call.third <= turns[i].call.third
    {
      assert BeginsAt(turns, m) && !(i < m <= j);
      LaterTurnsBeginLater(turns, m, i);
    }
  }

  lemma StuckFrom(turns: seq<Turn>, j: nat) returns (first: nat)
    requires j < |turns| && Monotone(CallsOf(turns)) && Escalates(CallsOf(turns), j)
    ensures first <= j && forall k: nat :: first <= k <= j ==> IsStuckCall(CallsOf(turns), k)
    ensures turns[j].call.fourth - turns[first].call.third >= ESCALATION_WINDOW
  {
    var h := CallsOf(turns);
    EscalationIsExact(h, j);
    first :| StuckThroughout(h, first, j);
  }

  // ---------------------------------------------------------------------------
  // An escalation on a probe that answers
  // ---------------------------------------------------------------------------

  /** A run of the probe whose call does not come back in time, and what that call does later. */
  function TimesOut(enter: Step<()>, at: int): seq<Step<()>> {
    [enter, Claim, Stamp(at), Spawn, TimeOut]
  }

  const COMES_BACK: seq<Step<()>> := [Return(0, ()), Clear(0), Publish(0), Close(0)]

  lemma {:induction false} CallersOnly(before: seq<Step<()>>, m: seq<Step<()>>)
    requires forall i :: 0 <= i < |m| ==> IsCallers(m[i])
    ensures Callers(before + m) == Callers(before) + m
    decreases |m|
  {
    if m == [] {
      assert before + m == before;
    } else {
      var n := |m| - 1;
      CallersOnly(before, m[..n]);
      OneMoreCallers(before + m[..n], m[n]);
      assert before + m == before + m[..n] + [m[n]];
    }
  }

  lemma {:induction false} GoroutinesOnly(m: seq<Step<()>>)
    requires forall i :: 0 <= i < |m| ==> !IsCallers(m[i])
    ensures Callers(m) == []
  {
    if m != [] {
      GoroutinesOnly(m[..|m| - 1]);
    }
  }

  lemma CallersOfARun(enter: Step<()>, at: int)
    requires enter.EnterFresh? || enter.EnterReaped?
    ensures Callers(TimesOut(enter, at)) == TimesOut(enter, at)
    ensures Callers(COMES_BACK + TimesOut(enter, at)) == TimesOut(enter, at)
  {
    CallersOnly([], TimesOut(enter, at));
    GoroutinesOnly(COMES_BACK);
    CallersOnly(COMES_BACK, TimesOut(enter, at));
    assert [] + TimesOut(enter, at) == TimesOut(enter, at);
  }

  lemma RunTimesOut(steps: seq<Step<()>>, enter: Step<()>, at: int) returns (longer: seq<Step<()>>)
    requires IsRun(Initial(), steps) && at > 0
    requires (enter.EnterFresh? || enter.EnterReaped?) && Enabled(InFlight.After(Initial(), steps), enter)
    ensures longer == steps + TimesOut(enter, at) && IsRun(Initial(), longer)
    ensures var s, s' := InFlight.After(Initial(), steps), InFlight.After(Initial(), longer);
            s'.caller.Idle? && s'.pending == Some(|s.calls|) && s'.calls == s.calls + [InFlight.Call(at, InCall, None, None)]
            && s'.inDriverSince == at
  {
    hide IsRun, InFlight.After;
    var s1 := Extend(steps, enter);
    var s2 := Extend(s1, Claim);
    var s3 := Extend(s2, Stamp(at));
    var s4 := Extend(s3, Spawn);
    longer := Extend(s4, TimeOut);
    assert longer == steps + TimesOut(enter, at);
  }

  lemma CallComesBack(steps: seq<Step<()>>) returns (longer: seq<Step<()>>)
    requires IsRun(Initial(), steps)
    requires var s := InFlight.After(Initial(), steps);
             s.caller.Idle? && s.pending == Some(0) && |s.calls| == 1 && s.calls[0].phase.InCall?
    ensures longer == steps + COMES_BACK && IsRun(Initial(), longer)
    ensures var s' := InFlight.After(Initial(), longer);
            s'.caller.Idle? && s'.pending == Some(0) && |s'.calls| == 1 && s'.calls[0].phase.Closed?
  {
    hide IsRun, InFlight.After;
    var s1 := Extend(steps, Return(0, ()));
    var s2 := Extend(s1, Clear(0));
    var s3 := Extend(s2, Publish(0));
    longer := Extend(s3, Close(0));
    assert longer == steps + COMES_BACK;
  }

  /** A reader that found Init to succeed, and then, twice, the checks stalled and a probe that did not
      come back in time; the first of the probe's two calls came back in between. */
  function SlowProbe(): (turns: seq<Turn>)
    ensures |turns| == 3
  {
    var t1, t2 := 1 + STALL_DURATION, 1 + STALL_DURATION + ESCALATION_WINDOW;
    [ Turn(Reader.Call(1, 1, 1, 1, [], 0, InitDone(true, SUCCESS), Done, Unreadable), []),
      Turn(Reader.Call(t1, t1, t1, t1, [1], 0, InitStuck, Stuck, Full(0.0)), TimesOut(EnterFresh, t1)),
      Turn(Reader.Call(t2, t2, t2, t2, [1], 0, InitStuck, Stuck, Full(0.0)), COMES_BACK + TimesOut(EnterReaped, t2)) ]
  }

  lemma SlowProbeIsStuck()
    ensures var h := CallsOf(SlowProbe());
            ReadyBy(h[..1]) && ReadyBy(h[..2]) && Monotone(h) && Stalled(h[1]) && Stalled(h[2]) && Escalates(h, 2)
  {
    var h := CallsOf(SlowProbe());
    assert h[..1] == [h[0]] && ReadyBy([h[0]]);
    ReadyStays(h, 1, 2);
    assert IsStuckCall(h, 1) && IsStuckCall(h, 2);
    assert StuckThroughout(h, 1, 2);
    EscalationIsExact(h, 2);
  }

  lemma SlowProbeRuns()
    ensures var turns := SlowProbe();
            && IsRun(Initial(), StepsOf(turns))
            && var s := InFlight.After(Initial(), StepsOf(turns));
               s.calls[0].phase.Closed? && s.pending == Some(1) && |s.calls| == 2
               && s.calls[1].startedAt == turns[2].call.fourth
  {
    var turns := SlowProbe();
    var t1, t2 := turns[1].call.first, turns[2].call.first;
    assert turns[..2][..1] == turns[..1] && turns[..1][..0] == [];
    assert StepsOf(turns[..1]) == [];
    assert StepsOf(turns[..2]) == [] + TimesOut(EnterFresh, t1);
    assert StepsOf(turns) == StepsOf(turns[..2]) + (COMES_BACK + TimesOut(EnterReaped, t2));
    hide StepsOf, TimesOut;
    var a := RunTimesOut([], EnterFresh, t1);
    var b := CallComesBack(a);
    var c := RunTimesOut(b, EnterReaped, t2);
    assert c == StepsOf(turns);
  }

  lemma SlowProbeFits(i: nat)
    requires i < 3
    ensures Fits(SlowProbe(), i)
    ensures i == 2 ==> ReapsAt(SlowProbe(), i)
  {
    SlowProbeIsStuck();
    hide Escalates, Monotone, ReadyBy, Stalled, Callers;
    var turns := SlowProbe();
    CallersOfARun(EnterFresh, turns[1].call.first);
    CallersOfARun(EnterReaped, turns[2].call.first);
    var h := CallsOf(turns);
    if i == 0 {
      NobodyCalled();
    }
    assert i == 1 || i == 2 ==> ReadyBy(h[..i]) && Stalled(h[i]);
  }

  lemma NobodyCalled()
    ensures Callers([]) == [] && !ReadyBy(CallsOf(SlowProbe())[..0])
  {
  }

  /** So a driver that answers every probe, but late, is escalated while the one probe call that is
      outstanding has only just begun. */
  lemma SlowProbeEscalates()
    ensures var turns := SlowProbe();
            && Traced(turns) && Monotone(CallsOf(turns)) && Escalates(CallsOf(turns), 2) && ReapsAt(turns, 2)
            && var s := StateAt(turns, 3);
               s.calls[0].phase.Closed? && s.pending == Some(1) && |s.calls| == 2
               && s.calls[1].startedAt == turns[2].call.fourth
  {
    hide Escalates, Monotone, Fits, StepsOf, ReapsAt, SlowProbe;
    var turns := SlowProbe();
    SlowProbeIsStuck();
    SlowProbeRuns();
    SlowProbeFits(2);
    forall i | 0 <= i < |turns|
      ensures Fits(turns, i)
    {
      SlowProbeFits(i);
    }
    assert turns[..3] == turns;
  }
}
