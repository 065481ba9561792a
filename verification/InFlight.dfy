/** One driver call at a time under a deadline: the caller, the goroutine it abandons, and the
    timestamp they share, as interleaved atomic steps. */
module InFlight {
  import opened Monitor

  /** How far one call's goroutine has come. Its steps follow the source's order: the call
      returns, the timestamp is cleared, the result is published, the done channel is closed. */
  datatype Phase = InCall | Returned | Cleared | Published | Closed

  /** One call: when it started, and the value it produced, once it has. result is what its
      channel holds. */
  datatype Call<V> = Call(startedAt: int, phase: Phase, produced: Option<V>, result: Option<V>)

  datatype Caller =
    | Idle
    | Entered            // no call outstanding: about to make one
    | Claimed            // pending is set, the timestamp is not
    | Stamped(at: int)   // the timestamp is stored, the goroutine not yet started
    | Waiting            // in the select on the result and the timer

  /** calls are numbered in the order they started; pending names the one being waited on. The
      call being started has the next number. inDriverSince is zero when no call is in the driver. */
  datatype State<V> = State(caller: Caller, pending: Option<nat>, inDriverSince: int, calls: seq<Call<V>>)

  datatype Step<V> =
    | EnterFresh           // no earlier call
    | EnterReaped          // the earlier call's channel is closed
    | EnterStuck           // it is not: return Stuck
    | Claim
    | Stamp(at: int)
    | Spawn
    | Receive(value: V)    // return Done
    | TimeOut              // return Stuck
    | Return(id: nat, value: V)
    | Clear(id: nat)
    | Publish(id: nat)
    | Close(id: nat)

  function Initial<V>(): State<V> {
    State(Idle, None, 0, [])
  }

  ghost predicate Enabled<V(!new)>(s: State<V>, step: Step<V>) {
    match step
    case EnterFresh => s.caller.Idle? && s.pending.None?
    case EnterReaped => s.caller.Idle? && s.pending.Some? && IsAt(s, s.pending.value, Closed)
    case EnterStuck => s.caller.Idle? && s.pending.Some? && !IsAt(s, s.pending.value, Closed)
    case Claim => s.caller.Entered?
    case Stamp(at) => s.caller.Claimed? && at > 0
    case Spawn => s.caller.Stamped?
    case Receive(v) => s.caller.Waiting? && s.pending.Some? && s.pending.value < |s.calls| && s.calls[s.pending.value].result == Some(v)
    case TimeOut => s.caller.Waiting?
    case Return(id, _) => IsAt(s, id, InCall)
    case Clear(id) => IsAt(s, id, Returned)
    case Publish(id) => IsAt(s, id, Cleared)
    case Close(id) => IsAt(s, id, Published)
  }

  predicate IsAt<V>(s: State<V>, id: nat, phase: Phase) {
    id < |s.calls| && s.calls[id].phase == phase
  }

  ghost function Next<V(!new)>(s: State<V>, step: Step<V>): State<V>
    requires Enabled(s, step)
  {
    match step
    case EnterFresh => s.(caller := Entered)
    case EnterReaped => s.(caller := Entered, pending := None)
    case EnterStuck => s
    case Claim => s.(caller := Claimed, pending := Some(|s.calls|))
    case Stamp(at) => s.(caller := Stamped(at), inDriverSince := at)
    case Spawn => s.(caller := Waiting, calls := s.calls + [Call(s.caller.at, InCall, None, None)])
    case Receive(_) => s.(caller := Idle, pending := None)
    case TimeOut => s.(caller := Idle)
    case Return(id, v) => s.(calls := s.calls[id := s.calls[id].(phase := Returned, produced := Some(v))])
    case Clear(id) => s.(inDriverSince := 0, calls := s.calls[id := s.calls[id].(phase := Cleared)])
    case Publish(id) => s.(calls := s.calls[id := s.calls[id].(phase := Published, result := s.calls[id].produced)])
    case Close(id) => s.(calls := s.calls[id := s.calls[id].(phase := Closed)])
  }

  ghost predicate IsRun<V(!new)>(s: State<V>, steps: seq<Step<V>>)
    decreases |steps|, 0
  {
    steps == [] || (IsRun(s, steps[..|steps| - 1]) && Enabled(After(s, steps[..|steps| - 1]), steps[|steps| - 1]))
  }

  ghost function After<V(!new)>(s: State<V>, steps: seq<Step<V>>): State<V>
    requires IsRun(s, steps)
    decreases |steps|, 1
  {
    if steps == [] then s else Next(After(s, steps[..|steps| - 1]), steps[|steps| - 1])
  }

  // ---------------------------------------------------------------------------
  // The invariant of every interleaving
  // ---------------------------------------------------------------------------

  /** The call's goroutine has not yet published, so nothing can have let a later call start. */
  predicate Outstanding(p: Phase) {
    p.InCall? || p.Returned? || p.Cleared?
  }

  predicate Last<V>(s: State<V>, id: nat) {
    id + 1 == |s.calls|
  }

  ghost predicate CallerConsistent<V(!new)>(s: State<V>) {
    match s.caller
    case Idle => s.pending.Some? ==> Last(s, s.pending.value)
    case Entered => s.pending.None?
    case Claimed => s.pending == Some(|s.calls|)
    case Stamped(at) => s.pending == Some(|s.calls|) && at > 0
    case Waiting => s.pending.Some? && Last(s, s.pending.value)
  }

  ghost predicate CallsConsistent<V(!new)>(s: State<V>) {
    forall id: nat :: id < |s.calls| ==>
      var c := s.calls[id];
      && c.startedAt > 0
      && (Outstanding(c.phase) ==> s.pending == Some(id) && Last(s, id))
      && (c.phase.InCall? ==> c.produced.None?)
      && (!c.phase.InCall? ==> c.produced.Some?)
      && c.result == if Outstanding(c.phase) then None else c.produced
  }

  /** The timestamp is zero, or it is the start of the one call being started or in the driver. */
  ghost predicate TimestampConsistent<V(!new)>(s: State<V>) {
    && (s.caller.Stamped? ==> s.inDriverSince == s.caller.at)
    && (forall id: nat :: id < |s.calls| && (s.calls[id].phase.InCall? || s.calls[id].phase.Returned?) ==>
         s.inDriverSince == s.calls[id].startedAt)
    && (s.inDriverSince != 0 ==>
         s.caller.Stamped? || (s.calls != [] && (IsAt(s, |s.calls| - 1, InCall) || IsAt(s, |s.calls| - 1, Returned))))
  }

  ghost predicate Invariant<V(!new)>(s: State<V>) {
    CallerConsistent(s) && CallsConsistent(s) && TimestampConsistent(s)
  }

  lemma StepKeepsInvariant<V(!new)>(s: State<V>, step: Step<V>)
    requires Invariant(s) && Enabled(s, step)
    ensures Invariant(Next(s, step))
  {
  }

  lemma {:induction false} RunKeepsInvariant<V(!new)>(steps: seq<Step<V>>)
    requires IsRun(Initial(), steps)
    ensures Invariant(After(Initial(), steps))
  {
    if steps != [] {
      RunKeepsInvariant(steps[..|steps| - 1]);
      StepKeepsInvariant(After(Initial<V>(), steps[..|steps| - 1]), steps[|steps| - 1]);
    }
  }

  // ---------------------------------------------------------------------------
  // What the protocol promises
  // ---------------------------------------------------------------------------

  /** In every interleaving at most one call is inside the driver, and none is while a call is
      being started. */
  lemma AtMostOneCallInDriver<V(!new)>(steps: seq<Step<V>>, i: nat, j: nat)
    requires IsRun(Initial(), steps)
    ensures
      var s := After(Initial(), steps);
      && (IsAt(s, i, InCall) && IsAt(s, j, InCall) ==> i == j)
      && (IsAt(s, i, InCall) ==> !s.caller.Entered? && !s.caller.Claimed? && !s.caller.Stamped?)
  {
    RunKeepsInvariant(steps);
  }

  /** A non-zero timestamp belongs to the one call that is being started or that has not cleared
      it, and is that call's own start time. */
  lemma TimestampIsTheCallsOwn<V(!new)>(steps: seq<Step<V>>)
    requires IsRun(Initial(), steps)
    ensures
      var s := After(Initial(), steps);
      s.inDriverSince != 0 ==>
        || (s.caller.Stamped? && s.caller.at == s.inDriverSince)
        || (s.calls != [] && var c := s.calls[|s.calls| - 1];
            (c.phase.InCall? || c.phase.Returned?) && c.startedAt == s.inDriverSince)
  {
    RunKeepsInvariant(steps);
  }

  /** Only its own goroutine takes a call's timestamp away: a clear always finds the timestamp of
      the call that clears it, and no other step changes a timestamp that is set. */
  lemma ClearErasesOnlyItsOwn<V(!new)>(steps: seq<Step<V>>, step: Step<V>)
    requires IsRun(Initial(), steps) && Enabled(After(Initial(), steps), step)
    ensures
      var s := After(Initial(), steps);
      && (step.Clear? ==> s.inDriverSince == s.calls[step.id].startedAt && Last(s, step.id) && !s.caller.Stamped?)
      && (s.inDriverSince != 0 && !step.Clear? ==> Next(s, step).inDriverSince == s.inDriverSince)
  {
    RunKeepsInvariant(steps);
  }

  /** The number of the step that started the call being waited on. */
  ghost predicate SpawnsCall<V(!new)>(steps: seq<Step<V>>, i: nat, id: nat)
    requires IsRun(Initial(), steps) && i < |steps|
  {
    PrefixIsRun(Initial(), steps, i);
    steps[i].Spawn? && |After(Initial(), steps[..i]).calls| == id
  }

  lemma {:induction false} PrefixIsRun<V(!new)>(s: State<V>, steps: seq<Step<V>>, i: nat)
    requires IsRun(s, steps) && i <= |steps|
    ensures IsRun(s, steps[..i])
    decreases |steps|
  {
    if i < |steps| {
      PrefixIsRun(s, steps[..|steps| - 1], i);
      assert steps[..|steps| - 1][..i] == steps[..i];
    } else {
      assert steps[..i] == steps;
    }
  }

  lemma Extend<V(!new)>(steps: seq<Step<V>>, step: Step<V>) returns (longer: seq<Step<V>>)
    requires IsRun(Initial(), steps) && Enabled(After(Initial(), steps), step)
    ensures longer == steps + [step] && IsRun(Initial(), longer)
    ensures After(Initial(), longer) == Next(After(Initial(), steps), step)
  {
    longer := steps + [step];
    PrefixOfExtension(steps, step);
  }

  /** A call that has produced v was started by some step and returned v at a later one. */
  lemma {:induction false} ProducedByTheCall<V(!new)>(steps: seq<Step<V>>, id: nat) returns (spawned: nat, returned: nat)
    requires IsRun(Initial(), steps)
    requires id < |After(Initial(), steps).calls| && After(Initial(), steps).calls[id].produced.Some?
    ensures spawned < returned < |steps|
    ensures SpawnsCall(steps, spawned, id)
    ensures steps[returned] == Return(id, After(Initial(), steps).calls[id].produced.value)
  {
    var n := |steps| - 1;
    var init, step := steps[..n], steps[n];
    if step.Return? && step.id == id {
      spawned := StartedBy(init, id);
      returned := n;
    } else {
      spawned, returned := ProducedByTheCall(init, id);
      assert init[returned] == steps[returned];
    }
    assert init[..spawned] == steps[..spawned] && init[spawned] == steps[spawned];
    PrefixIsRun(Initial(), steps, spawned);
  }

  lemma {:induction false} StartedBy<V(!new)>(steps: seq<Step<V>>, id: nat) returns (spawned: nat)
    requires IsRun(Initial(), steps) && id < |After(Initial(), steps).calls|
    ensures spawned < |steps| && SpawnsCall(steps, spawned, id)
    ensures Last(After(Initial(), steps), id) ==> forall k :: spawned < k < |steps| ==> !steps[k].Spawn?
  {
    var n := |steps| - 1;
    var init, step := steps[..n], steps[n];
    var before := After(Initial<V>(), init);
    if step.Spawn? && id == |before.calls| {
      spawned := n;
    } else {
      spawned := StartedBy(init, id);
      assert forall k :: spawned < k < n ==> init[k] == steps[k];
    }
    assert init[..spawned] == steps[..spawned] && (spawned < n ==> init[spawned] == steps[spawned]);
    PrefixIsRun(Initial(), steps, spawned);
  }

  /** Done returns the value its own run's call produced: the call this run started, the last one
      started before it, returned that value after it was started. */
  lemma DoneReturnsItsOwnValue<V(!new)>(steps: seq<Step<V>>, value: V) returns (id: nat, spawned: nat, returned: nat)
    requires IsRun(Initial(), steps) && Enabled(After(Initial(), steps), Receive(value))
    ensures After(Initial(), steps).pending == Some(id)
    ensures spawned < returned < |steps|
    ensures SpawnsCall(steps, spawned, id) && forall k :: spawned < k < |steps| ==> !steps[k].Spawn?
    ensures steps[returned] == Return(id, value)
  {
    RunKeepsInvariant(steps);
    id := After(Initial(), steps).pending.value;
    spawned, returned := ProducedByTheCall(steps, id);
    var latest := StartedBy(steps, id);
    SpawnedOnce(steps, id, spawned, latest);
  }

  /** No call is started twice. */
  lemma SpawnedOnce<V(!new)>(steps: seq<Step<V>>, id: nat, i: nat, j: nat)
    requires IsRun(Initial(), steps) && i < |steps| && j < |steps|
    requires SpawnsCall(steps, i, id) && SpawnsCall(steps, j, id)
    ensures i == j
  {
    if i < j {
      LaterSpawnIsNewer(steps, i, j);
    } else if j < i {
      LaterSpawnIsNewer(steps, j, i);
    }
  }

  lemma {:induction false} LaterSpawnIsNewer<V(!new)>(steps: seq<Step<V>>, i: nat, j: nat)
    requires IsRun(Initial(), steps) && i < j <= |steps| && steps[i].Spawn?
    ensures IsRun(Initial(), steps[..i]) && IsRun(Initial(), steps[..j])
    ensures |After(Initial(), steps[..i]).calls| < |After(Initial(), steps[..j]).calls|
    decreases j
  {
    PrefixIsRun(Initial(), steps, i);
    PrefixIsRun(Initial(), steps, j);
    PrefixIsRun(Initial(), steps, j - 1);
    assert steps[..j][..j - 1] == steps[..j - 1];
    if i < j - 1 {
      LaterSpawnIsNewer(steps, i, j - 1);
    }
  }

  // ---------------------------------------------------------------------------
  // Stall detection
  // ---------------------------------------------------------------------------

  /** Whether there is at least one check and each has had a call in the driver for at least d.
      since holds the timestamp loaded from each check. */
  method StalledFor(since: seq<int>, now: int, d: int) returns (stalled: bool)
    ensures stalled <==> IsStalled(since, now, d)
  {
    if |since| == 0 {
      return false;
    }
    for i := 0 to |since|
      invariant forall j :: 0 <= j < i ==> since[j] != 0 && now - since[j] >= d
    {
      if since[i] == 0 || now - since[i] < d {
        return false;
      }
    }
    return true;
  }

  predicate IsStalled(since: seq<int>, now: int, d: int) {
    since != [] && forall j :: 0 <= j < |since| ==> since[j] != 0 && now - since[j] >= d
  }

  /** A stall is real: every check then has a call, its own and the only one, that it started at
      least d ago and whose timestamp that call has not cleared. */
  lemma StallMeansEveryCallIsOld<V(!new)>(runs: seq<seq<Step<V>>>, since: seq<int>, now: int, d: int, i: nat)
    requires |runs| == |since| && i < |runs|
    requires forall k :: 0 <= k < |runs| ==> IsRun(Initial(), runs[k]) && since[k] == After(Initial(), runs[k]).inDriverSince
    requires IsStalled(since, now, d)
    ensures
      var s := After(Initial(), runs[i]);
      || (s.caller.Stamped? && s.caller.at <= now - d)
      || (s.calls != [] && var c := s.calls[|s.calls| - 1];
          (c.phase.InCall? || c.phase.Returned?) && c.startedAt <= now - d)
  {
    TimestampIsTheCallsOwn(runs[i]);
  }
}
