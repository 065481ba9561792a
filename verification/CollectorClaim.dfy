/** The claim that keeps an abandoned collector from being started again: callers that race for
    one flag, and the goroutines that release it, as interleaved atomic steps. The diagnostic
    producers and the node diagnostic's log capture share this protocol. */
module CollectorClaim {
  import opened Monitor

  /** A collection's goroutine: fn is running, fn has returned, the claim is released, the result
      is published. The release comes before the publish. */
  datatype Phase = Collecting | Collected | Released | Published

  datatype Collection<V> = Collection(phase: Phase, produced: Option<V>, result: Option<V>)

  datatype Caller<V> =
    | Idle
    | Claimed                    // won the claim, start time not stored yet
    | Stamped                    // start time stored, goroutine not started yet
    | Waiting(id: nat)           // in the select on the result and the deadline
    | Refused                    // lost the claim, about to read the start time
    | Answered(answer: Answer<V>)

  /** What a caller comes away with. A start time of zero is not reported as a duration. */
  datatype Answer<V> = Result(value: V) | Abandoned | Skipped(since: Option<int>)

  datatype State<V> = State(running: bool, startedAt: int, callers: map<nat, Caller<V>>, runs: seq<Collection<V>>)

  datatype Step<V> =
    | Claim(caller: nat)                // compare-and-swap succeeds
    | Refuse(caller: nat)               // compare-and-swap fails
    | ReadStart(caller: nat)
    | Stamp(caller: nat, at: int)
    | Spawn(caller: nat)
    | Receive(caller: nat)
    | GiveUp(caller: nat)               // deadline or shutdown
    | Leave(caller: nat)                // the caller has returned and may call again
    | Finish(id: nat, value: V)
    | Release(id: nat)
    | Publish(id: nat)

  function Initial<V>(): State<V> {
    State(false, 0, map[], [])
  }

  function CallerAt<V>(s: State<V>, k: nat): Caller<V> {
    if k in s.callers then s.callers[k] else Idle
  }

  predicate IsAt<V>(s: State<V>, id: nat, phase: Phase) {
    id < |s.runs| && s.runs[id].phase == phase
  }

  predicate Enabled<V>(s: State<V>, step: Step<V>) {
    match step
    case Claim(k) => CallerAt(s, k).Idle? && !s.running
    case Refuse(k) => CallerAt(s, k).Idle? && s.running
    case ReadStart(k) => CallerAt(s, k).Refused?
    case Stamp(k, at) => CallerAt(s, k).Claimed? && at != 0
    case Spawn(k) => CallerAt(s, k).Stamped?
    case Receive(k) => CallerAt(s, k).Waiting? && CallerAt(s, k).id < |s.runs| && s.runs[CallerAt(s, k).id].result.Some?
    case GiveUp(k) => CallerAt(s, k).Waiting?
    case Leave(k) => CallerAt(s, k).Answered?
    case Finish(id, _) => IsAt(s, id, Collecting)
    case Release(id) => IsAt(s, id, Collected)
    case Publish(id) => IsAt(s, id, Released)
  }

  function Next<V>(s: State<V>, step: Step<V>): State<V>
    requires Enabled(s, step)
  {
    match step
    case Claim(k) => s.(running := true, callers := s.callers[k := Claimed])
    case Refuse(k) => s.(callers := s.callers[k := Refused])
    case ReadStart(k) =>
      s.(callers := s.callers[k := Answered(Skipped(if s.startedAt == 0 then None else Some(s.startedAt)))])
    case Stamp(k, at) => s.(startedAt := at, callers := s.callers[k := Stamped])
    case Spawn(k) => s.(callers := s.callers[k := Waiting(|s.runs|)], runs := s.runs + [Collection(Collecting, None, None)])
    case Receive(k) => s.(callers := s.callers[k := Answered(Result(s.runs[CallerAt(s, k).id].result.value))])
    case GiveUp(k) => s.(callers := s.callers[k := Answered(Abandoned)])
    case Leave(k) => s.(callers := s.callers[k := Idle])
    case Finish(id, v) => s.(runs := s.runs[id := s.runs[id].(phase := Collected, produced := Some(v))])
    case Release(id) => s.(running := false, runs := s.runs[id := s.runs[id].(phase := Released)])
    case Publish(id) => s.(runs := s.runs[id := s.runs[id].(phase := Published, result := s.runs[id].produced)])
  }

  predicate IsRun<V>(s: State<V>, steps: seq<Step<V>>)
    decreases |steps|, 0
  {
    steps == [] || (IsRun(s, steps[..|steps| - 1]) && Enabled(After(s, steps[..|steps| - 1]), steps[|steps| - 1]))
  }

  function After<V>(s: State<V>, steps: seq<Step<V>>): State<V>
    requires IsRun(s, steps)
    decreases |steps|, 1
  {
    if steps == [] then s else Next(After(s, steps[..|steps| - 1]), steps[|steps| - 1])
  }

  // ---------------------------------------------------------------------------
  // The invariant of every interleaving
  // ---------------------------------------------------------------------------

  /** The collection holds the claim. */
  predicate Unreleased(p: Phase) {
    p.Collecting? || p.Collected?
  }

  /** The caller holds the claim and has not handed it to a goroutine. */
  predicate Holds<V>(c: Caller<V>) {
    c.Claimed? || c.Stamped?
  }

  /** The claim has exactly one holder while it is set, and none while it is not. */
  ghost predicate ClaimConsistent<V(!new)>(s: State<V>) {
    && (forall id: nat :: id < |s.runs| && Unreleased(s.runs[id].phase) ==> s.running && id + 1 == |s.runs|)
    && (forall k: nat :: Holds(CallerAt(s, k)) ==> s.running)
    && (forall k: nat, id: nat :: Holds(CallerAt(s, k)) && id < |s.runs| ==> !Unreleased(s.runs[id].phase))
    && (forall j: nat, k: nat :: Holds(CallerAt(s, j)) && Holds(CallerAt(s, k)) ==> j == k)
    && (s.running ==> (exists k: nat :: Holds(CallerAt(s, k))) || (s.runs != [] && Unreleased(s.runs[|s.runs| - 1].phase)))
  }

  ghost predicate RunsConsistent<V(!new)>(s: State<V>) {
    && (forall id: nat :: id < |s.runs| ==>
         && (s.runs[id].phase.Collecting? ==> s.runs[id].produced.None?)
         && (!s.runs[id].phase.Collecting? ==> s.runs[id].produced.Some?)
         && s.runs[id].result == if s.runs[id].phase.Published? then s.runs[id].produced else None)
    && (forall k: nat :: CallerAt(s, k).Waiting? ==> CallerAt(s, k).id < |s.runs|)
  }

  ghost predicate Invariant<V(!new)>(s: State<V>) {
    ClaimConsistent(s) && RunsConsistent(s)
  }

  lemma CallersStep<V>(s: State<V>, k: nat, c: Caller<V>, s': State<V>)
    requires s'.callers == s.callers[k := c]
    ensures forall j: nat :: CallerAt(s', j) == if j == k then c else CallerAt(s, j)
  {
  }

  /** Steps that only move a caller that holds nothing, before and after. */
  lemma BystanderStep<V(!new)>(s: State<V>, k: nat, c: Caller<V>)
    requires Invariant(s) && !Holds(CallerAt(s, k)) && !Holds(c)
    requires c.Waiting? ==> c.id < |s.runs|
    ensures Invariant(s.(callers := s.callers[k := c]))
  {
    var s' := s.(callers := s.callers[k := c]);
    CallersStep(s, k, c, s');
    if s.running && !(s.runs != [] && Unreleased(s.runs[|s.runs| - 1].phase)) {
      var h: nat :| Holds(CallerAt(s, h));
      assert Holds(CallerAt(s', h));
    }
  }

  lemma ClaimKeepsInvariant<V(!new)>(s: State<V>, k: nat)
    requires Invariant(s) && Enabled(s, Claim(k))
    ensures Invariant(Next(s, Claim(k)))
  {
    var s' := Next(s, Claim(k));
    CallersStep(s, k, Claimed, s');
    assert Holds(CallerAt(s', k));
  }

  lemma StampKeepsInvariant<V(!new)>(s: State<V>, k: nat, at: int)
    requires Invariant(s) && Enabled(s, Stamp(k, at))
    ensures Invariant(Next(s, Stamp(k, at)))
  {
    var s' := Next(s, Stamp(k, at));
    CallersStep(s, k, Stamped, s');
    assert Holds(CallerAt(s', k));
  }

  lemma SpawnKeepsInvariant<V(!new)>(s: State<V>, k: nat)
    requires Invariant(s) && Enabled(s, Spawn(k))
    ensures Invariant(Next(s, Spawn(k)))
  {
    CallersStep(s, k, Waiting(|s.runs|), Next(s, Spawn(k)));
    assert Holds(CallerAt(s, k));
  }

  /** The steps of a collection's goroutine touch no caller. */
  lemma GoroutineKeepsInvariant<V(!new)>(s: State<V>, step: Step<V>)
    requires Invariant(s) && Enabled(s, step) && (step.Finish? || step.Release? || step.Publish?)
    ensures Invariant(Next(s, step))
  {
    var s' := Next(s, step);
    assert forall j: nat :: CallerAt(s', j) == CallerAt(s, j);
    if !step.Release? && s.running && !(s.runs != [] && Unreleased(s.runs[|s.runs| - 1].phase)) {
      var h: nat :| Holds(CallerAt(s, h));
      assert Holds(CallerAt(s', h));
    }
  }

  lemma StepKeepsInvariant<V(!new)>(s: State<V>, step: Step<V>)
    requires Invariant(s) && Enabled(s, step)
    ensures Invariant(Next(s, step))
  {
    var s' := Next(s, step);
    match step {
      case Claim(k) => ClaimKeepsInvariant(s, k);
      case Stamp(k, at) => StampKeepsInvariant(s, k, at);
      case Spawn(k) => SpawnKeepsInvariant(s, k);
      case Finish(_, _) => GoroutineKeepsInvariant(s, step);
      case Release(_) => GoroutineKeepsInvariant(s, step);
      case Publish(_) => GoroutineKeepsInvariant(s, step);
      case Refuse(k) => BystanderStep(s, k, Refused);
      case ReadStart(k) => BystanderStep(s, k, s'.callers[k]);
      case Receive(k) => BystanderStep(s, k, s'.callers[k]);
      case GiveUp(k) => BystanderStep(s, k, s'.callers[k]);
      case Leave(k) => BystanderStep(s, k, Idle);
    }
  }

  lemma {:induction false} RunKeepsInvariant<V(!new)>(steps: seq<Step<V>>)
    requires IsRun(Initial(), steps)
    ensures Invariant(After(Initial(), steps))
  {
    if steps != [] {
      RunKeepsInvariant(steps[..|steps| - 1]);
      StepKeepsInvariant(After(Initial<V>(), steps[..|steps| - 1]), steps[|steps| - 1]);
    }
  }

  // ---------------------------------------------------------------------------
  // What the protocol promises
  // ---------------------------------------------------------------------------

  function Outstanding<V>(runs: seq<Collection<V>>): nat {
    if runs == [] then 0
    else Outstanding(runs[..|runs| - 1]) + if Unreleased(runs[|runs| - 1].phase) then 1 else 0
  }

  lemma {:induction false} NoneOutstanding<V>(runs: seq<Collection<V>>)
    requires forall i :: 0 <= i < |runs| ==> !Unreleased(runs[i].phase)
    ensures Outstanding(runs) == 0
  {
    if runs != [] {
      NoneOutstanding(runs[..|runs| - 1]);
    }
  }

  /** However many cycles ran and however they interleaved, at most one collection is outstanding,
      and while one is, the claim is set and no caller can start another. */
  lemma AtMostOneOutstanding<V(!new)>(steps: seq<Step<V>>)
    requires IsRun(Initial(), steps)
    ensures
      var s := After(Initial(), steps);
      && Outstanding(s.runs) <= 1
      && (Outstanding(s.runs) == 1 ==> s.running && forall k: nat :: !Enabled(s, Claim(k)) && !Enabled(s, Spawn(k)))
  {
    RunKeepsInvariant(steps);
    var s := After(Initial<V>(), steps);
    if s.runs != [] {
      NoneOutstanding(s.runs[..|s.runs| - 1]);
      forall k: nat
        ensures Unreleased(s.runs[|s.runs| - 1].phase) ==> !Enabled(s, Spawn(k))
      {
        if Enabled(s, Spawn(k)) {
          assert Holds(CallerAt(s, k));
        }
      }
    }
  }

  /** A release frees the claim of the collection that makes it, and no other: it is then the only
      holder. */
  lemma ReleaseFreesItsOwnClaim<V(!new)>(steps: seq<Step<V>>, id: nat)
    requires IsRun(Initial(), steps) && Enabled(After(Initial(), steps), Release(id))
    ensures
      var s := After(Initial(), steps);
      && s.running && id + 1 == |s.runs|
      && (forall k: nat :: !Holds(CallerAt(s, k)))
      && Outstanding(Next(s, Release(id)).runs) == 0
  {
    RunKeepsInvariant(steps);
    var s := After(Initial<V>(), steps);
    NoneOutstanding(Next(s, Release(id)).runs);
  }

  /** Over a whole run, a collection releases its claim once. */
  lemma ReleasedOnce<V(!new)>(steps: seq<Step<V>>, id: nat, i: nat, j: nat)
    requires IsRun(Initial(), steps) && i < |steps| && j < |steps|
    requires steps[i] == Release(id) && steps[j] == Release(id)
    ensures i == j
  {
    if i < j {
      StaysReleased(steps, id, i, j);
    } else if j < i {
      StaysReleased(steps, id, j, i);
    }
  }

  lemma StaysReleased<V(!new)>(steps: seq<Step<V>>, id: nat, i: nat, j: nat)
    requires IsRun(Initial(), steps) && i < j < |steps| && steps[i] == Release(id)
    ensures steps[j] != Release(id)
  {
    PrefixIsRun(steps, j + 1);
    assert steps[..j + 1][..j] == steps[..j];
    ReleasedAfter(steps, id, i, j);
  }

  lemma {:induction false} ReleasedAfter<V(!new)>(steps: seq<Step<V>>, id: nat, i: nat, j: nat)
    requires IsRun(Initial(), steps) && i < j <= |steps| && steps[i] == Release(id)
    ensures IsRun(Initial(), steps[..j])
    ensures var s := After(Initial(), steps[..j]); id < |s.runs| && !Unreleased(s.runs[id].phase)
    decreases j
  {
    PrefixIsRun(steps, j);
    assert steps[..j][..j - 1] == steps[..j - 1] && steps[..j][j - 1] == steps[j - 1];
    if i < j - 1 {
      ReleasedAfter(steps, id, i, j - 1);
    }
  }

  lemma {:induction false} PrefixIsRun<V(!new)>(steps: seq<Step<V>>, i: nat)
    requires IsRun(Initial(), steps) && i <= |steps|
    ensures IsRun(Initial(), steps[..i])
    decreases |steps|
  {
    if i < |steps| {
      PrefixIsRun(steps[..|steps| - 1], i);
      assert steps[..|steps| - 1][..i] == steps[..i];
    } else {
      assert steps[..i] == steps;
    }
  }

  /** A result reaches its caller only after the collection that made it released its claim. */
  lemma ResultMeansReleased<V(!new)>(steps: seq<Step<V>>, k: nat)
    requires IsRun(Initial(), steps) && Enabled(After(Initial(), steps), Receive(k))
    ensures
      var s := After(Initial(), steps);
      var run := s.runs[CallerAt(s, k).id];
      run.phase.Published? && run.result == run.produced
  {
    RunKeepsInvariant(steps);
  }

  /** Whatever a caller came away with, and whoever competes, its next claim is won exactly when no
      collection is outstanding and no other caller holds the claim. */
  lemma NextClaimWinsIfNobodyHoldsIt<V(!new)>(steps: seq<Step<V>>, k: nat)
    requires IsRun(Initial(), steps) && CallerAt(After(Initial<V>(), steps), k).Answered?
    ensures
      var s := After(Initial(), steps);
      Enabled(Next(s, Leave(k)), Claim(k)) <==> Outstanding(s.runs) == 0 && forall j: nat :: !Holds(CallerAt(s, j))
  {
    RunKeepsInvariant(steps);
    var s := After(Initial<V>(), steps);
    CallersStep(s, k, Idle, Next(s, Leave(k)));
    if s.runs != [] {
      NoneOutstanding(s.runs[..|s.runs| - 1]);
    }
  }

  /** Only caller k ever calls. */
  predicate Sequential<V>(steps: seq<Step<V>>, k: nat) {
    forall i :: 0 <= i < |steps| ==>
      match steps[i]
      case Finish(_, _) => true
      case Release(_) => true
      case Publish(_) => true
      case other => other.caller == k
  }

  /** In a sequential run, the collection waited on is the last one, and a caller that came away
      with a real result left nothing outstanding behind it. */
  ghost predicate SequentialInvariant<V(!new)>(s: State<V>, k: nat) {
    && (forall j: nat :: j != k ==> CallerAt(s, j).Idle?)
    && (CallerAt(s, k).Waiting? ==> CallerAt(s, k).id + 1 == |s.runs|)
    && (CallerAt(s, k).Answered? && CallerAt(s, k).answer.Result? ==> !s.running)
  }

  lemma {:induction false} SequentialRun<V(!new)>(steps: seq<Step<V>>, k: nat)
    requires IsRun(Initial(), steps) && Sequential(steps, k)
    ensures SequentialInvariant(After(Initial(), steps), k)
  {
    if steps != [] {
      var init, step := steps[..|steps| - 1], steps[|steps| - 1];
      assert forall i :: 0 <= i < |init| ==> init[i] == steps[i];
      SequentialRun(init, k);
      RunKeepsInvariant(init);
      var s := After(Initial<V>(), init);
      if step.Receive? {
        assert s.runs[|s.runs| - 1].phase.Published?;
        forall j: nat
          ensures !Holds(CallerAt(s, j))
        {
          assert j != k ==> CallerAt(s, j).Idle?;
        }
      }
      forall j: nat | j != k
        ensures CallerAt(Next(s, step), j).Idle?
      {
        assert CallerAt(s, j).Idle?;
      }
    }
  }

  /** A caller with no competition that receives a real result always wins its next claim. */
  lemma ResultMeansNextClaimWins<V(!new)>(steps: seq<Step<V>>, k: nat)
    requires IsRun(Initial(), steps) && Sequential(steps, k)
    requires
      var c := CallerAt(After(Initial<V>(), steps), k);
      c.Answered? && c.answer.Result?
    ensures Enabled(Next(After(Initial(), steps), Leave(k)), Claim(k))
  {
    SequentialRun(steps, k);
  }

  /** With a competitor it need not: caller 1 can claim between caller 0's result and its next call. */
  lemma CompetitorCanTakeTheClaim()
    ensures
      var steps := [Claim(0), Stamp(0, 1), Spawn(0), Finish(0, 7), Release(0), Publish(0), Receive(0), Claim(1)];
      && IsRun(Initial(), steps)
      && CallerAt(After(Initial(), steps), 0) == Answered(Result(7))
      && !Enabled(Next(After(Initial(), steps), Leave(0)), Claim(0))
  {
    assert IsRun(Initial<int>(), []) && After(Initial<int>(), []) == Initial();
    hide IsRun, After;
    var s1 := Extend([], Claim(0));
    var s2 := Extend(s1, Stamp(0, 1));
    var s3 := Extend(s2, Spawn(0));
    var s4 := Extend(s3, Finish(0, 7));
    var s5 := Extend(s4, Release(0));
    var s6 := Extend(s5, Publish(0));
    var s7 := Extend(s6, Receive(0));
    var s8 := Extend(s7, Claim(1));
    assert s8 == [Claim(0), Stamp(0, 1), Spawn(0), Finish(0, 7), Release(0), Publish(0), Receive(0), Claim(1)];
  }

  lemma Extend<V>(steps: seq<Step<V>>, step: Step<V>) returns (longer: seq<Step<V>>)
    requires IsRun(Initial(), steps) && Enabled(After(Initial(), steps), step)
    ensures longer == steps + [step] && IsRun(Initial(), longer)
    ensures After(Initial(), longer) == Next(After(Initial(), steps), step)
  {
    longer := steps + [step];
    PrefixOfExtension(steps, step);
  }
}
