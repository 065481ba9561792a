/** The checks behind an escalation: the calls that hold the driver while the reader finds the checks
    stalled, by the steps of each check's protocol. */
module CheckCalls {
  import opened Monitor
  import opened Reader
  import opened InFlight
  import ProbeCalls

  /** One check's steps, cut where each call of the reader loads its timestamp. */
  function StepsOf<V>(trace: seq<seq<Step<V>>>): seq<Step<V>> {
    if trace == [] then [] else StepsOf(trace[..|trace| - 1]) + trace[|trace| - 1]
  }

  lemma {:induction false} StepsOfPrefix<V(!new)>(trace: seq<seq<Step<V>>>, k: nat)
    requires k <= |trace| && IsRun(Initial(), StepsOf(trace))
    ensures IsRun(Initial(), StepsOf(trace[..k]))
    decreases |trace|
  {
    if k < |trace| {
      var before := trace[..|trace| - 1];
      PrefixIsRun(Initial(), StepsOf(trace), |StepsOf(before)|);
      assert StepsOf(trace)[..|StepsOf(before)|] == StepsOf(before);
      StepsOfPrefix(before, k);
      assert before[..k] == trace[..k];
    } else {
      assert trace[..k] == trace;
    }
  }

  /** The check's state when call k of the reader loads its timestamp. */
  ghost function LoadedAt<V(!new)>(trace: seq<seq<Step<V>>>, k: nat): State<V>
    requires k < |trace| && IsRun(Initial(), StepsOf(trace))
  {
    StepsOfPrefix(trace, k + 1);
    InFlight.After(Initial(), StepsOf(trace[..k + 1]))
  }

  /** Every timestamp stored is a clock reading from the given time on. */
  predicate StampsFrom<V>(steps: seq<Step<V>>, floor: int) {
    forall i :: 0 <= i < |steps| && steps[i].Stamp? ==> steps[i].at >= floor
  }

  /** Call k of the reader loads check c's timestamp. What the check stamped since the call before is not
      older than that call's clock reading if that call found the checks stalled: the check then had a
      call in the driver, and reads its clock only for the next one. */
  ghost predicate Loads<V(!new)>(h: seq<Reader.Call>, c: nat, trace: seq<seq<Step<V>>>, k: nat)
    requires k < |h| && |trace| == |h| && IsRun(Initial(), StepsOf(trace))
  {
    && c < |h[k].since| && h[k].since[c] == LoadedAt(trace, k).inDriverSince
    && (k > 0 && Stalled(h[k - 1]) ==> StampsFrom(trace[k], h[k - 1].first))
  }

  ghost predicate Watched<V(!new)>(h: seq<Reader.Call>, c: nat, trace: seq<seq<Step<V>>>) {
    && |trace| == |h| && IsRun(Initial(), StepsOf(trace))
    && forall k :: 0 <= k < |h| ==> Loads(h, c, trace, k)
  }

  /** The number of the call being started, or else of the last one started. */
  function CallNumber<V>(s: State<V>): int {
    if s.caller.Stamped? then |s.calls| else |s.calls| - 1
  }

  predicate SameCall<V>(s: State<V>, t: State<V>) {
    s.inDriverSince == t.inDriverSince && CallNumber(s) == CallNumber(t)
  }

  /** A timestamp is taken away or overwritten only by a later one: until then the call is the same. */
  lemma {:induction false} SameCallUntilStamped<V(!new)>(before: seq<Step<V>>, steps: seq<Step<V>>, floor: int)
    requires IsRun(Initial(), before + steps) && StampsFrom(steps, floor)
    ensures IsRun(Initial(), before)
    ensures var s, t := InFlight.After(Initial(), before), InFlight.After(Initial(), before + steps);
            s.inDriverSince != 0 ==> SameCall(s, t) || t.inDriverSince == 0 || t.inDriverSince >= floor
    decreases |steps|
  {
    PrefixIsRun(Initial(), before + steps, |before|);
    assert (before + steps)[..|before|] == before;
    if steps == [] {
      assert before + steps == before;
    } else {
      var n := |steps| - 1;
      assert (before + steps)[..|before + steps| - 1] == before + steps[..n];
      SameCallUntilStamped(before, steps[..n], floor);
      assert (before + steps)[|before + steps| - 1] == steps[n];
    }
  }

  lemma LoadedNext<V(!new)>(h: seq<Reader.Call>, c: nat, trace: seq<seq<Step<V>>>, k: nat)
    requires Watched(h, c, trace) && 0 < k < |h|
    requires Stalled(h[k - 1]) && Stalled(h[k]) && h[k].first - h[k - 1].first < STALL_DURATION
    ensures SameCall(LoadedAt(trace, k - 1), LoadedAt(trace, k))
  {
    assert Loads(h, c, trace, k - 1) && Loads(h, c, trace, k);
    StepsOfPrefix(trace, k + 1);
    assert trace[..k + 1][..k] == trace[..k];
    assert StepsOf(trace[..k + 1]) == StepsOf(trace[..k]) + trace[k];
    SameCallUntilStamped(StepsOf(trace[..k]), trace[k], h[k - 1].first);
  }

  /** The calls of the reader from i to j all found the checks stalled, and each came within the stall
      duration of the one before. */
  ghost predicate StalledThroughout(h: seq<Reader.Call>, i: nat, j: nat) {
    && i <= j < |h| && (forall k :: i <= k <= j ==> Stalled(h[k]))
    && forall k :: i < k <= j ==> ComesSoon(h, k)
  }

  predicate ComesSoon(h: seq<Reader.Call>, k: nat)
    requires 0 < k < |h|
  {
    h[k].first - h[k - 1].first < STALL_DURATION
  }

  /** Then every check has one and the same call in the driver, from the first of them to the last. */
  lemma {:induction false} OneCallThroughout<V(!new)>(h: seq<Reader.Call>, c: nat, trace: seq<seq<Step<V>>>, i: nat, j: nat)
    requires Watched(h, c, trace) && StalledThroughout(h, i, j)
    ensures SameCall(LoadedAt(trace, i), LoadedAt(trace, j))
    decreases j
  {
    if i < j {
      OneCallThroughout(h, c, trace, i, j - 1);
      assert ComesSoon(h, j);
      LoadedNext(h, c, trace, j);
    }
  }

  /** Two calls of the reader, the given time apart, both find the checks stalled. */
  ghost predicate StalledTwice(h: seq<Reader.Call>, c: nat, trace: seq<seq<Step<()>>>, k: nat, gap: int) {
    && Watched(h, c, trace) && 0 < k < |h| && Stalled(h[k - 1]) && Stalled(h[k])
    && h[k].first - h[k - 1].first == gap
  }

  /** A check's call comes back after its deadline and another is made, both timing out. */
  lemma TwoCallsTimeOut(first: int, second: int) returns (steps: seq<Step<()>>, more: seq<Step<()>>)
    requires first > 0 && second > 0
    ensures steps == ProbeCalls.TimesOut(EnterFresh, first)
    ensures more == ProbeCalls.COMES_BACK + ProbeCalls.TimesOut(EnterReaped, second)
    ensures IsRun(Initial(), steps) && IsRun(Initial(), steps + more)
    ensures var s, t := InFlight.After(Initial(), steps), InFlight.After(Initial(), steps + more);
            s.inDriverSince == first && t.inDriverSince == second && !SameCall(s, t)
  {
    assert IsRun<()>(Initial(), []) && InFlight.After<()>(Initial(), []) == Initial();
    hide IsRun, InFlight.After, ProbeCalls.TimesOut, ProbeCalls.COMES_BACK;
    steps := ProbeCalls.RunTimesOut([], EnterFresh, first);
    var back := ProbeCalls.CallComesBack(steps);
    var all := ProbeCalls.RunTimesOut(back, EnterReaped, second);
    assert [] + ProbeCalls.TimesOut(EnterFresh, first) == ProbeCalls.TimesOut(EnterFresh, first);
    more := ProbeCalls.COMES_BACK + ProbeCalls.TimesOut(EnterReaped, second);
    assert all == steps + more;
  }

  lemma StepsOfTwo<V>(steps: seq<Step<V>>, more: seq<Step<V>>)
    ensures StepsOf([steps, more][..1]) == steps && StepsOf([steps, more]) == steps + more
  {
    assert [steps, more][..1] == [steps] && [steps][..0] == [];
    assert StepsOf([steps]) == [] + steps;
  }

  /** A run in which they find two different calls: the first comes back and a second is made right
      after the reader's earlier call, and has stalled too by the later one. */
  lemma AnotherCallHasStalled(gap: int) returns (h: seq<Reader.Call>, trace: seq<seq<Step<()>>>)
    requires gap >= STALL_DURATION
    ensures StalledTwice(h, 0, trace, 1, gap) && !SameCall(LoadedAt(trace, 0), LoadedAt(trace, 1))
  {
    var t := 1 + STALL_DURATION;
    var early := Reader.Call(t, t, t, t, [1], 0, InitStuck, Stuck, Unreadable);
    h := [early, early.(first := t + gap, second := t + gap, third := t + gap, fourth := t + gap, since := [1 + gap])];
    var steps, more := TwoCallsTimeOut(1, 1 + gap);
    trace := [steps, more];
    StepsOfTwo(steps, more);
    assert trace[..2] == trace;
    assert StampsFrom(more, t);
    hide StepsOf, ProbeCalls.TimesOut, StampsFrom, IsRun, InFlight.After, SameCall;
    assert Loads(h, 0, trace, 0) && Loads(h, 0, trace, 1);
  }

  /** So for a given time between two such calls of the reader they always find the same call of the
      check, exactly when that time is shorter than the stall duration. */
  lemma SameCallExactlyWhenSoon(gap: int)
    ensures (forall h, c: nat, trace, k: nat :: StalledTwice(h, c, trace, k, gap) ==>
              SameCall(LoadedAt(trace, k - 1), LoadedAt(trace, k))) <==> gap < STALL_DURATION
  {
    hide Stalled, LoadedAt, SameCall;
    if gap < STALL_DURATION {
      forall h, c: nat, trace, k: nat | StalledTwice(h, c, trace, k, gap)
        ensures SameCall(LoadedAt(trace, k - 1), LoadedAt(trace, k))
      {
        LoadedNext(h, c, trace, k);
      }
    } else {
      var h, trace := AnotherCallHasStalled(gap);
      assert StalledTwice(h, 0, trace, 1, gap);
    }
  }

  /** The call is in the driver, or about to be, and its timestamp is its own start. */
  predicate HoldsTheDriver<V>(s: State<V>) {
    && s.inDriverSince != 0
    && if s.caller.Stamped? then s.caller.at == s.inDriverSince
       else
         && s.calls != []
         && (IsAt(s, |s.calls| - 1, InCall) || IsAt(s, |s.calls| - 1, Returned))
         && s.calls[|s.calls| - 1].startedAt == s.inDriverSince
  }

  lemma StalledHoldsTheDriver<V(!new)>(h: seq<Reader.Call>, c: nat, trace: seq<seq<Step<V>>>, k: nat)
    requires Watched(h, c, trace) && k < |h| && Stalled(h[k])
    ensures HoldsTheDriver(LoadedAt(trace, k)) && h[k].first - LoadedAt(trace, k).inDriverSince >= STALL_DURATION
  {
    assert Loads(h, c, trace, k);
    StepsOfPrefix(trace, k + 1);
    RunKeepsInvariant(StepsOf(trace[..k + 1]));
  }

  /** The reader's calls within a stuck run come within the stall duration of one another. */
  ghost predicate CallsComeSoon(h: seq<Reader.Call>, j: nat)
    requires j < |h|
  {
    forall k :: 0 < k <= j && IsStuckCall(h, k - 1) && IsStuckCall(h, k) ==> ComesSoon(h, k)
  }

  lemma StuckIsStalled(h: seq<Reader.Call>, i: nat, k: nat, j: nat)
    requires i <= k <= j && StuckThroughout(h, i, j) && CallsComeSoon(h, j)
    ensures StalledThroughout(h, i, k)
  {
    hide ReadyBy, Stalled;
    forall m | i < m <= k
      ensures ComesSoon(h, m)
    {
      assert IsStuckCall(h, m - 1) && IsStuckCall(h, m);
    }
    forall m | i <= m <= k
      ensures Stalled(h[m])
    {
      assert IsStuckCall(h, m);
    }
  }

  lemma SameCallAllAlong<V(!new)>(h: seq<Reader.Call>, c: nat, trace: seq<seq<Step<V>>>, i: nat, j: nat)
    requires Watched(h, c, trace) && StuckThroughout(h, i, j) && CallsComeSoon(h, j)
    ensures forall k :: i <= k <= j ==> SameCall(LoadedAt(trace, i), LoadedAt(trace, k))
  {
    hide Stalled, SameCall, LoadedAt;
    forall k | i <= k <= j
      ensures SameCall(LoadedAt(trace, i), LoadedAt(trace, k))
    {
      StuckIsStalled(h, i, k, j);
      OneCallThroughout(h, c, trace, i, k);
    }
  }

  /** At an escalation, while the reader's calls come within the stall duration of one another, every
      check has had one and the same call in the driver through the whole stuck run, and that call
      started at least the escalation window and the stall duration ago. */
  lemma EscalationsChecksAreOld<V(!new)>(h: seq<Reader.Call>, c: nat, trace: seq<seq<Step<V>>>, j: nat) returns (i: nat)
    requires Watched(h, c, trace) && Monotone(h) && j < |h| && Escalates(h, j) && CallsComeSoon(h, j)
    ensures i <= j && forall k :: i <= k <= j ==> IsStuckCall(h, k) && SameCall(LoadedAt(trace, i), LoadedAt(trace, k))
    ensures HoldsTheDriver(LoadedAt(trace, j))
    ensures h[j].fourth - LoadedAt(trace, j).inDriverSince >= ESCALATION_WINDOW + STALL_DURATION
  {
    hide LoadedAt, Escalates, HoldsTheDriver, Stalled, CallsComeSoon, IsRun, ReadyBy;
    EscalationIsExact(h, j);
    i :| StuckThroughout(h, i, j);
    StuckIsStalled(h, i, j, j);
    assert Stalled(h[i]) && Stalled(h[j]);
    StalledHoldsTheDriver(h, c, trace, i);
    StalledHoldsTheDriver(h, c, trace, j);
    SameCallAllAlong(h, c, trace, i, j);
    assert SameCall(LoadedAt(trace, i), LoadedAt(trace, j));
    assert h[i].first <= h[i].third;
  }
}
