/** XID events: registering every GPU for them, and reporting each device at most once per floor. */
module Xid {
  import opened ReturnCodes

  const REPEAT_FLOOR := 5_000_000_000    // 5 seconds, in nanoseconds
  const RETRY_INTERVAL := 30_000_000_000 // 30 seconds

  // ---------------------------------------------------------------------------
  // Registration
  // ---------------------------------------------------------------------------

  /** The driver's answers about one GPU: for its handle, and for registering it. */
  datatype GpuAnswer = GpuAnswer(handle: Return, register: Return)

  datatype Result = Registered | Unsupported | Failed

  function ResultOf(a: GpuAnswer): Result {
    if !a.handle.Success? then Failed
    else if a.register.NotSupported? then Unsupported
    else if a.register.Success? then Registered
    else Failed
  }

  /** The GPUs of a list whose registration has the given result, in order. */
  function Those(gpus: seq<nat>, answers: nat -> GpuAnswer, result: Result): seq<nat> {
    if gpus == [] then []
    else
      var last := gpus[|gpus| - 1];
      Those(gpus[..|gpus| - 1], answers, result) + (if ResultOf(answers(last)) == result then [last] else [])
  }

  function UpTo(count: nat): (gpus: seq<nat>)
    ensures |gpus| == count && forall i :: 0 <= i < count ==> gpus[i] == i
  {
    seq(count, i => i)
  }

  predicate Ascending(s: seq<nat>) {
    forall i, j :: 0 <= i < j < |s| ==> s[i] < s[j]
  }

  lemma {:induction false} ThoseAreAmong(gpus: seq<nat>, answers: nat -> GpuAnswer, result: Result, g: nat)
    ensures g in Those(gpus, answers, result) <==> g in gpus && ResultOf(answers(g)) == result
  {
    if gpus != [] {
      var before, last := gpus[..|gpus| - 1], gpus[|gpus| - 1];
      ThoseAreAmong(before, answers, result, g);
      assert gpus == before + [last];
    }
  }

  /** Each GPU asked about is to be retried exactly when its handle could not be had, or registering it
      answered neither success nor that it is not supported; it is registered exactly when both calls
      succeeded. */
  predicate IsSorted(asked: seq<nat>, answers: nat -> GpuAnswer, g: nat, failed: bool, registered: bool, unsupported: bool) {
    var a := answers(g);
    && (failed <==> g in asked && (a.handle != Success || (a.register != Success && a.register != NotSupported)))
    && (registered <==> g in asked && a.handle == Success && a.register == Success)
    && (unsupported <==> g in asked && a.handle == Success && a.register == NotSupported)
  }

  lemma ThoseAreSorted(asked: seq<nat>, answers: nat -> GpuAnswer, g: nat)
    ensures IsSorted(asked, answers, g, g in Those(asked, answers, Failed), g in Those(asked, answers, Registered),
                     g in Those(asked, answers, Unsupported))
  {
    ThoseAreAmong(asked, answers, Failed, g);
    ThoseAreAmong(asked, answers, Registered, g);
    ThoseAreAmong(asked, answers, Unsupported, g);
  }

  lemma {:induction false} ThoseAscend(gpus: seq<nat>, answers: nat -> GpuAnswer, result: Result)
    requires Ascending(gpus)
    ensures Ascending(Those(gpus, answers, result))
  {
    if gpus != [] {
      var before, last := gpus[..|gpus| - 1], gpus[|gpus| - 1];
      ThoseAscend(before, answers, result);
      forall i | 0 <= i < |Those(before, answers, result)|
        ensures Those(before, answers, result)[i] < last
      {
        var g := Those(before, answers, result)[i];
        ThoseAreAmong(before, answers, result, g);
        var k :| 0 <= k < |before| && before[k] == g;
        assert gpus[k] < gpus[|gpus| - 1];
      }
    }
  }

  /** Every GPU asked about has exactly one result. */
  lemma {:induction false} ResultsArePartition(gpus: seq<nat>, answers: nat -> GpuAnswer, g: nat)
    ensures multiset(gpus)[g] ==
            multiset(Those(gpus, answers, Registered))[g] +
            multiset(Those(gpus, answers, Unsupported))[g] +
            multiset(Those(gpus, answers, Failed))[g]
  {
    hide Those, ResultOf;
    if gpus != [] {
      var before, last := gpus[..|gpus| - 1], gpus[|gpus| - 1];
      ResultsArePartition(before, answers, g);
      CountLast(gpus, answers, Registered, g);
      CountLast(gpus, answers, Unsupported, g);
      CountLast(gpus, answers, Failed, g);
      assert gpus == before + [last];
      CountOneMore(before, last, g);
    } else {
      NoneOfNone(answers);
    }
  }

  lemma NoneOfNone(answers: nat -> GpuAnswer)
    ensures Those([], answers, Registered) == Those([], answers, Unsupported) == Those([], answers, Failed) == []
  {
  }

  lemma CountLast(gpus: seq<nat>, answers: nat -> GpuAnswer, result: Result, g: nat)
    requires gpus != []
    ensures var before, last := gpus[..|gpus| - 1], gpus[|gpus| - 1];
            var found := last == g && ResultOf(answers(last)) == result;
            multiset(Those(gpus, answers, result))[g] ==
            multiset(Those(before, answers, result))[g] + if found then 1 else 0
  {
    CountOneMore(Those(gpus[..|gpus| - 1], answers, result), gpus[|gpus| - 1], g);
  }

  lemma CountOneMore(s: seq<nat>, x: nat, g: nat)
    ensures multiset(s + [x])[g] == multiset(s)[g] + if x == g then 1 else 0
    ensures s + [] == s
  {
  }

  /** Where the GPUs of an event set stand. */
  datatype Standing = Standing(count: nat, registered: seq<nat>, unsupported: seq<nat>, missing: seq<nat>)

  function Times(s: Standing, g: nat): nat {
    multiset(s.registered)[g] + multiset(s.unsupported)[g] + multiset(s.missing)[g]
  }

  /** Every GPU is exactly one of registered, unsupported or missing, and was registered at most once. */
  ghost predicate Accounted(s: Standing) {
    Ascending(s.missing) && forall g: nat :: Times(s, g) == if g < s.count then 1 else 0
  }

  function AfterRun(s: Standing, answers: nat -> GpuAnswer): Standing {
    Standing(
      s.count,
      s.registered + Those(s.missing, answers, Registered),
      s.unsupported + Those(s.missing, answers, Unsupported),
      Those(s.missing, answers, Failed))
  }

  lemma RunKeepsTheAccount(s: Standing, answers: nat -> GpuAnswer)
    requires Accounted(s)
    ensures Accounted(AfterRun(s, answers))
  {
    ThoseAscend(s.missing, answers, Failed);
    forall g: nat
      ensures Times(AfterRun(s, answers), g) == Times(s, g)
    {
      ResultsArePartition(s.missing, answers, g);
    }
  }

  lemma AllAreMissingAtFirst(count: nat)
    ensures Accounted(Standing(count, [], [], UpTo(count)))
  {
    forall g: nat
      ensures multiset(UpTo(count))[g] == if g < count then 1 else 0
    {
      CountUpTo(count, g);
    }
  }

  lemma {:induction false} CountUpTo(count: nat, g: nat)
    ensures multiset(UpTo(count))[g] == if g < count then 1 else 0
  {
    if count > 0 {
      CountUpTo(count - 1, g);
      assert UpTo(count) == UpTo(count - 1) + [count - 1];
    }
  }

  lemma CountOfTwo(s: seq<nat>, i: nat, j: nat)
    requires i < j < |s|
    ensures s[i] == s[j] ==> multiset(s)[s[i]] >= 2
  {
    assert s == s[..j] + s[j..];
    assert s[..j][i] == s[i] && s[j..][0] == s[j];
    assert s[i] in s[..j] && s[j] in s[j..];
  }

  /** Registers GPUs in the event set: every GPU when there is none yet, which first creates it,
      otherwise only those to retry. No set comes back when it could not be created or the GPUs
      could not be counted. */
  method RegisterXidEvents(eventSet: bool, retry: seq<nat>, created: Return, counted: Return, count: nat, answers: nat -> GpuAnswer)
    returns (inSet: bool, missing: seq<nat>, ghost registered: seq<nat>, ghost unsupported: seq<nat>)
    ensures inSet <==> eventSet || (created.Success? && counted.Success?)
    ensures var asked := if eventSet then retry else UpTo(count);
            inSet ==>
              && missing == Those(asked, answers, Failed)
              && registered == Those(asked, answers, Registered)
              && unsupported == Those(asked, answers, Unsupported)
              && forall g: nat :: IsSorted(asked, answers, g, g in missing, g in registered, g in unsupported)
  {
    missing, registered, unsupported := [], [], [];
    if !eventSet && (!created.Success? || !counted.Success?) {
      return false, [], [], [];
    }
    var asked := if eventSet then retry else UpTo(count);
    for k := 0 to |asked|
      invariant registered == Those(asked[..k], answers, Registered)
      invariant unsupported == Those(asked[..k], answers, Unsupported)
      invariant missing == Those(asked[..k], answers, Failed)
    {
      var i := asked[k];
      assert asked[..k + 1][..k] == asked[..k];
      var a := answers(i);
      if !a.handle.Success? {
        missing := missing + [i];
        continue;
      }
      if !a.register.NotSupported? && !a.register.Success? {
        missing := missing + [i];
      }
      ghost var result := ResultOf(a);
      registered := registered + if result == Registered then [i] else [];
      unsupported := unsupported + if result == Unsupported then [i] else [];
    }
    assert asked[..|asked|] == asked;
    forall g: nat
      ensures IsSorted(asked, answers, g, g in missing, g in registered, g in unsupported)
    {
      ThoseAreSorted(asked, answers, g);
    }
    inSet := true;
  }

  // ---------------------------------------------------------------------------
  // Retrying
  // ---------------------------------------------------------------------------

  /** What a registration run came to: the driver's answers, or no answer in time. A run that does
      not answer in time goes on in the driver, and in the end gets as far as it reached. */
  datatype Attempt =
    | StuckRun(reached: nat, later: nat -> GpuAnswer)
    | Answered(created: Return, counted: Return, count: nat, answers: nat -> GpuAnswer)

  /** The registration state. The last two fields are the driver's side: every GPU registered in the
      event set, in order, and those that abandoned runs registered, whose answers nobody took. */
  datatype State = State(
    eventSet: bool,
    standing: Standing,
    retryAt: int,
    registered: seq<nat>,
    leaked: seq<nat>)

  const FRESH := State(false, Standing(0, [], [], []), 0, [], [])

  predicate Runs(s: State, now: int, ready: bool) {
    !(s.eventSet && (s.standing.missing == [] || now < s.retryAt)) && ready
  }

  function StepTo(s: State, now: int, ready: bool, attempt: Attempt, after: int): State {
    if !Runs(s, now, ready) then s
    else
      match attempt
      case StuckRun(reached, later) =>
        if !s.eventSet then s
        else
          var asked := s.standing.missing[..if reached < |s.standing.missing| then reached else |s.standing.missing|];
          var done := Those(asked, later, Registered);
          s.(registered := s.registered + done, leaked := s.leaked + done)
      case Answered(created, counted, count, answers) =>
        if s.eventSet then
          var next := AfterRun(s.standing, answers);
          s.(standing := next, retryAt := after + RETRY_INTERVAL,
             registered := s.registered + Those(s.standing.missing, answers, Registered))
        else if created.Success? && counted.Success? then
          var next := AfterRun(Standing(count, [], [], UpTo(count)), answers);
          State(true, next, after + RETRY_INTERVAL, next.registered, [])
        else s
  }

  function StandingsOf(s: State, g: nat): nat {
    multiset(s.registered)[g] + multiset(s.standing.unsupported)[g] + multiset(s.standing.missing)[g]
  }

  /** What the driver registered is what is accounted for, and beside it what leaked. */
  ghost predicate Sound(s: State) {
    && Accounted(s.standing)
    && (!s.eventSet ==> s.standing.missing == [] && s.leaked == [])
    && (forall g: nat :: s.eventSet ==> multiset(s.registered)[g] == multiset(s.standing.registered)[g] + multiset(s.leaked)[g])
    && (forall g :: g in s.leaked ==> g < s.standing.count)
  }

  lemma StepIsSound(s: State, now: int, ready: bool, attempt: Attempt, after: int)
    requires Sound(s)
    ensures Sound(StepTo(s, now, ready, attempt, after))
  {
    hide Accounted, Those;
    if attempt.Answered? {
      RunKeepsTheAccount(s.standing, attempt.answers);
      AllAreMissingAtFirst(attempt.count);
      RunKeepsTheAccount(Standing(attempt.count, [], [], UpTo(attempt.count)), attempt.answers);
    } else {
      var missing := s.standing.missing;
      var asked := missing[..if attempt.reached < |missing| then attempt.reached else |missing|];
      forall g | g in Those(asked, attempt.later, Registered)
        ensures g < s.standing.count
      {
        ThoseAreAmong(asked, attempt.later, Registered, g);
        MissingAreCounted(s.standing, g);
      }
    }
  }

  lemma MissingAreCounted(s: Standing, g: nat)
    requires Accounted(s) && g in s.missing
    ensures g < s.count
  {
    assert Times(s, g) == if g < s.count then 1 else 0;
  }

  /** Once the set exists it stays, the GPUs stay the same, and the missing ones stay in order and
      only get fewer, whether or not runs answer. */
  lemma MissingOnlyShrinks(s: State, now: int, ready: bool, attempt: Attempt, after: int, g: nat)
    requires Sound(s) && s.eventSet
    ensures var next := StepTo(s, now, ready, attempt, after);
            && next.eventSet && next.standing.count == s.standing.count
            && Ascending(next.standing.missing)
            && (g in next.standing.missing ==> g in s.standing.missing)
            && (g in next.standing.missing && Runs(s, now, ready) && attempt.Answered? ==> ResultOf(attempt.answers(g)) == Failed)
  {
    StepIsSound(s, now, ready, attempt, after);
    if attempt.Answered? {
      ThoseAreAmong(s.standing.missing, attempt.answers, Failed, g);
    }
  }

  /** The GPUs a run asks about: those missing, or all of them when there is no set yet. */
  function AskedOf(s: State, attempt: Attempt): seq<nat>
    requires attempt.Answered?
  {
    if s.eventSet then s.standing.missing else UpTo(attempt.count)
  }

  /** Where a run that answers, in a set that exists then, leaves each GPU, by the return codes of its
      own two calls. What was registered or unsupported before stays so. */
  lemma AnswersSettleEachGpu(s: State, now: int, ready: bool, attempt: Attempt, after: int, g: nat)
    requires Sound(s) && Runs(s, now, ready) && attempt.Answered?
    requires s.eventSet || (attempt.created == Success && attempt.counted == Success)
    ensures var next, a := StepTo(s, now, ready, attempt, after), attempt.answers(g);
            var asked := g in AskedOf(s, attempt);
            && (g in next.standing.missing <==>
                 asked && (a.handle != Success || (a.register != Success && a.register != NotSupported)))
            && (g in next.registered <==>
                 (s.eventSet && g in s.registered) || (asked && a.handle == Success && a.register == Success))
            && (g in next.standing.unsupported <==>
                 (s.eventSet && g in s.standing.unsupported) || (asked && a.handle == Success && a.register == NotSupported))
  {
    ThoseAreSorted(AskedOf(s, attempt), attempt.answers, g);
    hide Sound, Those;
  }

  /** The GPU is exactly one of registered in the driver, unsupported or missing, and was registered
      at most once. */
  predicate StandsOnce(s: State, g: nat) {
    var registered, unsupported, missing := g in s.registered, g in s.standing.unsupported, g in s.standing.missing;
    && ((registered && !unsupported && !missing) || (!registered && unsupported && !missing) || (!registered && !unsupported && missing))
    && NotTwice(s.registered, g)
  }

  predicate NotTwice(s: seq<nat>, g: nat) {
    forall i, j :: 0 <= i < j < |s| ==> s[i] != g || s[j] != g
  }

  lemma NotTwiceCounts(s: seq<nat>, g: nat)
    ensures NotTwice(s, g) <==> multiset(s)[g] <= 1
    ensures g in s <==> multiset(s)[g] >= 1
  {
    assert g in multiset(s) <==> g in s;
    if multiset(s)[g] >= 2 {
      var i, j := TwoOf(s, g);
    } else {
      forall i, j | 0 <= i < j < |s|
        ensures s[i] != g || s[j] != g
      {
        CountOfTwo(s, i, j);
      }
    }
  }

  /** A GPU stands once exactly unless an abandoned run registered it. */
  lemma EveryGpuIsAccountedFor(s: State, g: nat)
    requires Sound(s) && s.eventSet && g < s.standing.count
    ensures StandsOnce(s, g) <==> g !in s.leaked
  {
    hide NotTwice;
    assert Times(s.standing, g) == 1;
    assert StandingsOf(s, g) == 1 + multiset(s.leaked)[g];
    NotTwiceCounts(s.registered, g);
    NotTwiceCounts(s.leaked, g);
    NotTwiceCounts(s.standing.unsupported, g);
    NotTwiceCounts(s.standing.missing, g);
  }

  /** No other GPU stands anywhere. */
  lemma OnlyCountedGpusStand(s: State, g: nat)
    requires Sound(s) && s.eventSet && g >= s.standing.count
    ensures g !in s.registered && g !in s.standing.unsupported && g !in s.standing.missing
  {
    assert Times(s.standing, g) == 0 && g !in s.leaked;
    NotTwiceCounts(s.registered, g);
    NotTwiceCounts(s.leaked, g);
    NotTwiceCounts(s.standing.unsupported, g);
    NotTwiceCounts(s.standing.missing, g);
  }

  lemma {:induction false} TwoOf(s: seq<nat>, g: nat) returns (i: nat, j: nat)
    requires multiset(s)[g] >= 2
    ensures i < j < |s| && s[i] == g && s[j] == g
  {
    var before, last := s[..|s| - 1], s[|s| - 1];
    assert s == before + [last];
    if last == g {
      assert g in before;
      i :| 0 <= i < |before| && before[i] == g;
      j := |before|;
    } else {
      i, j := TwoOf(before, g);
    }
  }

  function Works(g: nat): GpuAnswer {
    GpuAnswer(Success, Success)
  }

  function Fails(g: nat): GpuAnswer {
    GpuAnswer(OtherError, Success)
  }

  lemma OneResult(g: nat, answers: nat -> GpuAnswer, result: Result)
    ensures Those([g], answers, result) == if ResultOf(answers(g)) == result then [g] else []
  {
    assert [g][..0] == [];
  }

  /** Such a run: the GPU it registers in the end is retried and registered again. */
  lemma AbandonedRunRegistersTwice()
    ensures var s1 := StepTo(FRESH, 0, true, Answered(Success, Success, 1, Fails), 0);
            var s2 := StepTo(s1, RETRY_INTERVAL, true, StuckRun(1, Works), RETRY_INTERVAL);
            var s3 := StepTo(s2, RETRY_INTERVAL, true, Answered(Success, Success, 1, Works), RETRY_INTERVAL);
            s3.registered == [0, 0]
  {
    hide Those;
    assert UpTo(1) == [0] && [0][..1] == [0];
    OneResult(0, Fails, Failed);
    OneResult(0, Fails, Registered);
    OneResult(0, Works, Registered);
    var s1 := StepTo(FRESH, 0, true, Answered(Success, Success, 1, Fails), 0);
    assert s1.eventSet && s1.standing.missing == [0] && s1.retryAt == RETRY_INTERVAL && s1.registered == [];
    var s2 := StepTo(s1, RETRY_INTERVAL, true, StuckRun(1, Works), RETRY_INTERVAL);
    assert s2.eventSet && s2.standing.missing == [0] && s2.retryAt == RETRY_INTERVAL && s2.registered == [0];
  }

  /** One turn of registration: the clock before it, whether the driver is there, and what came of it. */
  datatype Turn = Turn(now: int, ready: bool, attempt: Attempt, after: int)

  function StateAfter(s: State, turns: seq<Turn>): State {
    if turns == [] then s
    else
      var t := turns[|turns| - 1];
      StepTo(StateAfter(s, turns[..|turns| - 1]), t.now, t.ready, t.attempt, t.after)
  }

  /** Turn k runs, and the driver answers in time. */
  predicate Answers(s: State, turns: seq<Turn>, k: nat)
    requires k < |turns|
  {
    Runs(StateAfter(s, turns[..k]), turns[k].now, turns[k].ready) && turns[k].attempt.Answered?
  }

  /** Over any turns, a missing GPU for which no run was answered success or not supported, by both of
      its calls, stays missing: it is retried for as long as it takes. */
  lemma {:induction false} UnansweredStaysMissing(s: State, turns: seq<Turn>, g: nat)
    requires Sound(s) && s.eventSet && g in s.standing.missing
    requires forall k :: 0 <= k < |turns| && Answers(s, turns, k) ==>
               var a := turns[k].attempt.answers(g);
               a.handle != Success || (a.register != Success && a.register != NotSupported)
    ensures var after := StateAfter(s, turns);
            Sound(after) && after.eventSet && g in after.standing.missing
  {
    if turns != [] {
      var before, t := turns[..|turns| - 1], turns[|turns| - 1];
      forall k | 0 <= k < |before|
        ensures Answers(s, before, k) == Answers(s, turns, k) && before[k] == turns[k]
      {
        assert before[..k] == turns[..k];
      }
      UnansweredStaysMissing(s, before, g);
      var was := StateAfter(s, before);
      StepIsSound(was, t.now, t.ready, t.attempt, t.after);
      hide Sound, StandingsOf, Those;
      if Runs(was, t.now, t.ready) && t.attempt.Answered? {
        assert Answers(s, turns, |before|);
        AnswersSettleEachGpu(was, t.now, t.ready, t.attempt, t.after, g);
      }
    }
  }

  lemma {:induction false} RetryTimeStays(s: State, turns: seq<Turn>, i: nat, j: nat)
    requires i < j <= |turns| && Answers(s, turns, i) && StateAfter(s, turns[..i + 1]).eventSet
    requires forall k :: i < k < j ==> !Answers(s, turns, k)
    ensures StateAfter(s, turns[..j]).eventSet && StateAfter(s, turns[..j]).retryAt == turns[i].after + RETRY_INTERVAL
    decreases j
  {
    assert turns[..j][..j - 1] == turns[..j - 1] && turns[..j][j - 1] == turns[j - 1];
    if i < j - 1 {
      RetryTimeStays(s, turns, i, j - 1);
      assert !Answers(s, turns, j - 1);
    }
  }

  /** Over any turns, once a run has answered, the next turn in the set asks again exactly when the driver
      is there, GPUs are missing, and the retry interval has passed since, however many turns between did
      not run, or ran and got stuck. Without a set, every turn asks while the driver is there. */
  lemma RetriesArePaced(s: State, turns: seq<Turn>, i: nat, j: nat)
    requires i < j < |turns| && Answers(s, turns, i)
    requires forall k :: i < k < j ==> !Answers(s, turns, k)
    ensures var was := StateAfter(s, turns[..j]);
            if StateAfter(s, turns[..i + 1]).eventSet then
              Runs(was, turns[j].now, turns[j].ready) <==>
                turns[j].ready && was.standing.missing != [] && turns[j].now - turns[i].after >= RETRY_INTERVAL
            else
              Runs(was, turns[j].now, turns[j].ready) <==> turns[j].ready
  {
    if StateAfter(s, turns[..i + 1]).eventSet {
      RetryTimeStays(s, turns, i, j);
    } else {
      NoSetUntilAnswered(s, turns, i + 1, j);
    }
  }

  lemma {:induction false} NoSetUntilAnswered(s: State, turns: seq<Turn>, i: nat, j: nat)
    requires i <= j <= |turns| && !StateAfter(s, turns[..i]).eventSet
    requires forall k :: i <= k < j ==> !Answers(s, turns, k)
    ensures !StateAfter(s, turns[..j]).eventSet
    decreases j
  {
    if i < j {
      NoSetUntilAnswered(s, turns, i, j - 1);
      assert turns[..j][..j - 1] == turns[..j - 1] && turns[..j][j - 1] == turns[j - 1];
      assert !Answers(s, turns, j - 1);
    }
  }

  // ---------------------------------------------------------------------------
  // Waiting for events
  // ---------------------------------------------------------------------------

  type DeviceId = nat

  datatype Sent = Sent(device: DeviceId, at: int)

  /** What the wait in the driver came to. */
  datatype Event = StuckWait | Returned(ret: Return, device: DeviceId, xid: nat, critical: bool)

  datatype Waited = Unknown | Quiet | Reported(xid: nat)

  /** Any two reports of one device are at least the floor apart. */
  ghost predicate Spaced(sent: seq<Sent>) {
    forall i, j :: 0 <= i < j < |sent| && sent[i].device == sent[j].device ==> sent[j].at - sent[i].at >= REPEAT_FLOOR
  }

  /** When each device last reported. */
  ghost predicate Latest(sent: seq<Sent>, last: map<DeviceId, int>) {
    && (forall i :: 0 <= i < |sent| ==> sent[i].device in last && sent[i].at <= last[sent[i].device])
    && (forall d :: d in last ==> Sent(d, last[d]) in sent)
  }

  predicate TooSoon(last: map<DeviceId, int>, d: DeviceId, now: int) {
    d in last && now - last[d] < REPEAT_FLOOR
  }

  lemma ReportKeepsTheFloor(sent: seq<Sent>, last: map<DeviceId, int>, d: DeviceId, now: int)
    requires Spaced(sent) && Latest(sent, last) && !TooSoon(last, d, now)
    ensures Spaced(sent + [Sent(d, now)]) && Latest(sent + [Sent(d, now)], last[d := now])
  {
    var after := sent + [Sent(d, now)];
    assert forall x :: x in sent ==> x in after;
    assert after[|sent|] == Sent(d, now);
  }

  /** An event is dropped only because its device reported less than the floor before it. */
  lemma DroppedRepeatsAReport(sent: seq<Sent>, last: map<DeviceId, int>, d: DeviceId, now: int)
    requires Latest(sent, last)
    ensures TooSoon(last, d, now) <==> exists i :: 0 <= i < |sent| && sent[i].device == d && now - sent[i].at < REPEAT_FLOOR
  {
    if TooSoon(last, d, now) {
      var i :| 0 <= i < |sent| && sent[i] == Sent(d, last[d]);
    }
  }

  class Xids {
    var eventSet: bool
    var missing: seq<nat>
    var retryAt: int
    var lastSent: map<DeviceId, int>
    ghost var state: State
    ghost var sent: seq<Sent>

    ghost predicate Valid()
      reads this
    {
      && Sound(state)
      && state.eventSet == eventSet && state.standing.missing == missing && state.retryAt == retryAt
      && Spaced(sent) && Latest(sent, lastSent)
    }

    constructor ()
      ensures Valid() && state == FRESH && sent == []
    {
      eventSet, missing, retryAt, lastSent := false, [], 0, map[];
      state, sent := FRESH, [];
    }

    /** One turn of registration: of every GPU at first, then of those still missing once it is time. */
    method Register(now: int, ready: bool, attempt: Attempt, after: int) returns (ok: bool)
      requires Valid()
      modifies this`eventSet, this`missing, this`retryAt, this`state
      ensures Valid() && state == StepTo(old(state), now, ready, attempt, after)
      ensures ok <==> state.eventSet && (ready || missing == [] || now < retryAt)
    {
      hide Sound, Spaced, Latest;
      StepIsSound(state, now, ready, attempt, after);
      if eventSet && (missing == [] || now < retryAt) {
        return true;
      }
      if !ready {
        return false;
      }
      state := StepTo(state, now, ready, attempt, after);
      if attempt.StuckRun? {
        return eventSet;
      }
      var inSet, failed, _, _ := RegisterXidEvents(eventSet, missing,
        attempt.created, attempt.counted, attempt.count, attempt.answers);
      if !inSet {
        return eventSet;
      }
      eventSet, missing, retryAt := true, failed, after + RETRY_INTERVAL;
      return true;
    }

    /** Waits for the next event and returns what to report. Nothing known is not a quiet period:
        then it sleeps before it returns. */
    method Wait(now: int, ready: bool, attempt: Attempt, after: int, event: Event, at: int)
      returns (outcome: Waited, slept: bool)
      requires Valid()
      modifies this
      ensures Valid() && state == StepTo(old(state), now, ready, attempt, after)
      ensures slept <==> outcome.Unknown?
      ensures outcome.Unknown? <==>
              || !(state.eventSet && (ready || missing == [] || now < retryAt))
              || event.StuckWait? || (!event.ret.Timeout? && !event.ret.Success?)
      ensures outcome.Reported? <==>
                && !outcome.Unknown? && event.ret == Success && event.critical
                && forall i :: 0 <= i < |old(sent)| && old(sent)[i].device == event.device ==> at - old(sent)[i].at >= REPEAT_FLOOR
      ensures outcome.Reported? ==> outcome.xid == event.xid
      ensures sent == old(sent) + if outcome.Reported? then [Sent(event.device, at)] else []
    {
      hide Sound, StepTo, Spaced, Latest;
      var ok := Register(now, ready, attempt, after);
      if !ok {
        return Unknown, true;
      }
      if event.StuckWait? {
        return Unknown, true;
      }
      if event.ret.Timeout? {
        return Quiet, false;
      }
      if OutcomeOf(event.ret) != Observed {
        return Unknown, true;
      }
      if !event.critical {
        return Quiet, false;
      }
      DroppedRepeatsAReport(sent, lastSent, event.device, at);
      if event.device in lastSent && at - lastSent[event.device] < REPEAT_FLOOR {
        return Quiet, false;
      }
      ReportKeepsTheFloor(sent, lastSent, event.device, at);
      lastSent := lastSent[event.device := at];
      sent := sent + [Sent(event.device, at)];
      return Reported(event.xid), false;
    }
  }
}
