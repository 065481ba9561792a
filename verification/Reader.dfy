/** The NVML reader: loading and initializing the library, reporting a driver that does not
    answer, and escalating one that has answered nothing for long enough. */
module Reader {
  import opened Monitor
  import opened Renotify
  import InFlight

  // Durations are in nanoseconds.
  const STALL_DURATION := 120_000_000_000
  const ESCALATION_WINDOW := 900_000_000_000
  const RENOTIFY_INTERVAL := 1_800_000_000_000
  const MAX_HOST_MEMORY_PRESSURE := 10.0

  const SUCCESS := 0

  const STUCK_KEY := "driver-not-responding"
  const LIBRARY_KEY := "library-not-found"

  datatype Status = Done | Stuck

  /** The share of the last minute the host was stalled on memory. A parsed float can also be
      not a number, which no comparison holds of. */
  datatype Pressure = Unreadable | NotANumber | Full(percent: real)

  /** What running the init check gave: nothing yet, or whether a library loaded and what its
      Init returned. */
  datatype InitRun = InitStuck | InitDone(found: bool, ret: int)

  /** Everything one call of Reconcile reads: its clock readings in order, the timestamps of the
      checks that read the GPUs and of the init check, and what each driver call gave. */
  datatype Call = Call(
    first: int, second: int, third: int, fourth: int,
    since: seq<int>, initSince: int, init: InitRun, probe: Status, pressure: Pressure)

  datatype Report = LibraryNotFound | DriverNotResponding | InitFailed(ret: int) | DriverUnresponsive

  datatype Grace = Grace(started: int, period: int)

  predicate InGrace(g: Grace, now: int) {
    now < g.started + g.period
  }

  // ---------------------------------------------------------------------------
  // What the calls so far amount to
  // ---------------------------------------------------------------------------

  /** Init has succeeded on some earlier call. */
  predicate ReadyBy(h: seq<Call>) {
    h != [] &&
    var before, c := h[..|h| - 1], h[|h| - 1];
    ReadyBy(before) || (c.init.InitDone? && c.init.ret == SUCCESS && (LoadedBy(before) || c.init.found))
  }

  /** Some candidate library has loaded. */
  predicate LoadedBy(h: seq<Call>) {
    h != [] &&
    var before, c := h[..|h| - 1], h[|h| - 1];
    LoadedBy(before) || (c.init.InitDone? && c.init.found)
  }

  predicate Stalled(c: Call) {
    InFlight.IsStalled(c.since, c.first, STALL_DURATION)
  }

  /** Call i was made after Init, found the checks stalled, and its driver probe stuck. */
  predicate IsStuckCall(h: seq<Call>, i: nat)
    requires i < |h|
  {
    ReadyBy(h[..i]) && Stalled(h[i]) && h[i].probe.Stuck?
  }

  /** How many stuck calls in a row end h. */
  function StuckRun(h: seq<Call>): (n: nat)
    ensures n <= |h|
  {
    if h == [] || !IsStuckCall(h, |h| - 1) then 0 else 1 + StuckRun(h[..|h| - 1])
  }

  /** When the first of those calls began its probe. */
  function StuckSince(h: seq<Call>): Option<int> {
    if StuckRun(h) == 0 then None else Some(h[|h| - StuckRun(h)].third)
  }

  predicate PressureAllows(p: Pressure) {
    match p
    case Unreadable => false
    case NotANumber => true
    case Full(percent) => !(percent > MAX_HOST_MEMORY_PRESSURE)
  }

  /** Call i is one that escalates. */
  predicate Escalates(h: seq<Call>, i: nat)
    requires i < |h|
  {
    var upTo := h[..i + 1];
    && IsStuckCall(upTo, i)
    && h[i].fourth - StuckSince(upTo).value >= ESCALATION_WINDOW
    && PressureAllows(h[i].pressure)
  }

  /** What call i says about the driver answering. */
  function StuckEvent(g: Grace, h: seq<Call>, i: nat): Event<string>
    requires i < |h|
  {
    var c := h[i];
    if ReadyBy(h[..i]) then
      if Stalled(c) then Seen(STUCK_KEY, c.second) else Healthy
    else if c.init.InitDone? then Unrelated
    else if !InGrace(g, c.first) && InFlight.IsStalled([c.initSince], c.second, STALL_DURATION) then Seen(STUCK_KEY, c.third)
    else Healthy
  }

  /** What call i says about the library being there. */
  function LibraryEvent(g: Grace, h: seq<Call>, i: nat): Event<string>
    requires i < |h|
  {
    var c := h[i];
    if ReadyBy(h[..i]) || LoadedBy(h[..i]) || c.init.InitStuck? then Unrelated
    else if c.init.found then Healthy
    else if InGrace(g, c.first) then Unrelated
    else Seen(LIBRARY_KEY, c.second)
  }

  function StuckEvents(g: Grace, h: seq<Call>): (events: seq<Event<string>>)
    ensures |events| == |h| && forall i :: 0 <= i < |h| ==> events[i] == StuckEvent(g, h, i)
  {
    seq(|h|, i requires 0 <= i < |h| => StuckEvent(g, h, i))
  }

  function LibraryEvents(g: Grace, h: seq<Call>): (events: seq<Event<string>>)
    ensures |events| == |h| && forall i :: 0 <= i < |h| ==> events[i] == LibraryEvent(g, h, i)
  {
    seq(|h|, i requires 0 <= i < |h| => LibraryEvent(g, h, i))
  }

  /** Init returned an error on call i, past the grace period. */
  predicate InitFailsAt(g: Grace, h: seq<Call>, i: nat)
    requires i < |h|
  {
    var c := h[i];
    && !ReadyBy(h[..i]) && c.init.InitDone? && (LoadedBy(h[..i]) || c.init.found)
    && c.init.ret != SUCCESS && !InGrace(g, c.first)
  }

  /** Everything call i reports, in order. */
  function ReportsAt(g: Grace, h: seq<Call>, i: nat): seq<Report>
    requires i < |h|
  {
    if ReadyBy(h[..i]) then
      (if Notifies(RENOTIFY_INTERVAL, StuckEvents(g, h), i) then [DriverNotResponding] else []) +
      (if Escalates(h, i) then [DriverUnresponsive] else [])
    else if InitFailsAt(g, h, i) then [InitFailed(h[i].init.ret)]
    else if Notifies(RENOTIFY_INTERVAL, LibraryEvents(g, h), i) then [LibraryNotFound]
    else if Notifies(RENOTIFY_INTERVAL, StuckEvents(g, h), i) then [DriverNotResponding]
    else []
  }

  // ---------------------------------------------------------------------------
  // Escalation over whole runs
  // ---------------------------------------------------------------------------

  lemma {:induction false} StuckRunIsMaximal(h: seq<Call>)
    ensures forall k :: |h| - StuckRun(h) <= k < |h| ==> IsStuckCall(h, k)
    ensures StuckRun(h) < |h| ==> !IsStuckCall(h, |h| - StuckRun(h) - 1)
  {
    if h != [] && IsStuckCall(h, |h| - 1) {
      var before := h[..|h| - 1];
      StuckRunIsMaximal(before);
      forall k: nat | k < |before|
        ensures IsStuckCall(before, k) == IsStuckCall(h, k)
      {
        assert before[..k] == h[..k] && before[k] == h[k];
      }
    }
  }

  /** The clock never goes back, within a call or from one to the next. */
  ghost predicate Monotone(h: seq<Call>) {
    && (forall i :: 0 <= i < |h| ==> h[i].first <= h[i].second <= h[i].third <= h[i].fourth)
    && (forall i, j :: 0 <= i < j < |h| ==> h[i].fourth <= h[j].first)
  }

  /** The calls from i to j are all stuck, and the window passed between the start of the first
      one's probe and the end of the last one's. */
  ghost predicate StuckThroughout(h: seq<Call>, i: nat, j: nat) {
    i <= j < |h| && (forall k :: i <= k <= j ==> IsStuckCall(h, k)) && h[j].fourth - h[i].third >= ESCALATION_WINDOW
  }

  lemma StuckCallsOfPrefix(h: seq<Call>, j: nat)
    requires j < |h|
    ensures forall k: nat :: k <= j ==> IsStuckCall(h[..j + 1], k) == IsStuckCall(h, k)
  {
    forall k: nat | k <= j
      ensures IsStuckCall(h[..j + 1], k) == IsStuckCall(h, k)
    {
      assert h[..j + 1][..k] == h[..k] && h[..j + 1][k] == h[k];
    }
  }

  /** A call escalates exactly when it ends an unbroken run of stuck calls that spans the window
      and the host is not under memory pressure. */
  lemma EscalationIsExact(h: seq<Call>, j: nat)
    requires j < |h| && Monotone(h)
    ensures Escalates(h, j) <==> PressureAllows(h[j].pressure) && exists i: nat :: StuckThroughout(h, i, j)
  {
    var run := StuckRun(h[..j + 1]);
    var start := j + 1 - run;
    StuckRunIsMaximal(h[..j + 1]);
    StuckCallsOfPrefix(h, j);
    if Escalates(h, j) {
      assert StuckThroughout(h, start, j);
    }
    if i: nat :| StuckThroughout(h, i, j) {
      assert IsStuckCall(h, j);
      if start > 0 {
        assert !IsStuckCall(h, start - 1);
      }
      assert start <= i;
      if start < i {
        assert h[start].fourth <= h[i].first;
      }
    }
  }

  /** A call that found the probe answering, or the checks answering, restarts the window: no
      later call escalates unless the window has passed since a call after it. */
  lemma AnswerRestartsTheWindow(h: seq<Call>, k: nat, j: nat)
    requires k < j < |h| && !IsStuckCall(h, k) && Escalates(h, j)
    ensures exists i: nat :: k < i && StuckThroughout(h, i, j)
  {
    StuckRunIsMaximal(h[..j + 1]);
    StuckCallsOfPrefix(h, j);
    var start := j + 1 - StuckRun(h[..j + 1]);
    assert forall m: nat :: start <= m <= j ==> IsStuckCall(h, m);
    assert k < start;
    assert StuckThroughout(h, start, j);
  }

  /** Two not-responding warnings between which the driver never answered are at least the
      re-notify interval apart. */
  lemma DriverWarningsAreSpaced(g: Grace, h: seq<Call>, i: nat, j: nat)
    requires i < j < |h|
    requires DriverNotResponding in ReportsAt(g, h, i) && DriverNotResponding in ReportsAt(g, h, j)
    requires forall k :: i < k < j ==> !StuckEvent(g, h, k).Healthy?
    ensures StuckEvent(g, h, j).at - StuckEvent(g, h, i).at >= RENOTIFY_INTERVAL
  {
    hide Escalates, InitFailsAt, ReadyBy, LastNotice;
    OnlyOneKey(g, h);
    NoticesAreSpaced(RENOTIFY_INTERVAL, StuckEvents(g, h), i, j);
  }

  lemma OnlyOneKey(g: Grace, h: seq<Call>)
    ensures forall k :: 0 <= k < |h| && StuckEvent(g, h, k).Seen? ==> StuckEvent(g, h, k).key == STUCK_KEY
  {
  }

  /** Once Init has succeeded the reader stays ready, and no later call reports Init's failure or a
      missing library. */
  lemma {:induction false} ReadyIsForever(h: seq<Call>, i: nat)
    requires i <= |h| && ReadyBy(h[..i])
    ensures ReadyBy(h)
    ensures forall g, j :: i <= j < |h| ==> !InitFailsAt(g, h, j) && LibraryEvent(g, h, j).Unrelated?
    decreases |h|
  {
    forall j | i <= j <= |h|
      ensures ReadyBy(h[..j])
    {
      ReadyStays(h, i, j);
    }
    assert h[..|h|] == h;
  }

  /** Init is not run again: what a later call reports is the same whatever Init would have given. */
  lemma InitIsNotRunAgain(g: Grace, h: seq<Call>, i: nat, j: nat, init: InitRun)
    requires i <= j < |h| && ReadyBy(h[..i])
    ensures ReportsAt(g, h[j := h[j].(init := init)], j) == ReportsAt(g, h, j)
  {
    var other := h[j := h[j].(init := init)];
    ReadyStays(h, i, j);
    assert forall k :: 0 <= k <= j ==> other[..k] == h[..k];
    assert StuckEvents(g, other)[..j] == StuckEvents(g, h)[..j];
    assert other[..j + 1][..j] == h[..j] && h[..j + 1][..j] == h[..j];
  }

  /** Before Init has succeeded nothing escalates, whatever the call observes. */
  lemma NothingEscalatesBeforeInit(h: seq<Call>, j: nat)
    requires j < |h| && !ReadyBy(h[..j])
    ensures !Escalates(h, j) && forall g :: DriverUnresponsive !in ReportsAt(g, h, j)
  {
    assert h[..j + 1][..j] == h[..j];
  }

  /** Until Init has succeeded, a call inside the grace period reports nothing, whatever it observes. */
  lemma GraceHoldsBack(g: Grace, h: seq<Call>, i: nat)
    requires i < |h| && !ReadyBy(h[..i]) && h[i].first < g.started + g.period
    ensures ReportsAt(g, h, i) == []
  {
    hide LastNotice, ReadyBy, LoadedBy, Escalates;
  }

  /** A call after the grace period in which Init runs on a library and fails reports it, and no other
      call reports that. */
  lemma InitFailureIsReported(g: Grace, h: seq<Call>, i: nat, ret: int)
    requires i < |h|
    ensures InitFailed(ret) in ReportsAt(g, h, i) <==>
            && !ReadyBy(h[..i]) && h[i].first >= g.started + g.period
            && h[i].init.InitDone? && h[i].init.ret == ret != 0 && (LoadedBy(h[..i]) || h[i].init.found)
  {
    hide LastNotice, ReadyBy, LoadedBy, Escalates, Notifies;
  }

  /** A missing library is what a call reports only after the grace period, when none had loaded and
      this call found none. Such a call reports it, unless an earlier one has within the interval. */
  lemma MissingLibraryIsReported(g: Grace, h: seq<Call>, i: nat) returns (k: nat)
    requires i < |h|
    ensures LibraryNotFound in ReportsAt(g, h, i) ==> FindsNoLibrary(g, h, i)
    ensures FindsNoLibrary(g, h, i) ==>
              k <= i && LibraryNotFound in ReportsAt(g, h, k) && (k == i || h[i].second - h[k].second < RENOTIFY_INTERVAL)
  {
    hide LastNotice, ReadyBy, LoadedBy, Escalates;
    k := i;
    if FindsNoLibrary(g, h, i) && !Notifies(RENOTIFY_INTERVAL, LibraryEvents(g, h), i) {
      hide Notifies;
      k := SuppressedRepeatsARecentNotice(RENOTIFY_INTERVAL, LibraryEvents(g, h), i);
    }
  }

  predicate FindsNoLibrary(g: Grace, h: seq<Call>, i: nat)
    requires i < |h|
  {
    && !ReadyBy(h[..i]) && !LoadedBy(h[..i]) && h[i].first >= g.started + g.period
    && h[i].init.InitDone? && !h[i].init.found
  }

  /** A driver that does not respond is what a call reports only when it found the checks stalled, or,
      before Init has succeeded and after the grace period, Init stuck. Such a call reports it, unless
      an earlier one has within the interval. */
  lemma StuckDriverIsReported(g: Grace, h: seq<Call>, i: nat) returns (k: nat)
    requires i < |h|
    ensures DriverNotResponding in ReportsAt(g, h, i) ==> FindsDriverStuck(g, h, i)
    ensures FindsDriverStuck(g, h, i) ==>
              && k <= i && DriverNotResponding in ReportsAt(g, h, k)
              && (k == i || StuckEvent(g, h, i).at - StuckEvent(g, h, k).at < RENOTIFY_INTERVAL)
  {
    hide LastNotice, ReadyBy, LoadedBy, Escalates;
    k := i;
    assert [h[i].initSince][0] == h[i].initSince;
    if FindsDriverStuck(g, h, i) && !Notifies(RENOTIFY_INTERVAL, StuckEvents(g, h), i) {
      hide Notifies;
      k := SuppressedRepeatsARecentNotice(RENOTIFY_INTERVAL, StuckEvents(g, h), i);
    }
  }

  predicate FindsDriverStuck(g: Grace, h: seq<Call>, i: nat)
    requires i < |h|
  {
    var c := h[i];
    if ReadyBy(h[..i]) then
      c.since != [] && forall j :: 0 <= j < |c.since| ==> c.since[j] != 0 && c.first - c.since[j] >= STALL_DURATION
    else
      && c.first >= g.started + g.period
      && c.init.InitStuck? && c.initSince != 0 && c.second - c.initSince >= STALL_DURATION
  }

  /** A call that ends a long enough stuck run escalates, as promised, exactly when the memory pressure
      is known and at most 10, except when the pressure is not a number: then it escalates. */
  lemma OnlyAKnownPressureEscalates(h: seq<Call>, i: nat, j: nat)
    requires j < |h| && Monotone(h) && StuckThroughout(h, i, j)
    ensures (Escalates(h, j) <==> h[j].pressure.Full? && h[j].pressure.percent <= MAX_HOST_MEMORY_PRESSURE)
            <==> !h[j].pressure.NotANumber?
  {
    EscalationIsExact(h, j);
  }

  /** A run that escalates on a pressure that is not a number: Init succeeds, and then two calls the
      window apart find the checks stalled and the probe stuck. */
  lemma NotANumberEscalates()
    ensures var init := Call(1, 1, 1, 1, [], 0, InitDone(true, SUCCESS), Done, Unreadable);
            var stuck := (t: int) => Call(t, t, t, t, [1], 0, InitStuck, Stuck, NotANumber);
            var h := [init, stuck(1 + STALL_DURATION), stuck(1 + STALL_DURATION + ESCALATION_WINDOW)];
            Monotone(h) && Escalates(h, 2)
  {
    var init := Call(1, 1, 1, 1, [], 0, InitDone(true, SUCCESS), Done, Unreadable);
    var stuck := (t: int) => Call(t, t, t, t, [1], 0, InitStuck, Stuck, NotANumber);
    var h := [init, stuck(1 + STALL_DURATION), stuck(1 + STALL_DURATION + ESCALATION_WINDOW)];
    assert h[..1] == [init] && ReadyBy([init]);
    ReadyStays(h, 1, 2);
    assert IsStuckCall(h, 1) && IsStuckCall(h, 2);
    assert StuckThroughout(h, 1, 2);
    EscalationIsExact(h, 2);
  }

  lemma {:induction false} ReadyStays(h: seq<Call>, i: nat, j: nat)
    requires i <= j <= |h| && ReadyBy(h[..i])
    ensures ReadyBy(h[..j])
    decreases j
  {
    if i < j {
      ReadyStays(h, i, j - 1);
      assert h[..j][..j - 1] == h[..j - 1];
    }
  }

  // ---------------------------------------------------------------------------
  // How the history grows by one call
  // ---------------------------------------------------------------------------

  lemma EventsStep(g: Grace, h: seq<Call>, c: Call)
    ensures StuckEvents(g, h + [c]) == StuckEvents(g, h) + [StuckEvent(g, h + [c], |h|)]
    ensures LibraryEvents(g, h + [c]) == LibraryEvents(g, h) + [LibraryEvent(g, h + [c], |h|)]
  {
    var after := h + [c];
    forall i | 0 <= i < |h|
      ensures StuckEvent(g, after, i) == StuckEvent(g, h, i) && LibraryEvent(g, after, i) == LibraryEvent(g, h, i)
    {
      assert after[..i] == h[..i] && after[i] == h[i];
    }
  }

  /** The notification in force after one more call, and whether that call sends one. */
  lemma WarningsStep(g: Grace, h: seq<Call>, c: Call)
    ensures
      var events, e := StuckEvents(g, h), StuckEvent(g, h + [c], |h|);
      && LastNotice(RENOTIFY_INTERVAL, StuckEvents(g, h + [c])) == After(LastNotice(RENOTIFY_INTERVAL, events), e)
      && (Notifies(RENOTIFY_INTERVAL, StuckEvents(g, h + [c]), |h|) <==>
           e.Seen? && Due(LastNotice(RENOTIFY_INTERVAL, events), RENOTIFY_INTERVAL, e.key, e.at))
    ensures
      var events, e := LibraryEvents(g, h), LibraryEvent(g, h + [c], |h|);
      && LastNotice(RENOTIFY_INTERVAL, LibraryEvents(g, h + [c])) == After(LastNotice(RENOTIFY_INTERVAL, events), e)
      && (Notifies(RENOTIFY_INTERVAL, LibraryEvents(g, h + [c]), |h|) <==>
           e.Seen? && Due(LastNotice(RENOTIFY_INTERVAL, events), RENOTIFY_INTERVAL, e.key, e.at))
  {
    EventsStep(g, h, c);
    LastNoticeStep(RENOTIFY_INTERVAL, StuckEvents(g, h), StuckEvent(g, h + [c], |h|));
    LastNoticeStep(RENOTIFY_INTERVAL, LibraryEvents(g, h), LibraryEvent(g, h + [c], |h|));
    PrefixOfExtension(StuckEvents(g, h), StuckEvent(g, h + [c], |h|));
    PrefixOfExtension(LibraryEvents(g, h), LibraryEvent(g, h + [c], |h|));
  }

  function After(last: Option<Notice<string>>, e: Event<string>): Option<Notice<string>> {
    match e
    case Healthy => None
    case Unrelated => last
    case Seen(key, at) => if Due(last, RENOTIFY_INTERVAL, key, at) then Some(Notice(key, at)) else last
  }

  /** Init's progress after one more call. */
  lemma ProgressStep(h: seq<Call>, c: Call)
    ensures (h + [c])[..|h|] == h && (h + [c])[|h|] == c
    ensures ReadyBy(h + [c]) <==>
            ReadyBy(h) || (c.init.InitDone? && c.init.ret == SUCCESS && (LoadedBy(h) || c.init.found))
    ensures LoadedBy(h + [c]) <==> LoadedBy(h) || (c.init.InitDone? && c.init.found)
  {
    PrefixOfExtension(h, c);
  }

  /** The probe's stuck run after one more call. */
  lemma StuckStep(h: seq<Call>, c: Call)
    ensures StuckSince(h + [c]) ==
            if !ReadyBy(h) || !Stalled(c) || c.probe.Done? then None
            else if StuckSince(h).None? then Some(c.third) else StuckSince(h)
  {
    PrefixOfExtension(h, c);
  }

  lemma EscalatesStep(h: seq<Call>, c: Call)
    ensures Escalates(h + [c], |h|) <==>
            && ReadyBy(h) && Stalled(c) && c.probe.Stuck?
            && c.fourth - StuckSince(h + [c]).value >= ESCALATION_WINDOW
            && PressureAllows(c.pressure)
  {
    PrefixOfExtension(h, c);
    StuckStep(h, c);
    hide StuckSince, ReadyBy;
  }

  /** One more call after Init has succeeded: what it leaves behind and what it reports. */
  lemma ReadyCallStep(g: Grace, h: seq<Call>, c: Call)
    requires ReadyBy(h)
    ensures
      var h', since, warned := h + [c], StuckSince(h + [c]), LastNotice(RENOTIFY_INTERVAL, StuckEvents(g, h));
      && ReadyBy(h')
      && StuckEvent(g, h', |h|) == (if Stalled(c) then Seen(STUCK_KEY, c.second) else Healthy)
      && LastNotice(RENOTIFY_INTERVAL, StuckEvents(g, h')) == After(warned, StuckEvent(g, h', |h|))
      && LastNotice(RENOTIFY_INTERVAL, LibraryEvents(g, h')) == LastNotice(RENOTIFY_INTERVAL, LibraryEvents(g, h))
      && since == (if !Stalled(c) || c.probe.Done? then None
                   else if StuckSince(h).None? then Some(c.third) else StuckSince(h))
      && ReportsAt(g, h', |h|) ==
         (if Stalled(c) && Due(warned, RENOTIFY_INTERVAL, STUCK_KEY, c.second) then [DriverNotResponding] else []) +
         (if Stalled(c) && c.probe.Stuck? && c.fourth - since.value >= ESCALATION_WINDOW && PressureAllows(c.pressure)
          then [DriverUnresponsive] else [])
  {
    WarningsStep(g, h, c);
    ProgressStep(h, c);
    StuckStep(h, c);
    EscalatesStep(h, c);
    hide LastNotice, Notifies, Escalates, StuckSince, StuckEvents, LibraryEvents, ReadyBy, LoadedBy;
  }

  /** One more call before Init has succeeded: what it leaves behind and what it reports. */
  lemma InitCallStep(g: Grace, h: seq<Call>, c: Call)
    requires !ReadyBy(h)
    ensures
      var h', warned, missing :=
        h + [c], LastNotice(RENOTIFY_INTERVAL, StuckEvents(g, h)), LastNotice(RENOTIFY_INTERVAL, LibraryEvents(g, h));
      var stuckInit := !InGrace(g, c.first) && InFlight.IsStalled([c.initSince], c.second, STALL_DURATION);
      var stuckEvent := if c.init.InitDone? then Unrelated else if stuckInit then Seen(STUCK_KEY, c.third) else Healthy;
      var libraryEvent :=
        if LoadedBy(h) || c.init.InitStuck? then Unrelated
        else if c.init.found then Healthy
        else if InGrace(g, c.first) then Unrelated else Seen(LIBRARY_KEY, c.second);
      && (ReadyBy(h') <==> c.init.InitDone? && c.init.ret == SUCCESS && (LoadedBy(h) || c.init.found))
      && (LoadedBy(h') <==> LoadedBy(h) || (c.init.InitDone? && c.init.found))
      && StuckSince(h) == None && StuckSince(h') == None
      && StuckEvent(g, h', |h|) == stuckEvent
      && LastNotice(RENOTIFY_INTERVAL, StuckEvents(g, h')) == After(warned, stuckEvent)
      && LastNotice(RENOTIFY_INTERVAL, LibraryEvents(g, h')) == After(missing, libraryEvent)
      && ReportsAt(g, h', |h|) ==
         if c.init.InitStuck? then
           if stuckInit && Due(warned, RENOTIFY_INTERVAL, STUCK_KEY, c.third) then [DriverNotResponding] else []
         else if !LoadedBy(h) && !c.init.found then
           if !InGrace(g, c.first) && Due(missing, RENOTIFY_INTERVAL, LIBRARY_KEY, c.second) then [LibraryNotFound] else []
         else if c.init.ret != SUCCESS && !InGrace(g, c.first) then [InitFailed(c.init.ret)]
         else []
  {
    WarningsStep(g, h, c);
    ProgressStep(h, c);
    StuckStep(h, c);
    NothingStuckBeforeInit(h);
    hide LastNotice, Notifies, Escalates, StuckSince, StuckEvents, LibraryEvents, ReadyBy, LoadedBy;
  }

  lemma NothingStuckBeforeInit(h: seq<Call>)
    requires !ReadyBy(h)
    ensures StuckSince(h) == None
  {
  }

  // ---------------------------------------------------------------------------
  // The reader itself
  // ---------------------------------------------------------------------------

  class NvmlReader {
    const grace: Grace
    const libraryWarnings: Tracker<string>
    const stuckWarnings: Tracker<string>
    var loaded: bool
    var ready: bool
    var probeStuckSince: Option<int>
    var held: string
    var libraryLoaded: int           // gauges
    var driverNotResponding: int
    ghost var calls: seq<Call>

    ghost predicate Valid()
      reads this, libraryWarnings, stuckWarnings
    {
      && libraryWarnings != stuckWarnings
      && libraryWarnings.interval == RENOTIFY_INTERVAL && stuckWarnings.interval == RENOTIFY_INTERVAL
      && (ready <==> ReadyBy(calls))
      && (!ready ==> (loaded <==> LoadedBy(calls)))
      && probeStuckSince == StuckSince(calls)
      && stuckWarnings.Last() == LastNotice(RENOTIFY_INTERVAL, StuckEvents(grace, calls))
      && libraryWarnings.Last() == LastNotice(RENOTIFY_INTERVAL, LibraryEvents(grace, calls))
    }

    constructor (grace: Grace)
      ensures Valid() && calls == [] && this.grace == grace
      ensures fresh(libraryWarnings) && fresh(stuckWarnings)
    {
      this.grace := grace;
      libraryWarnings := new Tracker(RENOTIFY_INTERVAL, "");
      stuckWarnings := new Tracker(RENOTIFY_INTERVAL, "");
      loaded, ready, probeStuckSince, held := false, false, None, "";
      libraryLoaded, driverNotResponding := 0, 0;
      calls := [];
    }

    /** One call: reports exactly what the calls so far say it should. */
    method Reconcile(c: Call) returns (reports: seq<Report>)
      requires Valid()
      modifies this, libraryWarnings, stuckWarnings
      ensures Valid() && calls == old(calls) + [c]
      ensures reports == ReportsAt(grace, calls, |old(calls)|)
      ensures StuckEvent(grace, calls, |old(calls)|).Seen? ==> driverNotResponding == 1
      ensures StuckEvent(grace, calls, |old(calls)|).Healthy? ==> driverNotResponding == 0
    {
      if ready {
        reports := ReconcileReady(c);
      } else {
        reports := ReconcileInit(c);
      }
    }

    /** A call after Init has succeeded. */
    method ReconcileReady(c: Call) returns (reports: seq<Report>)
      requires Valid() && ready
      modifies this, libraryWarnings, stuckWarnings
      ensures Valid() && calls == old(calls) + [c]
      ensures reports == ReportsAt(grace, calls, |old(calls)|)
      ensures StuckEvent(grace, calls, |old(calls)|).Seen? ==> driverNotResponding == 1
      ensures StuckEvent(grace, calls, |old(calls)|).Healthy? ==> driverNotResponding == 0
    {
      hide LastNotice, StuckSince, StuckEvent, StuckEvents, LibraryEvents, ReadyBy, LoadedBy, ReportsAt;
      hide After, Due, PressureAllows, InFlight.IsStalled;
      ghost var h := calls;
      ReadyCallStep(grace, h, c);
      calls := h + [c];
      var stalled := InFlight.StalledFor(c.since, c.first, STALL_DURATION);
      var conds := NotResponding(stalled, c.second);
      var escalated := Escalate(c, stalled);
      reports := conds + escalated;
    }

    /** A call before: it loads the library if none has loaded, and runs Init. */
    method ReconcileInit(c: Call) returns (reports: seq<Report>)
      requires Valid() && !ready
      modifies this, libraryWarnings, stuckWarnings
      ensures Valid() && calls == old(calls) + [c]
      ensures reports == ReportsAt(grace, calls, |old(calls)|)
      ensures StuckEvent(grace, calls, |old(calls)|).Seen? ==> driverNotResponding == 1
      ensures StuckEvent(grace, calls, |old(calls)|).Healthy? ==> driverNotResponding == 0
    {
      hide LastNotice, StuckSince, StuckEvent, StuckEvents, LibraryEvents, ReadyBy, LoadedBy, ReportsAt;
      hide InGrace, Due, InFlight.IsStalled;
      ghost var h := calls;
      InitCallStep(grace, h, c);
      calls := h + [c];
      if c.init.InitStuck? {
        var stuck := false;
        if !InGrace(grace, c.first) {
          stuck := InFlight.StalledFor([c.initSince], c.second, STALL_DURATION);
        }
        reports := NotResponding(stuck, c.third);
        return;
      }
      if !loaded {
        if !c.init.found {
          libraryLoaded := 0;
          reports := ReportMissingLibrary(c.first, c.second);
          return;
        }
        libraryLoaded := 1;
        libraryWarnings.Reset();
        loaded := true;
      }
      reports := RecordInit(c.init.ret, c.first);
    }

    method RecordInit(ret: int, now: int) returns (reports: seq<Report>)
      modifies this`ready
      ensures ready == (old(ready) || ret == SUCCESS)
      ensures reports == if ret != SUCCESS && !InGrace(grace, now) then [InitFailed(ret)] else []
    {
      if ret == SUCCESS {
        ready := true;
        return [];
      }
      if InGrace(grace, now) {
        return [];
      }
      return [InitFailed(ret)];
    }

    /** A driver that has stopped answering, at most once per re-notify interval. */
    method NotResponding(stuck: bool, now: int) returns (reports: seq<Report>)
      requires stuckWarnings.interval == RENOTIFY_INTERVAL
      modifies this`driverNotResponding, stuckWarnings
      ensures driverNotResponding == if stuck then 1 else 0
      ensures stuckWarnings.Last() == After(old(stuckWarnings.Last()), if stuck then Seen(STUCK_KEY, now) else Healthy)
      ensures reports == if stuck && Due(old(stuckWarnings.Last()), RENOTIFY_INTERVAL, STUCK_KEY, now)
                         then [DriverNotResponding] else []
    {
      if !stuck {
        driverNotResponding := 0;
        stuckWarnings.Reset();
        return [];
      }
      driverNotResponding := 1;
      var due := stuckWarnings.ShouldNotify(STUCK_KEY, now);
      if !due {
        return [];
      }
      stuckWarnings.Notified(STUCK_KEY, now);
      return [DriverNotResponding];
    }

    /** A missing library, at most once per re-notify interval, after the grace period. */
    method ReportMissingLibrary(first: int, now: int) returns (reports: seq<Report>)
      requires libraryWarnings.interval == RENOTIFY_INTERVAL
      modifies libraryWarnings
      ensures libraryWarnings.Last() == After(old(libraryWarnings.Last()),
                if InGrace(grace, first) then Unrelated else Seen(LIBRARY_KEY, now))
      ensures reports == if !InGrace(grace, first) && Due(old(libraryWarnings.Last()), RENOTIFY_INTERVAL, LIBRARY_KEY, now)
                         then [LibraryNotFound] else []
    {
      if InGrace(grace, first) {
        return [];
      }
      var due := libraryWarnings.ShouldNotify(LIBRARY_KEY, now);
      if !due {
        return [];
      }
      libraryWarnings.Notified(LIBRARY_KEY, now);
      return [LibraryNotFound];
    }

    /** Runs the driver probe while the checks are stalled, and escalates once every probe for the
        window has been stuck and the host is not under memory pressure. */
    method Escalate(c: Call, stalled: bool) returns (reports: seq<Report>)
      modifies this`probeStuckSince, this`held
      ensures probeStuckSince ==
        if !stalled || c.probe.Done? then None
        else if old(probeStuckSince).None? then Some(c.third) else old(probeStuckSince)
      ensures reports ==
        if stalled && c.probe.Stuck? && c.fourth - probeStuckSince.value >= ESCALATION_WINDOW && PressureAllows(c.pressure)
        then [DriverUnresponsive] else []
    {
      if !stalled {
        probeStuckSince, held := None, "";
        return [];
      }
      if c.probe.Done? {
        probeStuckSince, held := None, "";
        return [];
      }
      if probeStuckSince.None? {
        probeStuckSince := Some(c.third);
      }
      if c.fourth - probeStuckSince.value < ESCALATION_WINDOW {
        return [];
      }
      var reason := "";
      if c.pressure.Unreadable? {
        reason := "host memory pressure could not be read";
      } else if c.pressure.Full? && c.pressure.percent > MAX_HOST_MEMORY_PRESSURE {
        reason := "the host is under memory pressure";
      }
      held := reason;
      if reason != "" {
        return [];
      }
      return [DriverUnresponsive];
    }
  }
}
