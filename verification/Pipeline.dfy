/** Runner, queue, manager and exporter together: one check's verdict against the node's
    condition, in every state the four of them can reach. */
module Pipeline {
  import opened Monitor
  import opened Probe
  import opened ExporterHistory
  import opened NodeExporter
  import opened Manager

  const CAPACITY := 100

  /** A check of Fatal severity, the monitor it reports through, and that monitor's kind. */
  datatype Check = Check(monitor: string, kind: string, reason: string, timing: Timing)

  datatype Notification = Notification(monitor: string, condition: Condition)

  /** seen is every result the check ever returned. outbox holds what its runner has decided to
      say but the full queue has not taken yet: the runner waits there. handled and log are the
      manager's and the exporter's histories. */
  datatype World = World(
    seen: seq<Observation>,
    outbox: seq<Condition>,
    queue: seq<Notification>,
    handled: seq<Condition>,
    log: seq<Op>)

  datatype Step =
    | RunCheck(o: Observation)               // the runner records one result
    | Enqueue                                // the queue takes what the runner waits to send
    | OtherEnqueue(n: Notification)          // another emitter's condition enters the queue
    | Dequeue(now: int)                      // the manager handles the head of the queue
    | OtherPoll(n: Notification, now: int)   // a polled condition reaches the manager directly
    | Heartbeat(now: int)

  const INITIAL := World([], [], [], [], [])

  /** Which steps can happen: a runner that waits to send runs nothing, a full queue takes
      nothing, and no other emitter uses the check's reason. */
  predicate Enabled(c: Check, w: World, s: Step) {
    match s
    case RunCheck(_) => w.outbox == []
    case Enqueue => w.outbox != [] && |w.queue| < CAPACITY
    case OtherEnqueue(n) => |w.queue| < CAPACITY && n.condition.reason != c.reason
    case Dequeue(_) => w.queue != []
    case OtherPoll(n, _) => n.condition.reason != c.reason
    case Heartbeat(_) => true
  }

  /** The manager handles a condition: kinds maps each registered monitor to its kind. */
  ghost function Handle(kinds: map<string, string>, w: World, n: Notification, now: int): World {
    if n.monitor !in kinds then w
    else w.(handled := w.handled + [n.condition], log := w.log + Routed(w.handled, kinds[n.monitor], n.condition, now))
  }

  ghost function Next(c: Check, kinds: map<string, string>, w: World, s: Step): World
    requires Enabled(c, w, s)
  {
    match s
    case RunCheck(o) =>
      w.(seen := w.seen + [o], outbox := Sends(c.reason, Fatal, c.timing, Counted(w.seen), o))
    case Enqueue => w.(outbox := w.outbox[1..], queue := w.queue + [Notification(c.monitor, w.outbox[0])])
    case OtherEnqueue(n) => w.(queue := w.queue + [n])
    case Dequeue(now) => Handle(kinds, w.(queue := w.queue[1..]), w.queue[0], now)
    case OtherPoll(n, now) => Handle(kinds, w, n, now)
    case Heartbeat(now) => w.(log := w.log + [HeartbeatOp(now)])
  }

  ghost predicate IsRun(c: Check, kinds: map<string, string>, w: World, steps: seq<Step>)
    decreases |steps|
  {
    steps == [] || (Enabled(c, w, steps[0]) && IsRun(c, kinds, Next(c, kinds, w, steps[0]), steps[1..]))
  }

  ghost function After(c: Check, kinds: map<string, string>, w: World, steps: seq<Step>): World
    requires IsRun(c, kinds, w, steps)
    decreases |steps|
  {
    if steps == [] then w else After(c, kinds, Next(c, kinds, w, steps[0]), steps[1..])
  }

  // ---------------------------------------------------------------------------
  // Agreement
  // ---------------------------------------------------------------------------

  /** Whether the reason stands once the pending conditions have been handled. */
  function StandsAfter(reason: string, stands: bool, pending: seq<Condition>): bool {
    if pending == [] then stands
    else
      var c, before := pending[|pending| - 1], StandsAfter(reason, stands, pending[..|pending| - 1]);
      if c.reason == reason && c.severity.Fatal? then !c.resolved else before
  }

  function Conditions(queue: seq<Notification>): seq<Condition> {
    if queue == [] then [] else [queue[0].condition] + Conditions(queue[1..])
  }

  /** Everything on its way to the manager, first to be handled first. */
  function Pending(w: World): seq<Condition> {
    Conditions(w.queue) + w.outbox
  }

  /** What the runner last decided is what the exporter will hold once everything pending is in. */
  ghost predicate Agrees(c: Check, w: World) {
    FiredBy(c.timing, Counted(w.seen)) <==> StandsAfter(c.reason, Unresolved(w.log, c.kind, c.reason), Pending(w))
  }

  /** The check's own conditions travel under its monitor and ask for no prior occurrences. */
  predicate IsOwn(c: Check, n: Notification) {
    n.condition.reason == c.reason ==> n.monitor == c.monitor && n.condition.minOccurrences == 0
  }

  ghost predicate OwnTraffic(c: Check, w: World) {
    && (forall i :: 0 <= i < |w.queue| ==> IsOwn(c, w.queue[i]))
    && (w.outbox != [] ==> w.outbox[0].reason == c.reason && w.outbox[0].minOccurrences == 0)
  }

  ghost predicate Invariant(c: Check, w: World) {
    Agrees(c, w) && OwnTraffic(c, w) && |w.queue| <= CAPACITY && |w.outbox| <= 1
  }

  lemma {:induction false} StandsAfterConcat(reason: string, stands: bool, a: seq<Condition>, b: seq<Condition>)
    ensures StandsAfter(reason, stands, a + b) == StandsAfter(reason, StandsAfter(reason, stands, a), b)
  {
    if b == [] {
      assert a + b == a;
    } else {
      var b', x := b[..|b| - 1], b[|b| - 1];
      StandsAfterConcat(reason, stands, a, b');
      assert (a + b)[..|a + b| - 1] == a + b';
    }
  }

  lemma StandsAfterOne(reason: string, stands: bool, x: Condition)
    ensures StandsAfter(reason, stands, [x]) == if x.reason == reason && x.severity.Fatal? then !x.resolved else stands
  {
    assert [x][..0] == [];
  }

  lemma {:induction false} ConditionsStep(queue: seq<Notification>, n: Notification)
    ensures Conditions(queue + [n]) == Conditions(queue) + [n.condition]
  {
    if queue != [] {
      ConditionsStep(queue[1..], n);
      assert (queue + [n])[1..] == queue[1..] + [n];
    }
  }

  /** What the runner says about a result moves a verdict exactly as the result moves its own. */
  lemma SendsMoveTheVerdict(c: Check, h: seq<Observation>, o: Observation)
    requires ValidTiming(c.timing)
    ensures StandsAfter(c.reason, FiredBy(c.timing, h), Sends(c.reason, Fatal, c.timing, h, o)) ==
            FiredBy(c.timing, h + if Counts(o) then [o] else [])
    ensures |Sends(c.reason, Fatal, c.timing, h, o)| <= 1
    ensures
      var said := Sends(c.reason, Fatal, c.timing, h, o);
      said != [] ==> said[0].reason == c.reason && said[0].minOccurrences == 0
  {
    var t, said := c.timing, Sends(c.reason, Fatal, c.timing, h, o);
    if o.result.outcome.Healthy? {
      HealthyStep(t, h, o);
    } else if o.result.outcome.Unhealthy? {
      UnhealthyStep(t, h, o);
    } else {
      assert h + [] == h;
    }
    hide FiredBy, FailureRun, HealthyRun, StreakStart;
    if said != [] {
      StandsAfterOne(c.reason, FiredBy(t, h), said[0]);
    }
  }

  lemma RunCheckAgrees(c: Check, w: World, o: Observation)
    requires ValidTiming(c.timing) && Invariant(c, w) && w.outbox == []
    ensures Invariant(c, w.(seen := w.seen + [o], outbox := Sends(c.reason, Fatal, c.timing, Counted(w.seen), o)))
  {
    assert Conditions(w.queue) + w.outbox == Conditions(w.queue);
    CountedStep(w.seen, o);
    SendsMoveTheVerdict(c, Counted(w.seen), o);
    hide FiredBy, Sends, Counted, Unresolved, StandsAfter, Conditions;
    StandsAfterConcat(c.reason, Unresolved(w.log, c.kind, c.reason), Conditions(w.queue),
                      Sends(c.reason, Fatal, c.timing, Counted(w.seen), o));
  }

  /** Another emitter's condition, wherever it is pending, changes nothing for this reason. */
  lemma OtherEnqueueAgrees(c: Check, w: World, n: Notification)
    requires Invariant(c, w) && |w.queue| < CAPACITY && n.condition.reason != c.reason
    ensures Invariant(c, w.(queue := w.queue + [n]))
  {
    var stands := Unresolved(w.log, c.kind, c.reason);
    hide FiredBy, Counted, Unresolved, StandsAfter, Conditions;
    ConditionsStep(w.queue, n);
    StandsAfterConcat(c.reason, stands, Conditions(w.queue), w.outbox);
    StandsAfterConcat(c.reason, stands, Conditions(w.queue), [n.condition]);
    StandsAfterConcat(c.reason, stands, Conditions(w.queue) + [n.condition], w.outbox);
    StandsAfterOne(c.reason, StandsAfter(c.reason, stands, Conditions(w.queue)), n.condition);
  }

  lemma EnqueueAgrees(c: Check, w: World)
    requires Invariant(c, w) && w.outbox != [] && |w.queue| < CAPACITY
    ensures Invariant(c, w.(outbox := w.outbox[1..], queue := w.queue + [Notification(c.monitor, w.outbox[0])]))
  {
    ConditionsStep(w.queue, Notification(c.monitor, w.outbox[0]));
    hide FiredBy, Counted, StandsAfter, Conditions;
    assert Conditions(w.queue) + [w.outbox[0]] + w.outbox[1..] == Conditions(w.queue) + w.outbox;
  }

  lemma DequeueAgrees(c: Check, kinds: map<string, string>, w: World, now: int)
    requires c.monitor in kinds && kinds[c.monitor] == c.kind
    requires Invariant(c, w) && w.queue != []
    ensures Invariant(c, Handle(kinds, w.(queue := w.queue[1..]), w.queue[0], now))
  {
    var stands, w' := Unresolved(w.log, c.kind, c.reason), w.(queue := w.queue[1..]);
    assert IsOwn(c, w.queue[0]);
    HandleAgrees(c, kinds, w', w.queue[0], now);
    assert Pending(w) == [w.queue[0].condition] + Pending(w');
    hide FiredBy, Counted, Unresolved, Handle, StandsAfter, Conditions;
    StandsAfterConcat(c.reason, stands, [w.queue[0].condition], Pending(w'));
    assert forall i :: 0 <= i < |w'.queue| ==> w'.queue[i] == w.queue[i + 1];
    assert Agrees(c, Handle(kinds, w', w.queue[0], now));
  }

  /** Handling a condition moves the exporter by exactly what was pending. */
  lemma HandleAgrees(c: Check, kinds: map<string, string>, w: World, n: Notification, now: int)
    requires c.monitor in kinds && kinds[c.monitor] == c.kind
    requires n.condition.reason == c.reason ==> n.monitor == c.monitor && n.condition.minOccurrences == 0
    ensures
      var w' := Handle(kinds, w, n, now);
      && w'.seen == w.seen && w'.outbox == w.outbox && w'.queue == w.queue
      && Unresolved(w'.log, c.kind, c.reason) == StandsAfter(c.reason, Unresolved(w.log, c.kind, c.reason), [n.condition])
  {
    StandsAfterOne(c.reason, Unresolved(w.log, c.kind, c.reason), n.condition);
    if n.monitor in kinds {
      var ops := Routed(w.handled, kinds[n.monitor], n.condition, now);
      if ops != [] {
        ReasonStep(w.log, ops[0], c.kind, c.reason);
      } else {
        assert w.log + ops == w.log;
      }
    }
  }

  lemma StepKeepsInvariant(c: Check, kinds: map<string, string>, w: World, s: Step)
    requires ValidTiming(c.timing) && c.monitor in kinds && kinds[c.monitor] == c.kind
    requires Invariant(c, w) && Enabled(c, w, s)
    ensures Invariant(c, Next(c, kinds, w, s))
  {
    var stands := Unresolved(w.log, c.kind, c.reason);
    hide FiredBy, Counted, Sends, Routed, StandsAfter, Conditions;
    match s {
      case RunCheck(o) => RunCheckAgrees(c, w, o);
      case Enqueue => EnqueueAgrees(c, w);
      case OtherEnqueue(n) => OtherEnqueueAgrees(c, w, n);
      case Dequeue(now) => DequeueAgrees(c, kinds, w, now);
      case OtherPoll(n, now) =>
        HandleAgrees(c, kinds, w, n, now);
        StandsAfterOne(c.reason, stands, n.condition);
      case Heartbeat(now) => ReasonStep(w.log, HeartbeatOp(now), c.kind, c.reason);
    }
  }

  lemma {:induction false} RunKeepsInvariant(c: Check, kinds: map<string, string>, w: World, steps: seq<Step>)
    requires ValidTiming(c.timing) && c.monitor in kinds && kinds[c.monitor] == c.kind
    requires Invariant(c, w) && IsRun(c, kinds, w, steps)
    ensures Invariant(c, After(c, kinds, w, steps))
    decreases |steps|
  {
    if steps != [] {
      StepKeepsInvariant(c, kinds, w, steps[0]);
      RunKeepsInvariant(c, kinds, Next(c, kinds, w, steps[0]), steps[1..]);
    }
  }

  lemma InitiallyAgrees(c: Check)
    ensures Invariant(c, INITIAL)
  {
  }

  /** In every reachable state the runner has fired exactly when the reason will stand once the
      pending conditions are handled; with nothing of the check's pending, exactly when it stands. */
  lemma EndToEndAgreement(c: Check, kinds: map<string, string>, steps: seq<Step>)
    requires ValidTiming(c.timing) && c.monitor in kinds && kinds[c.monitor] == c.kind
    requires IsRun(c, kinds, INITIAL, steps)
    ensures
      var w := After(c, kinds, INITIAL, steps);
      && (FiredBy(c.timing, Counted(w.seen)) <==>
           StandsAfter(c.reason, Unresolved(w.log, c.kind, c.reason), Pending(w)))
      && ((forall x :: x in Pending(w) ==> x.reason != c.reason) ==>
           (FiredBy(c.timing, Counted(w.seen)) <==> Unresolved(w.log, c.kind, c.reason)))
  {
    InitiallyAgrees(c);
    RunKeepsInvariant(c, kinds, INITIAL, steps);
    var w := After(c, kinds, INITIAL, steps);
    if forall x :: x in Pending(w) ==> x.reason != c.reason {
      OthersPendingChangeNothing(c.reason, Unresolved(w.log, c.kind, c.reason), Pending(w));
    }
  }

  lemma {:induction false} OthersPendingChangeNothing(reason: string, stands: bool, pending: seq<Condition>)
    requires forall x :: x in pending ==> x.reason != reason
    ensures StandsAfter(reason, stands, pending) == stands
  {
    if pending != [] {
      OthersPendingChangeNothing(reason, stands, pending[..|pending| - 1]);
    }
  }

  /** The node itself: once the check's conditions are through and the exporter has written its
      conditions, the node's condition of the check's kind is False if the check has fired, and it
      is True only if the check has recovered. The reason is among the exporter's entries exactly
      while the check has fired. */
  lemma NodeShowsTheVerdict(c: Check, kinds: map<string, string>, steps: seq<Step>,
                            created: int, configs: map<string, ReadyState>, entries: map<string, seq<Entry>>,
                            managed: map<string, NodeCondition>, node: seq<NodeCondition>, written: seq<NodeCondition>)
    requires ValidTiming(c.timing) && c.monitor in kinds && kinds[c.monitor] == c.kind
    requires IsRun(c, kinds, INITIAL, steps)
    requires
      var w := After(c, kinds, INITIAL, steps);
      && (forall x :: x in Pending(w) ==> x.reason != c.reason)
      && AllMirror(w.log, created, configs, entries, managed)
    requires IsUpsert(node, managed, written)
    ensures
      var fired := FiredBy(c.timing, Counted(After(c, kinds, INITIAL, steps).seen));
      var shown := Lookup(written, c.kind);
      && (Names(EntriesOf(entries, c.kind), c.reason) <==> fired)
      && (fired ==> shown.Some? && shown.value.status == ConditionFalse)
      && (shown.Some? && shown.value.status == ConditionTrue ==> !fired)
  {
    EndToEndAgreement(c, kinds, steps);
    var w := After(c, kinds, INITIAL, steps);
    assert Mirrors(w.log, created, configs, c.kind, EntriesOf(entries, c.kind), managed);
    EntriesMeanUnresolved(w.log, c.kind, EntriesOf(entries, c.kind));
    UnresolvedWasReported(w.log, c.kind);
    ManagedKinds(w.log, created, configs, entries, managed);
    if c.kind in managed {
      UpsertShowsManaged(node, managed, written, c.kind);
    }
  }
}
