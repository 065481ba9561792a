/** The exporter that keeps a node's managed conditions: what each report, resolution and
    heartbeat does to them, and how they are written to the node. */
module NodeExporter {
  import opened Monitor
  import opened ExporterHistory

  datatype Status = ConditionTrue | ConditionFalse

  datatype NodeCondition = NodeCondition(
    kind: string, status: Status, reason: string, message: string, heartbeat: int, transition: int)

  /** How a healthy condition reads. */
  datatype ReadyState = ReadyState(reason: string, message: string)

  /** An event recorded against the node: what it is about, and whether it reads as a warning. */
  datatype Event = Event(warning: bool, kind: string, reason: string)

  const RESOLVED := ReadyState("Resolved", "The previously reported issues have been resolved")

  // ---------------------------------------------------------------------------
  // The aggregated message
  // ---------------------------------------------------------------------------

  /** The distinct non-empty messages of the entries, each at its first occurrence. */
  function Digest(es: seq<Entry>): seq<string> {
    if es == [] then []
    else
      var d, m := Digest(es[..|es| - 1]), es[|es| - 1].message;
      if m == "" || m in d then d else d + [m]
  }

  /** m is the message of some entry before n, and later appears nowhere before it. */
  predicate OccursFirst(es: seq<Entry>, m: string, later: string) {
    exists p :: 0 <= p < |es| && es[p].message == m && forall q :: 0 <= q <= p ==> es[q].message != later
  }

  lemma {:induction false} DigestIsDistinctAndOrdered(es: seq<Entry>)
    ensures forall m :: m in Digest(es) <==> m != "" && exists i :: 0 <= i < |es| && es[i].message == m
    ensures forall i, j :: 0 <= i < j < |Digest(es)| ==> OccursFirst(es, Digest(es)[i], Digest(es)[j])
  {
    if es != [] {
      var init, d, m := es[..|es| - 1], Digest(es[..|es| - 1]), es[|es| - 1].message;
      DigestIsDistinctAndOrdered(init);
      assert forall i :: 0 <= i < |init| ==> init[i] == es[i];
      forall i, j | 0 <= i < j < |Digest(es)|
        ensures OccursFirst(es, Digest(es)[i], Digest(es)[j])
      {
        if j < |d| {
          assert OccursFirst(init, d[i], d[j]);
          var p :| 0 <= p < |init| && init[p].message == d[i] && forall q :: 0 <= q <= p ==> init[q].message != d[j];
          assert es[p].message == d[i];
        } else {
          assert d[i] in d;
          var p :| 0 <= p < |init| && init[p].message == d[i];
          assert es[p].message == d[i];
        }
      }
      forall x
        ensures x in Digest(es) <==> x != "" && exists i :: 0 <= i < |es| && es[i].message == x
      {
        if x != "" && exists i :: 0 <= i < |es| && es[i].message == x {
          var i :| 0 <= i < |es| && es[i].message == x;
          if i < |init| {
            assert init[i].message == x;
          }
        }
        if x in d {
          var i :| 0 <= i < |init| && init[i].message == x;
          assert es[i].message == x;
        }
        assert x == m ==> es[|es| - 1].message == x;
      }
    }
  }

  function Join(parts: seq<string>, separator: string): string {
    if parts == [] then ""
    else if |parts| == 1 then parts[0]
    else Join(parts[..|parts| - 1], separator) + separator + parts[|parts| - 1]
  }

  /** Where part i stands in the joined text: after the parts before it and a separator each. */
  function PlaceOf(parts: seq<string>, separator: string, i: nat): nat
    requires i <= |parts|
  {
    if i == 0 then 0 else PlaceOf(parts, separator, i - 1) + |parts[i - 1]| + |separator|
  }

  predicate StandsAt(text: string, p: nat, part: string) {
    p + |part| <= |text| && text[p..p + |part|] == part
  }

  lemma {:induction false} PlacesBefore(parts: seq<string>, separator: string, i: nat)
    requires i < |parts|
    ensures PlaceOf(parts[..|parts| - 1], separator, i) == PlaceOf(parts, separator, i)
  {
    if i > 0 {
      PlacesBefore(parts, separator, i - 1);
    }
  }

  lemma StandsInLonger(text: string, p: nat, part: string, separator: string, last: string)
    requires StandsAt(text, p, part)
    ensures StandsAt(text + separator + last, p, part)
  {
    assert (text + separator + last)[p..p + |part|] == text[p..p + |part|];
  }

  lemma StandsAfter(text: string, separator: string, last: string)
    ensures StandsAt(text + separator + last, |text|, separator)
    ensures StandsAt(text + separator + last, |text| + |separator|, last)
  {
    assert (text + separator + last)[|text|..|text| + |separator|] == separator;
  }

  /** The joined text ends where the last part does. */
  lemma {:induction false} JoinLength(parts: seq<string>, separator: string)
    ensures if parts == [] then Join(parts, separator) == ""
            else |Join(parts, separator)| + |separator| == PlaceOf(parts, separator, |parts|)
  {
    if parts != [] {
      var n := |parts| - 1;
      PlacesBefore(parts, separator, n);
      JoinLength(parts[..n], separator);
    }
  }

  /** Each part stands in the joined text at its own place, with a separator right after it if another
      part follows. */
  lemma {:induction false} JoinHoldsItsParts(parts: seq<string>, separator: string, i: nat)
    requires i < |parts|
    ensures StandsAt(Join(parts, separator), PlaceOf(parts, separator, i), parts[i])
    ensures i + 1 < |parts| ==> StandsAt(Join(parts, separator), PlaceOf(parts, separator, i) + |parts[i]|, separator)
    decreases |parts|
  {
    var n := |parts| - 1;
    if n > 0 {
      var before, text := parts[..n], Join(parts[..n], separator);
      assert Join(parts, separator) == text + separator + parts[n];
      JoinLength(before, separator);
      PlacesBefore(parts, separator, n);
      StandsAfter(text, separator, parts[n]);
      if i < n {
        PlacesBefore(parts, separator, i);
        assert i + 1 == n ==> PlaceOf(parts, separator, i) + |parts[i]| == |text|;
        hide StandsAt, Join, PlaceOf;
        JoinHoldsItsParts(before, separator, i);
        StandsInLonger(text, PlaceOf(before, separator, i), parts[i], separator, parts[n]);
        if i + 1 < n {
          StandsInLonger(text, PlaceOf(before, separator, i) + |parts[i]|, separator, separator, parts[n]);
        }
      }
    }
  }

  // ---------------------------------------------------------------------------
  // What a managed condition shows
  // ---------------------------------------------------------------------------

  /** The reason was reported last among those that stand. */
  ghost predicate IsNewest(log: seq<Op>, kind: string, reason: string) {
    && Unresolved(log, kind, reason)
    && forall r :: Unresolved(log, kind, r) ==> LastReport(log, kind, r) <= LastReport(log, kind, reason)
  }

  ghost predicate Shows(log: seq<Op>, created: int, ready: ReadyState, kind: string, es: seq<Entry>, c: NodeCondition) {
    && c.kind == kind
    && c.transition == FlipTime(log, kind, created)
    && c.heartbeat == TouchTime(log, kind, created)
    && (HasUnresolved(log, kind) ==>
         c.status == ConditionFalse && IsNewest(log, kind, c.reason) && c.message == Join(Digest(es), "; "))
    && (!HasUnresolved(log, kind) ==>
         c.status == ConditionTrue && c.reason == ready.reason && c.message == ready.message)
  }

  /** Everything the exporter keeps about one kind agrees with the log. */
  ghost predicate Mirrors(log: seq<Op>, created: int, configs: map<string, ReadyState>, kind: string,
                          es: seq<Entry>, managed: map<string, NodeCondition>) {
    && Tracks(log, kind, es)
    && (kind in managed <==> kind in configs || EverReported(log, kind))
    && (kind in managed ==> Shows(log, created, Ready(configs, kind), kind, es, managed[kind]))
  }

  function Ready(configs: map<string, ReadyState>, kind: string): ReadyState {
    if kind in configs then configs[kind] else RESOLVED
  }

  function EntriesOf(entries: map<string, seq<Entry>>, kind: string): seq<Entry> {
    if kind in entries then entries[kind] else []
  }

  ghost predicate AllMirror(log: seq<Op>, created: int, configs: map<string, ReadyState>,
                            entries: map<string, seq<Entry>>, managed: map<string, NodeCondition>) {
    forall kind: string :: Mirrors(log, created, configs, kind, EntriesOf(entries, kind), managed)
  }

  lemma EntriesMeanUnresolved(log: seq<Op>, kind: string, es: seq<Entry>)
    requires Tracks(log, kind, es)
    ensures es != [] <==> HasUnresolved(log, kind)
    ensures forall r :: Unresolved(log, kind, r) <==> Names(es, r)
  {
    if es != [] {
      assert TracksEntry(log, kind, es[0]);
    }
    forall r | Names(es, r)
      ensures Unresolved(log, kind, r)
    {
      var i :| 0 <= i < |es| && es[i].reason == r;
      assert TracksEntry(log, kind, es[i]);
    }
  }

  /** The entry with the largest stamp names the most recently reported reason. */
  lemma NewestByStamp(log: seq<Op>, kind: string, es: seq<Entry>, n: Entry)
    requires Tracks(log, kind, es) && n in es
    requires forall i :: 0 <= i < |es| ==> es[i].reported <= n.reported
    ensures IsNewest(log, kind, n.reason)
  {
    var k :| 0 <= k < |es| && es[k] == n;
    assert TracksEntry(log, kind, es[k]);
    hide Unresolved, LastReport;
    forall r | Unresolved(log, kind, r)
      ensures LastReport(log, kind, r) <= LastReport(log, kind, n.reason)
    {
      assert Names(es, r);
      var i :| 0 <= i < |es| && es[i].reason == r;
      StampOrder(log, kind, es[i], n);
    }
  }

  lemma StampOrder(log: seq<Op>, kind: string, e: Entry, n: Entry)
    requires TracksEntry(log, kind, e) && TracksEntry(log, kind, n) && e.reported <= n.reported
    ensures LastReport(log, kind, e.reason) <= LastReport(log, kind, n.reason)
  {
    var a, b := LastReport(log, kind, n.reason), LastReport(log, kind, e.reason);
    if a < b {
      StampsFollowReports(log, a, b);
    }
  }

  /** Every standing reason's latest message, unless it is empty, stands in the condition the node is
      shown. */
  lemma StandingMessagesAreShown(log: seq<Op>, created: int, configs: map<string, ReadyState>,
                                 entries: map<string, seq<Entry>>, managed: map<string, NodeCondition>, kind: string, reason: string)
    returns (p: nat)
    requires AllMirror(log, created, configs, entries, managed)
    requires Unresolved(log, kind, reason) && log[LastReport(log, kind, reason)].message != ""
    ensures kind in managed && StandsAt(managed[kind].message, p, log[LastReport(log, kind, reason)].message)
  {
    var es := EntriesOf(entries, kind);
    assert Mirrors(log, created, configs, kind, es, managed);
    assert Names(es, reason);
    var k :| 0 <= k < |es| && es[k].reason == reason;
    assert TracksEntry(log, kind, es[k]);
    UnresolvedWasReported(log, kind);
    var message := log[LastReport(log, kind, reason)].message;
    hide Unresolved, LastReport, Join, Digest, StandsAt, PlaceOf;
    DigestIsDistinctAndOrdered(es);
    assert message in Digest(es);
    var i: nat :| i < |Digest(es)| && Digest(es)[i] == message;
    JoinHoldsItsParts(Digest(es), "; ", i);
    p := PlaceOf(Digest(es), "; ", i);
  }

  /** A condition without a standing reason is True with the text configured for its type, or the default
      text for a type nothing is configured for. */
  lemma HealthyConditionReads(log: seq<Op>, created: int, configs: map<string, ReadyState>,
                              entries: map<string, seq<Entry>>, managed: map<string, NodeCondition>, kind: string)
    requires AllMirror(log, created, configs, entries, managed)
    ensures !HasUnresolved(log, kind) && (kind in configs || EverReported(log, kind)) ==>
              && kind in managed && managed[kind].status == ConditionTrue
              && ReadyState(managed[kind].reason, managed[kind].message) ==
                 if kind in configs then configs[kind]
                 else ReadyState("Resolved", "The previously reported issues have been resolved")
  {
    assert Mirrors(log, created, configs, kind, EntriesOf(entries, kind), managed);
  }

  lemma EverReportedStep(log: seq<Op>, op: Op, kind: string)
    ensures EverReported(log + [op], kind) <==> EverReported(log, kind) || (op.FatalOp? && op.kind == kind)
  {
    var after := log + [op];
    if EverReported(log, kind) {
      var i :| 0 <= i < |log| && log[i].FatalOp? && log[i].kind == kind;
      assert after[i] == log[i];
    }
    assert after[|log|] == op;
  }

  lemma TimesStep(log: seq<Op>, op: Op, kind: string, created: int)
    ensures FlipTime(log + [op], kind, created) ==
      if HasUnresolved(log + [op], kind) != HasUnresolved(log, kind) then op.at else FlipTime(log, kind, created)
    ensures TouchTime(log + [op], kind, created) ==
      if op.HeartbeatOp? || (op.FatalOp? && op.kind == kind) ||
         (op.ResolveOp? && op.kind == kind && Unresolved(log, kind, op.reason))
      then op.at else TouchTime(log, kind, created)
  {
    PrefixOfExtension(log, op);
  }

  /** A report or resolution of one kind leaves every other kind as it was. */
  lemma OtherKindKept(log: seq<Op>, op: Op, created: int, configs: map<string, ReadyState>, kind: string,
                      es: seq<Entry>, managed: map<string, NodeCondition>, managed': map<string, NodeCondition>)
    requires Mirrors(log, created, configs, kind, es, managed)
    requires !op.HeartbeatOp?
    requires op.kind != kind || (op.ResolveOp? && !Names(es, op.reason))
    requires kind in managed <==> kind in managed'
    requires kind in managed ==> managed'[kind] == managed[kind]
    ensures Mirrors(log + [op], created, configs, kind, es, managed')
  {
    UnaffectedKind(log, op, kind, es);
    EverReportedStep(log, op, kind);
    TimesStep(log, op, kind, created);
    EntriesMeanUnresolved(log, kind, es);
    EntriesMeanUnresolved(log + [op], kind, es);
    if HasUnresolved(log, kind) && kind in managed {
      NewestKept(log, op, kind, managed[kind].reason);
    }
  }

  lemma NewestKept(log: seq<Op>, op: Op, kind: string, reason: string)
    requires IsNewest(log, kind, reason)
    requires op.FatalOp? ==> op.kind != kind
    requires op.ResolveOp? ==> op.kind != kind || !Unresolved(log, kind, op.reason)
    ensures IsNewest(log + [op], kind, reason)
  {
    ReasonStep(log, op, kind, reason);
    forall r
      ensures Unresolved(log + [op], kind, r) ==>
        Unresolved(log, kind, r) && LastReport(log + [op], kind, r) == LastReport(log, kind, r)
    {
      ReasonStep(log, op, kind, r);
    }
  }

  /** A heartbeat moves a kind's heartbeat time and nothing else. */
  lemma HeartbeatKept(log: seq<Op>, op: Op, created: int, configs: map<string, ReadyState>, kind: string,
                      es: seq<Entry>, managed: map<string, NodeCondition>, managed': map<string, NodeCondition>)
    requires Mirrors(log, created, configs, kind, es, managed)
    requires op.HeartbeatOp?
    requires kind in managed <==> kind in managed'
    requires kind in managed ==> managed'[kind] == managed[kind].(heartbeat := op.at)
    ensures Mirrors(log + [op], created, configs, kind, es, managed')
  {
    UnaffectedKind(log, op, kind, es);
    EverReportedStep(log, op, kind);
    TimesStep(log, op, kind, created);
    if HasUnresolved(log, kind) && kind in managed {
      NewestKept(log, op, kind, managed[kind].reason);
    }
  }

  /** The condition rebuilt from the entries that remain shows the log that left them. */
  lemma RebuiltShows(log: seq<Op>, op: Op, created: int, configs: map<string, ReadyState>, kind: string,
                     es: seq<Entry>, managed: map<string, NodeCondition>, es': seq<Entry>, n: Entry, c: NodeCondition)
    requires Mirrors(log, created, configs, kind, es, managed)
    requires op.FatalOp? || (op.ResolveOp? && Unresolved(log, kind, op.reason))
    requires op.kind == kind && Tracks(log + [op], kind, es')
    requires n in es' && forall i :: 0 <= i < |es'| ==> es'[i].reported <= n.reported
    requires c == NodeCondition(kind, ConditionFalse, n.reason, Join(Digest(es'), "; "), op.at,
                    if kind in managed && managed[kind].status == ConditionFalse then managed[kind].transition else op.at)
    ensures Mirrors(log + [op], created, configs, kind, es', managed[kind := c])
  {
    EntriesMeanUnresolved(log, kind, es);
    EntriesMeanUnresolved(log + [op], kind, es');
    EverReportedStep(log, op, kind);
    TimesStep(log, op, kind, created);
    NewestByStamp(log + [op], kind, es', n);
    UnresolvedWasReported(log, kind);
  }

  /** Rewriting one kind for an operation on it keeps every kind right. */
  lemma KindRewritten(log: seq<Op>, op: Op, created: int, configs: map<string, ReadyState>,
                      entries: map<string, seq<Entry>>, managed: map<string, NodeCondition>, es: seq<Entry>, c: NodeCondition)
    requires AllMirror(log, created, configs, entries, managed)
    requires !op.HeartbeatOp? && Mirrors(log + [op], created, configs, op.kind, es, managed[op.kind := c])
    ensures AllMirror(log + [op], created, configs, entries[op.kind := es], managed[op.kind := c])
  {
    var entries', managed' := entries[op.kind := es], managed[op.kind := c];
    forall kind: string
      ensures Mirrors(log + [op], created, configs, kind, EntriesOf(entries', kind), managed')
    {
      if kind != op.kind {
        assert Mirrors(log, created, configs, kind, EntriesOf(entries, kind), managed);
        OtherKindKept(log, op, created, configs, kind, EntriesOf(entries, kind), managed, managed');
      }
    }
  }

  /** How a report changes a kind's entries: in place when the reason stands, else at the end. */
  ghost predicate IsReported(was: seq<Entry>, e: Entry, es: seq<Entry>) {
    if Names(was, e.reason) then exists i :: 0 <= i < |was| && was[i].reason == e.reason && es == was[i := e]
    else es == was + [e]
  }

  ghost predicate IsRemoved(was: seq<Entry>, reason: string, es: seq<Entry>) {
    exists i :: 0 <= i < |was| && was[i].reason == reason && es == was[..i] + was[i + 1..]
  }

  lemma ReportRecorded(log: seq<Op>, op: Op, created: int, configs: map<string, ReadyState>,
                       entries: map<string, seq<Entry>>, managed: map<string, NodeCondition>,
                       es: seq<Entry>, n: Entry, c: NodeCondition)
    requires AllMirror(log, created, configs, entries, managed) && op.FatalOp?
    requires IsReported(EntriesOf(entries, op.kind), Entry(op.reason, op.message, Reports(log) + 1), es)
    requires n in es && forall i :: 0 <= i < |es| ==> es[i].reported <= n.reported
    requires c == NodeCondition(op.kind, ConditionFalse, n.reason, Join(Digest(es), "; "), op.at,
                    if op.kind in managed && managed[op.kind].status == ConditionFalse then managed[op.kind].transition else op.at)
    ensures AllMirror(log + [op], created, configs, entries[op.kind := es], managed[op.kind := c])
    ensures Reports(log + [op]) == Reports(log) + 1
  {
    var was := EntriesOf(entries, op.kind);
    assert Mirrors(log, created, configs, op.kind, was, managed);
    if Names(was, op.reason) {
      var i :| 0 <= i < |was| && was[i].reason == op.reason && es == was[i := Entry(op.reason, op.message, Reports(log) + 1)];
      ReportUpdates(log, op, was, i);
    } else {
      ReportAppends(log, op, was);
    }
    ReportsStep(log, op);
    RebuiltShows(log, op, created, configs, op.kind, was, managed, es, n, c);
    KindRewritten(log, op, created, configs, entries, managed, es, c);
  }

  lemma ResolveRecorded(log: seq<Op>, op: Op, created: int, configs: map<string, ReadyState>,
                        entries: map<string, seq<Entry>>, managed: map<string, NodeCondition>,
                        es: seq<Entry>, n: Entry, c: NodeCondition)
    requires AllMirror(log, created, configs, entries, managed) && op.ResolveOp?
    requires IsRemoved(EntriesOf(entries, op.kind), op.reason, es)
    requires es != [] ==> n in es && forall i :: 0 <= i < |es| ==> es[i].reported <= n.reported
    requires es != [] ==> c == NodeCondition(op.kind, ConditionFalse, n.reason, Join(Digest(es), "; "), op.at,
                    if op.kind in managed && managed[op.kind].status == ConditionFalse then managed[op.kind].transition else op.at)
    requires es == [] ==> c == NodeCondition(op.kind, ConditionTrue, Ready(configs, op.kind).reason, Ready(configs, op.kind).message, op.at,
                    if op.kind in managed && managed[op.kind].status == ConditionTrue then managed[op.kind].transition else op.at)
    ensures AllMirror(log + [op], created, configs, entries[op.kind := es], managed[op.kind := c])
    ensures Reports(log + [op]) == Reports(log)
    ensures es == [] <==> !HasUnresolved(log + [op], op.kind)
    ensures Unresolved(log, op.kind, op.reason)
  {
    var was := EntriesOf(entries, op.kind);
    assert Mirrors(log, created, configs, op.kind, was, managed);
    EntriesMeanUnresolved(log, op.kind, was);
    var i :| 0 <= i < |was| && was[i].reason == op.reason && es == was[..i] + was[i + 1..];
    ResolveRemoves(log, op, was, i);
    EntriesMeanUnresolved(log + [op], op.kind, es);
    ReportsStep(log, op);
    if es != [] {
      RebuiltShows(log, op, created, configs, op.kind, was, managed, es, n, c);
    } else {
      RestoredShows(log, op, created, configs, op.kind, was, managed, c);
    }
    KindRewritten(log, op, created, configs, entries, managed, es, c);
  }

  /** Resolving a reason that does not stand changes nothing the exporter keeps. */
  lemma IdleResolve(log: seq<Op>, op: Op, created: int, configs: map<string, ReadyState>,
                    entries: map<string, seq<Entry>>, managed: map<string, NodeCondition>)
    requires AllMirror(log, created, configs, entries, managed)
    requires op.ResolveOp? && !Names(EntriesOf(entries, op.kind), op.reason)
    ensures AllMirror(log + [op], created, configs, entries, managed)
    ensures Reports(log + [op]) == Reports(log)
    ensures EntriesOf(entries, op.kind) == [] <==> !HasUnresolved(log + [op], op.kind)
    ensures !Unresolved(log, op.kind, op.reason)
  {
    var was := EntriesOf(entries, op.kind);
    assert Mirrors(log, created, configs, op.kind, was, managed);
    EntriesMeanUnresolved(log, op.kind, was);
    UnaffectedKind(log, op, op.kind, was);
    ReportsStep(log, op);
    forall kind: string
      ensures Mirrors(log + [op], created, configs, kind, EntriesOf(entries, kind), managed)
    {
      assert Mirrors(log, created, configs, kind, EntriesOf(entries, kind), managed);
      OtherKindKept(log, op, created, configs, kind, EntriesOf(entries, kind), managed, managed);
    }
  }

  lemma AllBeat(log: seq<Op>, op: Op, created: int, configs: map<string, ReadyState>,
                entries: map<string, seq<Entry>>, managed: map<string, NodeCondition>, managed': map<string, NodeCondition>)
    requires AllMirror(log, created, configs, entries, managed)
    requires op.HeartbeatOp? && managed'.Keys == managed.Keys
    requires forall k :: k in managed ==> managed'[k] == managed[k].(heartbeat := op.at)
    ensures AllMirror(log + [op], created, configs, entries, managed')
  {
    forall kind: string
      ensures Mirrors(log + [op], created, configs, kind, EntriesOf(entries, kind), managed')
    {
      assert Mirrors(log, created, configs, kind, EntriesOf(entries, kind), managed);
      HeartbeatKept(log, op, created, configs, kind, EntriesOf(entries, kind), managed, managed');
    }
  }

  lemma ManagedKinds(log: seq<Op>, created: int, configs: map<string, ReadyState>,
                     entries: map<string, seq<Entry>>, managed: map<string, NodeCondition>)
    requires AllMirror(log, created, configs, entries, managed)
    ensures forall k :: k in managed ==> managed[k].kind == k
  {
    forall k | k in managed
      ensures managed[k].kind == k
    {
      assert Mirrors(log, created, configs, k, EntriesOf(entries, k), managed);
    }
  }

  lemma UnresolvedWasReported(log: seq<Op>, kind: string)
    ensures HasUnresolved(log, kind) ==> EverReported(log, kind)
  {
    if HasUnresolved(log, kind) {
      var r :| Unresolved(log, kind, r);
      var i := LastReport(log, kind, r);
      assert log[i].FatalOp? && log[i].kind == kind;
    }
  }

  // ---------------------------------------------------------------------------
  // Writing the managed conditions to the node
  // ---------------------------------------------------------------------------

  predicate IsFirstOfKind(node: seq<NodeCondition>, i: int)
    requires 0 <= i < |node|
  {
    forall j :: 0 <= j < i ==> node[j].kind != node[i].kind
  }

  predicate HasKind(node: seq<NodeCondition>, kind: string) {
    exists i :: 0 <= i < |node| && node[i].kind == kind
  }

  /** result is node with the first entry of each managed kind replaced, every other entry left
      where and as it was, and each managed kind node lacks appended once. */
  ghost predicate IsUpsert(node: seq<NodeCondition>, managed: map<string, NodeCondition>, result: seq<NodeCondition>) {
    && |node| <= |result|
    && (forall i :: 0 <= i < |node| ==>
         result[i] == if node[i].kind in managed && IsFirstOfKind(node, i) then managed[node[i].kind] else node[i])
    && (forall i :: |node| <= i < |result| ==>
         result[i].kind in managed && result[i] == managed[result[i].kind] && !HasKind(node, result[i].kind))
    && (forall i, j :: |node| <= i < j < |result| ==> result[i].kind != result[j].kind)
    && (forall kind :: kind in managed && !HasKind(node, kind) ==> HasKind(result[|node|..], kind))
  }

  /** What a reader that takes the first entry of a kind sees. */
  function Lookup(node: seq<NodeCondition>, kind: string): Option<NodeCondition> {
    if node == [] then None
    else if node[0].kind == kind then Some(node[0])
    else Lookup(node[1..], kind)
  }

  lemma {:induction false} LookupFindsFirst(node: seq<NodeCondition>, i: nat)
    requires i < |node| && forall j :: 0 <= j < i ==> node[j].kind != node[i].kind
    ensures Lookup(node, node[i].kind) == Some(node[i])
  {
    if i > 0 {
      assert forall j :: 0 <= j < i - 1 ==> node[1..][j] == node[j + 1];
      LookupFindsFirst(node[1..], i - 1);
    }
  }

  /** After an upsert, every managed kind reads as the exporter keeps it. */
  lemma UpsertShowsManaged(node: seq<NodeCondition>, managed: map<string, NodeCondition>, result: seq<NodeCondition>, kind: string)
    requires IsUpsert(node, managed, result) && kind in managed
    requires forall k :: k in managed ==> managed[k].kind == k
    ensures Lookup(result, kind) == Some(managed[kind])
  {
    if HasKind(node, kind) {
      var i := FirstOfKind(node, kind);
      assert forall j :: 0 <= j < i ==> result[j].kind == node[j].kind;
      LookupFindsFirst(result, i);
    } else {
      var t :| 0 <= t < |result[|node|..]| && result[|node|..][t].kind == kind;
      var i := |node| + t;
      assert result[i].kind == kind;
      forall j | 0 <= j < i
        ensures result[j].kind != kind
      {
        if j < |node| {
          assert result[j].kind == node[j].kind;
        }
      }
      LookupFindsFirst(result, i);
    }
  }

  lemma FirstOfKind(node: seq<NodeCondition>, kind: string) returns (i: nat)
    requires HasKind(node, kind)
    ensures i < |node| && node[i].kind == kind && IsFirstOfKind(node, i)
  {
    var k :| 0 <= k < |node| && node[k].kind == kind;
    i := 0;
    while node[i].kind != kind
      invariant i <= k && forall j :: 0 <= j < i ==> node[j].kind != kind
      decreases k - i
    {
      i := i + 1;
    }
  }

  lemma {:induction false} DistinctOnce<T>(s: seq<T>, x: T)
    requires forall i, j :: 0 <= i < j < |s| ==> s[i] != s[j]
    ensures multiset(s)[x] == if x in s then 1 else 0
  {
    if s != [] {
      DistinctOnce(s[..|s| - 1], x);
      assert s == s[..|s| - 1] + [s[|s| - 1]];
    }
  }

  /** Whatever order the managed conditions are visited in, only the order of the appended tail
      can differ. */
  lemma UpsertIgnoresVisitOrder(node: seq<NodeCondition>, managed: map<string, NodeCondition>,
                                a: seq<NodeCondition>, b: seq<NodeCondition>)
    requires IsUpsert(node, managed, a) && IsUpsert(node, managed, b)
    ensures a[..|node|] == b[..|node|]
    ensures multiset(a[|node|..]) == multiset(b[|node|..])
  {
    forall x
      ensures multiset(a[|node|..])[x] == multiset(b[|node|..])[x]
    {
      DistinctOnce(a[|node|..], x);
      DistinctOnce(b[|node|..], x);
      if x in a[|node|..] {
        TailIncluded(node, managed, a, b, x);
      }
      if x in b[|node|..] {
        TailIncluded(node, managed, b, a, x);
      }
    }
  }

  lemma TailIncluded(node: seq<NodeCondition>, managed: map<string, NodeCondition>,
                     a: seq<NodeCondition>, b: seq<NodeCondition>, x: NodeCondition)
    requires IsUpsert(node, managed, a) && IsUpsert(node, managed, b) && x in a[|node|..]
    ensures x in b[|node|..]
  {
    var i :| 0 <= i < |a[|node|..]| && a[|node|..][i] == x;
    assert a[|node| + i] == x;
    var j :| 0 <= j < |b[|node|..]| && b[|node|..][j].kind == x.kind;
    assert b[|node| + j].kind == x.kind;
    assert b[|node|..][j] == x;
  }

  // ---------------------------------------------------------------------------
  // The exporter itself
  // ---------------------------------------------------------------------------

  class Exporter {
    const conditionConfigs: map<string, ReadyState>
    var managedConditions: map<string, NodeCondition>
    var managedConditionsDirty: bool
    var fatalEntries: map<string, seq<Entry>>
    var reportSeq: nat
    var events: seq<Event>
    ghost const created: int
    ghost var log: seq<Op>
    ghost var lastPatched: Option<map<string, NodeCondition>>

    function Entries(kind: string): seq<Entry>
      reads this
    {
      EntriesOf(fatalEntries, kind)
    }

    /** Every field is what the log of operations says it is, and a clean exporter has
        already written what it holds. */
    ghost predicate Valid()
      reads this
    {
      && reportSeq == Reports(log)
      && AllMirror(log, created, conditionConfigs, fatalEntries, managedConditions)
      && (!managedConditionsDirty ==> lastPatched == Some(managedConditions))
    }

    constructor (configs: map<string, ReadyState>, now: int)
      ensures Valid() && log == [] && created == now && conditionConfigs == configs
      ensures managedConditionsDirty && events == []
    {
      conditionConfigs, created := configs, now;
      managedConditions := map k | k in configs ::
        NodeCondition(k, ConditionTrue, configs[k].reason, configs[k].message, now, now);
      managedConditionsDirty := true;
      fatalEntries, reportSeq, events := map[], 0, [];
      log, lastPatched := [], None;
    }

    /** Records an informational event. */
    method Info(reason: string, kind: string)
      modifies this`events
      ensures events == old(events) + [Event(false, kind, reason)]
    {
      events := events + [Event(false, kind, reason)];
    }

    method Warning(reason: string, kind: string)
      modifies this`events
      ensures events == old(events) + [Event(true, kind, reason)]
    {
      events := events + [Event(true, kind, reason)];
    }

    /** Records a fatal report. */
    method Fatal(reason: string, message: string, kind: string, now: int)
      requires Valid()
      modifies this
      ensures Valid() && log == old(log) + [FatalOp(kind, reason, message, now)]
      ensures managedConditionsDirty && lastPatched == old(lastPatched) && events == old(events)
    {
      hide AllMirror, Reports, Digest, Join;
      ghost var before, op, listed, managed := log, FatalOp(kind, reason, message, now), fatalEntries, managedConditions;
      reportSeq := reportSeq + 1;
      var entries := if kind in fatalEntries then fatalEntries[kind] else [];
      ghost var was := entries;
      var updated := false;
      var i := 0;
      while i < |entries| && !updated
        invariant 0 <= i <= |was| == |entries|
        invariant forall j :: 0 <= j < i ==> was[j].reason != reason
        invariant if updated then i < |was| && was[i].reason == reason && entries == was[i := Entry(reason, message, reportSeq)]
                  else entries == was
        decreases |entries| - i, !updated
      {
        if entries[i].reason == reason {
          entries := entries[i := Entry(reason, message, reportSeq)];
          updated := true;
        } else {
          i := i + 1;
        }
      }
      if !updated {
        entries := entries + [Entry(reason, message, reportSeq)];
      }
      assert IsReported(was, Entry(reason, message, reportSeq), entries);
      fatalEntries := fatalEntries[kind := entries];

      ghost var newest := RebuildFatalCondition(kind, now);
      log := before + [op];
      ReportRecorded(before, op, created, conditionConfigs, listed, managed, entries, newest, managedConditions[kind]);
    }

    /** Clears a reason. healthy says whether no reason of the kind remains. */
    method Resolve(reason: string, kind: string, now: int) returns (healthy: bool)
      requires Valid()
      modifies this
      ensures Valid() && log == old(log) + [ResolveOp(kind, reason, now)]
      ensures healthy <==> !HasUnresolved(log, kind)
      ensures lastPatched == old(lastPatched)
      ensures events == old(events) + if old(Unresolved(log, kind, reason)) then [Event(false, kind, reason)] else []
      ensures !old(Unresolved(log, kind, reason)) ==>
                managedConditions == old(managedConditions) && managedConditionsDirty == old(managedConditionsDirty)
    {
      hide AllMirror, Reports, Unresolved, HasUnresolved, Digest, Join;
      ghost var before, op, listed, managed := log, ResolveOp(kind, reason, now), fatalEntries, managedConditions;
      var entries := if kind in fatalEntries then fatalEntries[kind] else [];
      ghost var was := entries;
      var removed := false;
      var i := 0;
      while i < |entries| && !removed
        invariant 0 <= i <= |was|
        invariant forall j :: 0 <= j < i ==> was[j].reason != reason
        invariant if removed then i < |was| && was[i].reason == reason && entries == was[..i] + was[i + 1..]
                  else entries == was
        decreases |was| - i, !removed
      {
        if entries[i].reason == reason {
          entries := entries[..i] + entries[i + 1..];
          removed := true;
        } else {
          i := i + 1;
        }
      }
      log := before + [op];
      if !removed {
        IdleResolve(before, op, created, conditionConfigs, listed, managed);
        return |entries| == 0;
      }
      assert IsRemoved(was, reason, entries);
      fatalEntries := fatalEntries[kind := entries];
      events := events + [Event(false, kind, reason)];

      ghost var newest := Entry("", "", 0);
      if |entries| > 0 {
        newest := RebuildFatalCondition(kind, now);
        healthy := false;
      } else {
        RestoreReadyCondition(kind, now);
        healthy := true;
      }
      ResolveRecorded(before, op, created, conditionConfigs, listed, managed, entries, newest, managedConditions[kind]);
    }

    /** Restores the healthy condition, once no reason of the kind remains. */
    method RestoreReadyCondition(kind: string, now: int)
      modifies this`managedConditions, this`managedConditionsDirty
      ensures managedConditionsDirty
      ensures managedConditions == old(managedConditions)[kind :=
                NodeCondition(kind, ConditionTrue, Ready(conditionConfigs, kind).reason, Ready(conditionConfigs, kind).message, now,
                  if kind in old(managedConditions) && old(managedConditions)[kind].status == ConditionTrue
                  then old(managedConditions)[kind].transition else now)]
    {
      var transition := now;
      if kind in managedConditions && managedConditions[kind].status == ConditionTrue {
        transition := managedConditions[kind].transition;
      }
      var ready := if kind in conditionConfigs then conditionConfigs[kind] else RESOLVED;
      managedConditions := managedConditions[kind :=
        NodeCondition(kind, ConditionTrue, ready.reason, ready.message, now, transition)];
      managedConditionsDirty := true;
    }

    /** Recomputes a kind's condition from its entries: the reason of the entry with the largest
        stamp, and the distinct messages in order. */
    method RebuildFatalCondition(kind: string, now: int) returns (ghost newest: Entry)
      requires Entries(kind) != []
      modifies this`managedConditions, this`managedConditionsDirty
      ensures managedConditionsDirty
      ensures newest in Entries(kind) && forall i :: 0 <= i < |Entries(kind)| ==> Entries(kind)[i].reported <= newest.reported
      ensures managedConditions == old(managedConditions)[kind :=
                NodeCondition(kind, ConditionFalse, newest.reason, Join(Digest(Entries(kind)), "; "), now,
                  if kind in old(managedConditions) && old(managedConditions)[kind].status == ConditionFalse
                  then old(managedConditions)[kind].transition else now)]
    {
      var entries := fatalEntries[kind];
      var latest := entries[0];
      for i := 1 to |entries|
        invariant latest in entries
        invariant forall j :: 0 <= j < i ==> entries[j].reported <= latest.reported
      {
        if entries[i].reported > latest.reported {
          latest := entries[i];
        }
      }
      newest := latest;

      var messages := [];
      for i := 0 to |entries|
        invariant messages == Digest(entries[..i])
      {
        var duplicate := false;
        for j := 0 to |messages|
          invariant duplicate <==> entries[i].message in messages[..j]
        {
          if messages[j] == entries[i].message {
            duplicate := true;
          }
        }
        assert messages[..|messages|] == messages;
        assert entries[..i + 1][..i] == entries[..i];
        if !duplicate && entries[i].message != "" {
          messages := messages + [entries[i].message];
        }
      }
      assert entries[..|entries|] == entries;

      var transition := now;
      if kind in managedConditions && managedConditions[kind].status == ConditionFalse {
        transition := managedConditions[kind].transition;
      }
      managedConditions := managedConditions[kind :=
        NodeCondition(kind, ConditionFalse, latest.reason, Join(messages, "; "), now, transition)];
      managedConditionsDirty := true;
    }

    /** Moves every managed condition's heartbeat to now, and schedules a report. */
    method UpdateHeartbeatTimes(now: int)
      requires Valid()
      modifies this
      ensures Valid() && log == old(log) + [HeartbeatOp(now)]
      ensures managedConditionsDirty && lastPatched == old(lastPatched)
      ensures fatalEntries == old(fatalEntries) && events == old(events)
    {
      ghost var before, managed := log, managedConditions;
      var left := managedConditions.Keys;
      while left != {}
        invariant managedConditions.Keys == managed.Keys && left <= managed.Keys
        invariant forall k :: k in managed ==>
                    managedConditions[k] == if k in left then managed[k] else managed[k].(heartbeat := now)
        modifies this`managedConditions
        decreases left
      {
        var k :| k in left;
        managedConditions := managedConditions[k := managedConditions[k].(heartbeat := now)];
        left := left - {k};
      }
      managedConditionsDirty := true;
      log := before + [HeartbeatOp(now)];
      ReportsStep(before, HeartbeatOp(now));
      AllBeat(before, HeartbeatOp(now), created, conditionConfigs, fatalEntries, managed, managedConditions);
    }

    /** Writes the managed conditions to the node when they changed since the last successful
        write. node is what reading it returned, patched what was written. */
    method ReportManagedConditions(node: Option<seq<NodeCondition>>, patchOk: bool)
      returns (ok: bool, patched: Option<seq<NodeCondition>>)
      requires Valid()
      modifies this`managedConditionsDirty, this`lastPatched
      ensures Valid()
      ensures ok <==> !old(managedConditionsDirty) || (node.Some? && patchOk)
      ensures patched.Some? <==> old(managedConditionsDirty) && node.Some? && patchOk
      ensures patched.Some? ==> IsUpsert(node.value, managedConditions, patched.value)
      ensures if patched.Some? then !managedConditionsDirty && lastPatched == Some(managedConditions)
              else managedConditionsDirty == old(managedConditionsDirty) && lastPatched == old(lastPatched)
    {
      hide IsUpsert, AllMirror;
      if !managedConditionsDirty {
        return true, None;
      }
      if node.None? {
        return false, None;
      }
      var conditions := node.value;
      var result := conditions;
      var left := managedConditions.Keys;
      ManagedKinds(log, created, conditionConfigs, fatalEntries, managedConditions);
      UpsertNone(conditions);
      assert managedConditions - left == map[];
      while left != {}
        invariant left <= managedConditions.Keys && unchanged(this)
        invariant |conditions| <= |result| && IsUpsert(conditions, managedConditions - left, result)
        decreases left
      {
        var kind :| kind in left;
        var found := false;
        var i := 0;
        while i < |conditions| && !found
          invariant 0 <= i <= |conditions|
          invariant forall j :: 0 <= j < i ==> conditions[j].kind != kind
          invariant found ==> i < |conditions| && conditions[i].kind == kind
          decreases |conditions| - i, !found
        {
          if conditions[i].kind == managedConditions[kind].kind {
            found := true;
          } else {
            i := i + 1;
          }
        }
        ghost var done := managedConditions - left;
        if found {
          UpsertReplaces(conditions, done, result, managedConditions[kind], i);
          result := result[i := managedConditions[kind]];
        } else {
          UpsertAppends(conditions, done, result, managedConditions[kind]);
          result := result + [managedConditions[kind]];
        }
        assert managedConditions - (left - {kind}) == done[kind := managedConditions[kind]];
        left := left - {kind};
      }
      assert managedConditions - {} == managedConditions;
      if !patchOk {
        return false, None;
      }
      managedConditionsDirty := false;
      lastPatched := Some(managedConditions);
      return true, Some(result);
    }
  }

  lemma UpsertNone(node: seq<NodeCondition>)
    ensures IsUpsert(node, map[], node)
  {
  }

  lemma UpsertReplaces(node: seq<NodeCondition>, done: map<string, NodeCondition>, result: seq<NodeCondition>,
                       c: NodeCondition, i: nat)
    requires IsUpsert(node, done, result) && c.kind !in done
    requires i < |node| && node[i].kind == c.kind && IsFirstOfKind(node, i)
    ensures IsUpsert(node, done[c.kind := c], result[i := c])
  {
    var result' := result[i := c];
    assert HasKind(node, c.kind);
    assert result'[|node|..] == result[|node|..];
    forall j | 0 <= j < |node| && j != i && node[j].kind == c.kind
      ensures !IsFirstOfKind(node, j)
    {
      assert i < j;
    }
  }

  lemma UpsertAppends(node: seq<NodeCondition>, done: map<string, NodeCondition>, result: seq<NodeCondition>, c: NodeCondition)
    requires IsUpsert(node, done, result) && c.kind !in done
    requires forall j :: 0 <= j < |node| ==> node[j].kind != c.kind
    ensures IsUpsert(node, done[c.kind := c], result + [c])
  {
    var result' := result + [c];
    assert result'[|node|..] == result[|node|..] + [c];
    assert !HasKind(node, c.kind);
    assert forall i :: 0 <= i < |result| ==> result'[i] == result[i];
    assert forall i :: |node| <= i < |result| ==> result[i].kind in done;
    forall kind | kind in done[c.kind := c] && !HasKind(node, kind)
      ensures HasKind(result'[|node|..], kind)
    {
      if kind == c.kind {
        assert result'[|node|..][|result| - |node|] == c;
      } else {
        var t :| 0 <= t < |result[|node|..]| && result[|node|..][t].kind == kind;
        assert result'[|node|..][t].kind == kind;
      }
    }
  }

  /** The ready state restored when the last reason is resolved shows the log that left none. */
  lemma RestoredShows(log: seq<Op>, op: Op, created: int, configs: map<string, ReadyState>, kind: string,
                      es: seq<Entry>, managed: map<string, NodeCondition>, c: NodeCondition)
    requires Mirrors(log, created, configs, kind, es, managed)
    requires op.ResolveOp? && op.kind == kind && Unresolved(log, kind, op.reason)
    requires Tracks(log + [op], kind, [])
    requires c == NodeCondition(kind, ConditionTrue, Ready(configs, kind).reason, Ready(configs, kind).message, op.at,
                    if kind in managed && managed[kind].status == ConditionTrue then managed[kind].transition else op.at)
    ensures Mirrors(log + [op], created, configs, kind, [], managed[kind := c])
  {
    EntriesMeanUnresolved(log, kind, es);
    EntriesMeanUnresolved(log + [op], kind, []);
    EverReportedStep(log, op, kind);
    TimesStep(log, op, kind, created);
    UnresolvedWasReported(log, kind);
  }
}
