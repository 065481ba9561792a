/** What a sequence of reports and resolutions means for a node: which fatal reasons stand,
    in which order, and when the condition last changed. The exporter is proved against this. */
module ExporterHistory {
  import opened Monitor

  datatype Op =
    | FatalOp(kind: string, reason: string, message: string, at: int)
    | ResolveOp(kind: string, reason: string, at: int)
    | HeartbeatOp(at: int)

  /** What the exporter keeps of a reason that stands: the text it last came with, and which report that was. */
  datatype Entry = Entry(reason: string, message: string, reported: nat)

  predicate IsFatal(op: Op, kind: string, reason: string) {
    op.FatalOp? && op.kind == kind && op.reason == reason
  }

  predicate IsResolve(op: Op, kind: string, reason: string) {
    op.ResolveOp? && op.kind == kind && op.reason == reason
  }

  /** The last operation on the reason was a report. */
  predicate Unresolved(log: seq<Op>, kind: string, reason: string) {
    log != [] &&
    var op := log[|log| - 1];
    IsFatal(op, kind, reason) || (!IsResolve(op, kind, reason) && Unresolved(log[..|log| - 1], kind, reason))
  }

  /** The first report since the reason was last resolved. */
  function FirstReport(log: seq<Op>, kind: string, reason: string): (i: nat)
    requires Unresolved(log, kind, reason)
    ensures i < |log|
  {
    if Unresolved(log[..|log| - 1], kind, reason) then FirstReport(log[..|log| - 1], kind, reason) else |log| - 1
  }

  function LastReport(log: seq<Op>, kind: string, reason: string): (i: nat)
    requires Unresolved(log, kind, reason)
    ensures i < |log| && IsFatal(log[i], kind, reason)
  {
    if IsFatal(log[|log| - 1], kind, reason) then |log| - 1 else LastReport(log[..|log| - 1], kind, reason)
  }

  /** How many reports, of any kind, the log holds: the stamp the latest one carries. */
  function Reports(log: seq<Op>): nat {
    if log == [] then 0 else Reports(log[..|log| - 1]) + if log[|log| - 1].FatalOp? then 1 else 0
  }

  ghost predicate HasUnresolved(log: seq<Op>, kind: string) {
    exists reason :: Unresolved(log, kind, reason)
  }

  predicate EverReported(log: seq<Op>, kind: string) {
    exists i :: 0 <= i < |log| && log[i].FatalOp? && log[i].kind == kind
  }

  /** The time of the latest change between having and not having an unresolved reason. */
  ghost function FlipTime(log: seq<Op>, kind: string, created: int): int {
    if log == [] then created
    else if HasUnresolved(log, kind) != HasUnresolved(log[..|log| - 1], kind) then log[|log| - 1].at
    else FlipTime(log[..|log| - 1], kind, created)
  }

  /** The time the kind's condition was last rewritten: by a report, by a resolution of a
      reason that stood, or by a heartbeat. */
  function TouchTime(log: seq<Op>, kind: string, created: int): int {
    if log == [] then created
    else
      var op, before := log[|log| - 1], log[..|log| - 1];
      if op.HeartbeatOp? || (op.FatalOp? && op.kind == kind) ||
         (op.ResolveOp? && op.kind == kind && Unresolved(before, kind, op.reason))
      then op.at else TouchTime(before, kind, created)
  }

  /** The entries are exactly the unresolved reasons, each with its latest message and stamp,
      ordered by first report since their last resolution. */
  ghost predicate Tracks(log: seq<Op>, kind: string, es: seq<Entry>) {
    && (forall i :: 0 <= i < |es| ==> TracksEntry(log, kind, es[i]))
    && (forall reason :: Unresolved(log, kind, reason) ==> Names(es, reason))
    && (forall i, j :: 0 <= i < j < |es| ==> ReportedBefore(log, kind, es[i].reason, es[j].reason))
  }

  predicate ReportedBefore(log: seq<Op>, kind: string, r: string, s: string) {
    && Unresolved(log, kind, r) && Unresolved(log, kind, s)
    && FirstReport(log, kind, r) < FirstReport(log, kind, s)
  }

  ghost predicate TracksEntry(log: seq<Op>, kind: string, e: Entry) {
    && Unresolved(log, kind, e.reason)
    && var last := LastReport(log, kind, e.reason);
    && e.message == log[last].message
    && e.reported == Reports(log[..last + 1])
  }

  predicate Names(es: seq<Entry>, reason: string) {
    exists i :: 0 <= i < |es| && es[i].reason == reason
  }

  // ---------------------------------------------------------------------------
  // Meaning of the definitions
  // ---------------------------------------------------------------------------

  /** A reason stands exactly when some report of it has no resolution after it. */
  lemma {:induction false} UnresolvedMeans(log: seq<Op>, kind: string, reason: string)
    ensures Unresolved(log, kind, reason) <==>
            exists i :: 0 <= i < |log| && IsFatal(log[i], kind, reason) &&
              forall j :: i < j < |log| ==> !IsResolve(log[j], kind, reason)
  {
    if log != [] {
      var before := log[..|log| - 1];
      UnresolvedMeans(before, kind, reason);
      if Unresolved(log, kind, reason) && !IsFatal(log[|log| - 1], kind, reason) {
        var i :| 0 <= i < |before| && IsFatal(before[i], kind, reason) &&
          forall j :: i < j < |before| ==> !IsResolve(before[j], kind, reason);
        assert IsFatal(log[i], kind, reason);
        assert forall j :: i < j < |log| ==> !IsResolve(log[j], kind, reason);
      }
    }
  }

  /** A reason's first and last report bracket the episode, and nothing in it resolves the reason. */
  lemma {:induction false} ReportsBracketEpisode(log: seq<Op>, kind: string, reason: string)
    requires Unresolved(log, kind, reason)
    ensures
      var first, last := FirstReport(log, kind, reason), LastReport(log, kind, reason);
      && first <= last
      && IsFatal(log[first], kind, reason)
      && !Unresolved(log[..first], kind, reason)
      && (forall j :: first <= j < |log| ==> !IsResolve(log[j], kind, reason))
      && (forall j :: last < j < |log| ==> !IsFatal(log[j], kind, reason))
  {
    var before := log[..|log| - 1];
    if Unresolved(before, kind, reason) {
      ReportsBracketEpisode(before, kind, reason);
      var first := FirstReport(before, kind, reason);
      assert before[..first] == log[..first];
    }
  }

  /** Stamps order reports: a later report carries a larger stamp. */
  lemma {:induction false} StampsFollowReports(log: seq<Op>, i: nat, j: nat)
    requires i < j < |log| && log[j].FatalOp?
    ensures Reports(log[..i + 1]) < Reports(log[..j + 1])
    decreases j
  {
    assert log[..j + 1][..j] == log[..j];
    if i + 1 < j {
      ReportsGrow(log, i + 1, j);
    }
  }

  lemma {:induction false} ReportsGrow(log: seq<Op>, i: nat, j: nat)
    requires i <= j <= |log|
    ensures Reports(log[..i]) <= Reports(log[..j])
    decreases j - i
  {
    if i < j {
      ReportsGrow(log, i, j - 1);
      assert log[..j][..j - 1] == log[..j - 1];
    }
  }

  lemma SameFirstReport(log: seq<Op>, kind: string, r: string, s: string)
    requires Unresolved(log, kind, r) && Unresolved(log, kind, s)
    requires FirstReport(log, kind, r) == FirstReport(log, kind, s)
    ensures r == s
  {
    ReportsBracketEpisode(log, kind, r);
    ReportsBracketEpisode(log, kind, s);
  }

  /** Where a's entry at i sits in b, when the two agree before i: not before i. */
  lemma FindsNoEarlier(log: seq<Op>, kind: string, a: seq<Entry>, b: seq<Entry>, i: nat) returns (j: nat)
    requires Tracks(log, kind, a) && Tracks(log, kind, b)
    requires i < |a| && i <= |b| && a[..i] == b[..i]
    ensures i <= j < |b| && b[j].reason == a[i].reason
    ensures Unresolved(log, kind, a[i].reason) && Unresolved(log, kind, b[i].reason)
    ensures FirstReport(log, kind, b[i].reason) <= FirstReport(log, kind, a[i].reason)
  {
    assert TracksEntry(log, kind, a[i]);
    forall m | 0 <= m < i
      ensures b[m].reason != a[i].reason
    {
      assert a[m] == a[..i][m] == b[..i][m] == b[m];
    }
    j :| 0 <= j < |b| && b[j].reason == a[i].reason;
    assert TracksEntry(log, kind, b[i]);
  }

  lemma {:induction false} SamePrefix(log: seq<Op>, kind: string, a: seq<Entry>, b: seq<Entry>, n: nat)
    requires Tracks(log, kind, a) && Tracks(log, kind, b) && n <= |a| && n <= |b|
    ensures a[..n] == b[..n]
  {
    if n > 0 {
      var i := n - 1;
      SamePrefix(log, kind, a, b, i);
      var j := FindsNoEarlier(log, kind, a, b, i);
      var k := FindsNoEarlier(log, kind, b, a, i);
      assert TracksEntry(log, kind, a[i]) && TracksEntry(log, kind, b[i]);
      SameFirstReport(log, kind, a[i].reason, b[i].reason);
      assert a[..n] == a[..i] + [a[i]] && b[..n] == b[..i] + [b[i]];
    }
  }

  /** There is only one entry list a log can have, so Tracks leaves nothing open. */
  lemma TracksDeterminesEntries(log: seq<Op>, kind: string, a: seq<Entry>, b: seq<Entry>)
    requires Tracks(log, kind, a) && Tracks(log, kind, b)
    ensures a == b
  {
    var n := if |a| <= |b| then |a| else |b|;
    SamePrefix(log, kind, a, b, n);
    if n < |a| {
      var j := FindsNoEarlier(log, kind, a, b, n);
    } else if n < |b| {
      var j := FindsNoEarlier(log, kind, b, a, n);
    }
    assert a[..n] == a && b[..n] == b;
  }

  /** Operation i changed whether the kind has an unresolved reason. */
  ghost predicate Flips(log: seq<Op>, kind: string, i: nat)
    requires i < |log|
  {
    HasUnresolved(log[..i + 1], kind) != HasUnresolved(log[..i], kind)
  }

  ghost predicate IsLatestFlip(log: seq<Op>, kind: string, i: nat) {
    i < |log| && Flips(log, kind, i) && forall j: nat :: i < j < |log| ==> !Flips(log, kind, j)
  }

  /** The flip time is that of the last operation that flipped, or the creation time if none did. */
  lemma {:induction false} FlipTimeIsLatestFlip(log: seq<Op>, kind: string, created: int)
    ensures
      || (FlipTime(log, kind, created) == created && forall i: nat :: i < |log| ==> !Flips(log, kind, i))
      || (exists i: nat :: IsLatestFlip(log, kind, i) && FlipTime(log, kind, created) == log[i].at)
  {
    hide Flips, FlipTime;
    if log != [] {
      var before := log[..|log| - 1];
      FlipTimeIsLatestFlip(before, kind, created);
      LastFlip(log, kind, created);
      forall i: nat | i < |before|
        ensures Flips(before, kind, i) == Flips(log, kind, i)
      {
        FlipsIsLocal(log, kind, i);
      }
      if Flips(log, kind, |before|) {
        assert IsLatestFlip(log, kind, |before|);
      } else if exists i: nat :: IsLatestFlip(before, kind, i) && FlipTime(before, kind, created) == before[i].at {
        var i: nat :| IsLatestFlip(before, kind, i) && FlipTime(before, kind, created) == before[i].at;
        assert IsLatestFlip(log, kind, i);
      }
    } else {
      NeverFlipped(kind, created);
    }
  }

  lemma NeverFlipped(kind: string, created: int)
    ensures FlipTime([], kind, created) == created
  {
  }

  lemma LastFlip(log: seq<Op>, kind: string, created: int)
    requires log != []
    ensures
      var n := |log| - 1;
      FlipTime(log, kind, created) == if Flips(log, kind, n) then log[n].at else FlipTime(log[..n], kind, created)
  {
    assert log[..|log|] == log;
  }

  lemma FlipsIsLocal(log: seq<Op>, kind: string, i: nat)
    requires i < |log| - 1
    ensures Flips(log[..|log| - 1], kind, i) == Flips(log, kind, i)
  {
    var before := log[..|log| - 1];
    assert before[..i + 1] == log[..i + 1] && before[..i] == log[..i];
  }

  // ---------------------------------------------------------------------------
  // How the history grows by one operation
  // ---------------------------------------------------------------------------

  /** What one more operation does to one reason's history. */
  lemma ReasonStep(log: seq<Op>, op: Op, kind: string, reason: string)
    ensures Unresolved(log + [op], kind, reason) <==>
            IsFatal(op, kind, reason) || (!IsResolve(op, kind, reason) && Unresolved(log, kind, reason))
    ensures Unresolved(log + [op], kind, reason) ==>
              FirstReport(log + [op], kind, reason) ==
              if Unresolved(log, kind, reason) then FirstReport(log, kind, reason) else |log|
    ensures Unresolved(log + [op], kind, reason) ==>
              LastReport(log + [op], kind, reason) ==
              if IsFatal(op, kind, reason) then |log| else LastReport(log, kind, reason)
  {
    PrefixOfExtension(log, op);
  }

  lemma ReportsStep(log: seq<Op>, op: Op)
    ensures Reports(log + [op]) == Reports(log) + if op.FatalOp? then 1 else 0
  {
    PrefixOfExtension(log, op);
  }

  /** An operation that is not on this reason leaves its entry right. */
  lemma EntryKept(log: seq<Op>, op: Op, kind: string, e: Entry)
    requires TracksEntry(log, kind, e)
    requires !IsFatal(op, kind, e.reason) && !IsResolve(op, kind, e.reason)
    ensures TracksEntry(log + [op], kind, e)
    ensures FirstReport(log + [op], kind, e.reason) == FirstReport(log, kind, e.reason)
  {
    ReasonStep(log, op, kind, e.reason);
    var last := LastReport(log, kind, e.reason);
    assert (log + [op])[..last + 1] == log[..last + 1];
  }

  lemma UnaffectedKind(log: seq<Op>, op: Op, kind: string, es: seq<Entry>)
    requires Tracks(log, kind, es)
    requires op.ResolveOp? ==> op.kind != kind || !Names(es, op.reason)
    requires op.FatalOp? ==> op.kind != kind
    ensures Tracks(log + [op], kind, es)
    ensures HasUnresolved(log + [op], kind) <==> HasUnresolved(log, kind)
  {
    forall i | 0 <= i < |es|
      ensures TracksEntry(log + [op], kind, es[i])
      ensures FirstReport(log + [op], kind, es[i].reason) == FirstReport(log, kind, es[i].reason)
    {
      assert TracksEntry(log, kind, es[i]);
      EntryKept(log, op, kind, es[i]);
    }
    forall reason
      ensures Unresolved(log + [op], kind, reason) <==> Unresolved(log, kind, reason)
    {
      ReasonStep(log, op, kind, reason);
    }
  }

  /** A report of a reason already listed rewrites that entry in place. */
  lemma ReportUpdates(log: seq<Op>, op: Op, es: seq<Entry>, i: nat)
    requires op.FatalOp? && Tracks(log, op.kind, es)
    requires i < |es| && es[i].reason == op.reason
    ensures Tracks(log + [op], op.kind, es[i := Entry(op.reason, op.message, Reports(log) + 1)])
  {
    var kind, after := op.kind, es[i := Entry(op.reason, op.message, Reports(log) + 1)];
    assert TracksEntry(log, kind, es[i]);
    ReasonStep(log, op, kind, op.reason);
    NewEntry(log, op);
    forall j | 0 <= j < |es|
      ensures TracksEntry(log + [op], kind, after[j])
      ensures FirstReport(log + [op], kind, after[j].reason) == FirstReport(log, kind, es[j].reason)
    {
      if j != i {
        assert TracksEntry(log, kind, es[j]);
        assert es[j].reason != op.reason;
        EntryKept(log, op, kind, es[j]);
      }
    }
    forall j, k | 0 <= j < k < |after|
      ensures ReportedBefore(log + [op], kind, after[j].reason, after[k].reason)
    {
      assert ReportedBefore(log, kind, es[j].reason, es[k].reason);
      assert TracksEntry(log + [op], kind, after[j]) && TracksEntry(log + [op], kind, after[k]);
    }
    forall r | Names(es, r)
      ensures Names(after, r)
    {
      var j :| 0 <= j < |es| && es[j].reason == r;
      assert after[j].reason == r;
    }
    assert after[i].reason == op.reason;
    NamesEvery(log, op, es, after);
  }

  /** A report of a reason not listed goes last. */
  lemma ReportAppends(log: seq<Op>, op: Op, es: seq<Entry>)
    requires op.FatalOp? && Tracks(log, op.kind, es) && !Names(es, op.reason)
    ensures Tracks(log + [op], op.kind, es + [Entry(op.reason, op.message, Reports(log) + 1)])
  {
    var kind, after := op.kind, es + [Entry(op.reason, op.message, Reports(log) + 1)];
    NewEntry(log, op);
    ReasonStep(log, op, kind, op.reason);
    forall j | 0 <= j < |after|
      ensures TracksEntry(log + [op], kind, after[j])
      ensures FirstReport(log + [op], kind, after[j].reason) ==
        if j < |es| then FirstReport(log, kind, es[j].reason) else |log|
    {
      if j < |es| {
        assert TracksEntry(log, kind, es[j]) && es[j].reason != op.reason;
        EntryKept(log, op, kind, es[j]);
      } else {
        assert !Unresolved(log, kind, op.reason);
      }
    }
    forall r | Names(es, r)
      ensures Names(after, r)
    {
      var j :| 0 <= j < |es| && es[j].reason == r;
      assert after[j] == es[j];
    }
    assert after[|es|].reason == op.reason;
    NamesEvery(log, op, es, after);
  }

  lemma NewEntry(log: seq<Op>, op: Op)
    requires op.FatalOp?
    ensures TracksEntry(log + [op], op.kind, Entry(op.reason, op.message, Reports(log) + 1))
  {
    ReasonStep(log, op, op.kind, op.reason);
    ReportsStep(log, op);
    PrefixOfExtension(log, op);
  }

  lemma NamesEvery(log: seq<Op>, op: Op, es: seq<Entry>, after: seq<Entry>)
    requires op.FatalOp? && Tracks(log, op.kind, es)
    requires Names(after, op.reason) && forall r :: Names(es, r) ==> Names(after, r)
    ensures forall reason :: Unresolved(log + [op], op.kind, reason) ==> Names(after, reason)
  {
    forall reason | Unresolved(log + [op], op.kind, reason)
      ensures Names(after, reason)
    {
      ReasonStep(log, op, op.kind, reason);
    }
  }

  /** Resolving a listed reason takes out its entry and keeps the others in order. */
  lemma ResolveRemoves(log: seq<Op>, op: Op, es: seq<Entry>, i: nat)
    requires op.ResolveOp? && Tracks(log, op.kind, es)
    requires i < |es| && es[i].reason == op.reason
    ensures Tracks(log + [op], op.kind, es[..i] + es[i + 1..])
  {
    var kind, after := op.kind, es[..i] + es[i + 1..];
    forall j | 0 <= j < |es| && j != i
      ensures TracksEntry(log + [op], kind, es[j])
      ensures FirstReport(log + [op], kind, es[j].reason) == FirstReport(log, kind, es[j].reason)
    {
      assert TracksEntry(log, kind, es[j]) && es[j].reason != op.reason;
      EntryKept(log, op, kind, es[j]);
    }
    forall j, k | 0 <= j < k < |es| && j != i && k != i
      ensures ReportedBefore(log + [op], kind, es[j].reason, es[k].reason)
    {
      assert ReportedBefore(log, kind, es[j].reason, es[k].reason);
      assert TracksEntry(log + [op], kind, es[j]) && TracksEntry(log + [op], kind, es[k]);
    }
    RemovalKeepsOrder(log + [op], kind, es, i, after);
    forall reason | Unresolved(log + [op], kind, reason)
      ensures Names(after, reason)
    {
      ReasonStep(log, op, kind, reason);
      RemovalKeepsNames(es, i, after, reason);
    }
  }

  lemma RemovalKeepsNames(es: seq<Entry>, i: nat, after: seq<Entry>, reason: string)
    requires i < |es| && after == es[..i] + es[i + 1..] && es[i].reason != reason && Names(es, reason)
    ensures Names(after, reason)
  {
    var j :| 0 <= j < |es| && es[j].reason == reason;
    assert after[if j < i then j else j - 1] == es[j];
  }

  lemma RemovalKeepsOrder(log: seq<Op>, kind: string, es: seq<Entry>, i: nat, after: seq<Entry>)
    requires i < |es| && after == es[..i] + es[i + 1..]
    requires forall j :: 0 <= j < |es| && j != i ==> TracksEntry(log, kind, es[j])
    requires forall j, k :: 0 <= j < k < |es| && j != i && k != i ==> ReportedBefore(log, kind, es[j].reason, es[k].reason)
    ensures forall j :: 0 <= j < |after| ==> TracksEntry(log, kind, after[j])
    ensures forall j, k :: 0 <= j < k < |after| ==> ReportedBefore(log, kind, after[j].reason, after[k].reason)
  {
    hide TracksEntry, ReportedBefore;
    forall j | 0 <= j < |after|
      ensures TracksEntry(log, kind, after[j])
    {
      assert after[j] == es[if j < i then j else j + 1];
    }
    forall j, k | 0 <= j < k < |after|
      ensures ReportedBefore(log, kind, after[j].reason, after[k].reason)
    {
      var j', k' := if j < i then j else j + 1, if k < i then k else k + 1;
      assert after[j] == es[j'] && after[k] == es[k'] && j' < k';
    }
  }
}
