/** What the policy check's level reports amount to over whole runs of polls. */
module PolicyRuns {
  import opened Monitor
  import opened Renotify
  import opened LevelReports
  import opened PolicyReader
  import opened Policies

  /** The policies that are levels. */
  datatype Which = RetiredPages | Thermal | PowerUse

  /** One GPU's level in one poll. It does not depend on what earlier polls left. */
  function LevelFor(p: GpuPoll, which: Which): LevelReading {
    match which
    case RetiredPages => PagesLevel(p)
    case Thermal => ThermalLevel(p)
    case PowerUse => PowerLevel(p)
  }

  function KeyFor(gpu: nat, which: Which): LevelKey {
    match which
    case RetiredPages => LevelKey(gpu, Policy("retiredPages"))
    case Thermal => LevelKey(gpu, Policy("thermal"))
    case PowerUse => LevelKey(gpu, Policy("power"))
  }

  /** What a poll says about one level. */
  function LevelEvent(n: NodePoll, gpu: nat, which: Which): Event<()> {
    if gpu >= |n.samples| || n.samples[gpu].lost then Unrelated
    else
      var level := LevelFor(PollAt(n, gpu), which);
      if !level.observed then Unrelated else if level.over then Seen((), level.at) else Healthy
  }

  function LevelEvents(run: seq<NodePoll>, gpu: nat, which: Which): (events: seq<Event<()>>)
    ensures |events| == |run| && forall k :: 0 <= k < |run| ==> events[k] == LevelEvent(run[k], gpu, which)
  {
    seq(|run|, k requires 0 <= k < |run| => LevelEvent(run[k], gpu, which))
  }

  /** A poll reports a level of a GPU. */
  ghost predicate ReportsLevel(n: NodePoll, gpu: nat, which: Which) {
    match which
    case RetiredPages => exists sbe, dbe :: Retirement(gpu, sbe, dbe) in PollReports(n)
    case Thermal => exists degrees :: Overheated(gpu, degrees) in PollReports(n)
    case PowerUse => exists watts :: PowerDraw(gpu, watts) in PollReports(n)
  }

  /** What one event makes of the notice in force. */
  function NoticeAfter(held: Option<Notice<()>>, e: Event<()>): Option<Notice<()>> {
    match e
    case Unrelated => held
    case Healthy => None
    case Seen(_, at) => if Due(held, WARNING_RENOTIFY_INTERVAL, (), at) then Some(Notice((), at)) else held
  }

  lemma TakenAt(p: GpuPoll, gpu: nat, which: Which)
    ensures var key, level := KeyFor(gpu, which), LevelFor(p, which);
            HeldFor(TakenAfter(p), key) ==
            if p.s.lost || gpu != p.gpu then HeldFor(p.tracked, key)
            else NextNotice(HeldFor(p.tracked, key), level.observed, level.over, level.at)
  {
    var key := KeyFor(gpu, which);
    hide TrackedAfter, NextNotice, PowerOf;
    var t1 := TrackedAfter(p.tracked, PagesLevel(p));
    TrackedAt(p.tracked, PagesLevel(p), key);
    TrackedAt(t1, ThermalLevel(p), key);
    TrackedAt(TrackedAfter(t1, ThermalLevel(p)), PowerLevel(p), key);
  }

  /** The levels of other GPUs leave this one's tracker alone. */
  lemma {:induction false} OthersLeaveTheLevel(n: NodePoll, k: nat, gpu: nat, which: Which)
    requires k <= |n.samples|
    ensures HeldFor(StateAt(n, k).tracked, KeyFor(gpu, which)) ==
            if gpu < k then NoticeAfter(HeldFor(n.tracked, KeyFor(gpu, which)), LevelEvent(n, gpu, which))
            else HeldFor(n.tracked, KeyFor(gpu, which))
    decreases k
  {
    hide TakenAfter, BaseAfter, HeldFor, KeyFor;
    if k > 0 {
      OthersLeaveTheLevel(n, k - 1, gpu, which);
      TakenAt(PollAt(n, k - 1), gpu, which);
    }
  }

  /** A poll reports a level exactly when its reading is over and due. */
  lemma ReportsIffDue(n: NodePoll, gpu: nat, which: Which)
    ensures ReportsLevel(n, gpu, which) <==>
            && LevelEvent(n, gpu, which).Seen?
            && Due(HeldFor(n.tracked, KeyFor(gpu, which)), WARNING_RENOTIFY_INTERVAL, (), LevelEvent(n, gpu, which).at)
  {
    if gpu < |n.samples| {
      var p := PollAt(n, gpu);
      OthersLeaveTheLevel(n, gpu, gpu, which);
      ReportsIffWarns(n, gpu, which);
      hide PollReports, StateAt, ReportsLevel, PowerOf;
      assert IsDue(p.tracked, KeyFor(gpu, which), LevelFor(p, which).at) ==
             Due(HeldFor(p.tracked, KeyFor(gpu, which)), WARNING_RENOTIFY_INTERVAL, (), LevelFor(p, which).at);
    } else {
      forall r | r in PollReports(n)
        ensures r.gpu < |n.samples|
      {
        ReportsByGpu(n, |n.samples|, r);
      }
    }
  }

  lemma InPoll(n: NodePoll, r: Report)
    ensures r in PollReports(n) <==> r.gpu < |n.samples| && r in GpuReports(PollAt(n, r.gpu))
    ensures r.gpu < |n.samples| && n.samples[r.gpu].lost && r in GpuReports(PollAt(n, r.gpu)) ==> r == LostGpu(r.gpu)
  {
    ReportsByGpu(n, |n.samples|, r);
  }

  lemma ReportsIffWarns(n: NodePoll, gpu: nat, which: Which)
    requires gpu < |n.samples|
    ensures ReportsLevel(n, gpu, which) <==> !n.samples[gpu].lost && Warns(PollAt(n, gpu), LevelFor(PollAt(n, gpu), which))
  {
    hide PollReports, Warns, StateAt, GpuReports, Rule, PowerOf;
    var p := PollAt(n, gpu);
    forall r: Report | r.gpu == gpu && (r.Retirement? || r.Overheated? || r.PowerDraw?)
      ensures r in PollReports(n) <==> !p.s.lost && Rule(p, r)
    {
      InPoll(n, r);
      if !p.s.lost {
        ReportsFollowTheRules(p, r);
      }
    }
    forall r: Report | r.gpu == gpu && (r.Retirement? || r.Overheated? || r.PowerDraw?)
      ensures Rule(p, r) ==> Warns(p, LevelFor(p, if r.Retirement? then RetiredPages else if r.Overheated? then Thermal else PowerUse))
    {
      LevelRules(p, r);
    }
    LevelRules(p, Retirement(gpu, p.s.retiredSbe.value, p.s.retiredDbe.value));
    LevelRules(p, Overheated(gpu, p.s.temperature.value));
    LevelRules(p, PowerDraw(gpu, PowerOf(p.s, p.threshold).watts));
  }

  lemma {:induction false} TrackerIsTheLastNotice(run: seq<NodePoll>, k: nat, gpu: nat, which: Which)
    requires IsRun(run) && k < |run|
    ensures HeldFor(run[k].tracked, KeyFor(gpu, which)) ==
            LastNotice(WARNING_RENOTIFY_INTERVAL, LevelEvents(run, gpu, which)[..k])
    decreases k
  {
    hide StateAt, LevelEvent, KeyFor, Recorded;
    var events := LevelEvents(run, gpu, which);
    assert StartsFrom(run, k);
    if k > 0 {
      TrackerIsTheLastNotice(run, k - 1, gpu, which);
      LastNoticeStep(WARNING_RENOTIFY_INTERVAL, events[..k - 1], events[k - 1]);
      assert events[..k] == events[..k - 1] + [events[k - 1]];
      OthersLeaveTheLevel(run[k - 1], |run[k - 1].samples|, gpu, which);
      AbsentSaysNothing(run[k - 1], gpu, which);
      OneKey(events[k - 1]);
    }
  }

  lemma OneKey(e: Event<()>)
    ensures e.Seen? ==> e == Seen((), e.at)
  {
    if e.Seen? {
      match e.key {
        case () =>
      }
    }
  }

  lemma AbsentSaysNothing(n: NodePoll, gpu: nat, which: Which)
    ensures gpu >= |n.samples| ==> LevelEvent(n, gpu, which).Unrelated?
  {
  }

  /** A poll of a run reports a level exactly when the run so far makes it due. */
  lemma ReportIsItsNotice(run: seq<NodePoll>, k: nat, gpu: nat, which: Which)
    requires IsRun(run) && k < |run|
    ensures ReportsLevel(run[k], gpu, which) <==> Notifies(WARNING_RENOTIFY_INTERVAL, LevelEvents(run, gpu, which), k)
  {
    hide ReportsLevel, LevelEvent, KeyFor;
    TrackerIsTheLastNotice(run, k, gpu, which);
    ReportsIffDue(run[k], gpu, which);
    OneKey(LevelEvents(run, gpu, which)[k]);
  }

  /** Over any run, two reports of one level of one GPU with no clean reading between are at least
      the interval apart. */
  lemma ReportsAreSpaced(run: seq<NodePoll>, i: nat, j: nat, gpu: nat, which: Which)
    requires IsRun(run) && i < j < |run|
    requires ReportsLevel(run[i], gpu, which) && ReportsLevel(run[j], gpu, which)
    requires NoneHealthy(LevelEvents(run, gpu, which), i, j)
    ensures var events := LevelEvents(run, gpu, which);
            events[i].Seen? && events[j].Seen? && events[j].at - events[i].at >= WARNING_RENOTIFY_INTERVAL
  {
    hide ReportsLevel, LevelEvent, IsRun;
    var events := LevelEvents(run, gpu, which);
    ReportIsItsNotice(run, i, gpu, which);
    ReportIsItsNotice(run, j, gpu, which);
    assert forall k :: 0 <= k < |events| && events[k].Seen? ==> events[k].key == ();
    Renotify.NoticesAreSpaced(WARNING_RENOTIFY_INTERVAL, events, i, j);
  }

  /** The first violation observed after a clean reading reports at once. */
  lemma FirstViolationReports(run: seq<NodePoll>, i: nat, j: nat, gpu: nat, which: Which)
    requires IsRun(run) && i < j < |run|
    requires LevelEvents(run, gpu, which)[i].Healthy? && LevelEvents(run, gpu, which)[j].Seen?
    requires forall k :: i < k < j ==> LevelEvents(run, gpu, which)[k].Unrelated?
    ensures ReportsLevel(run[j], gpu, which)
  {
    hide ReportsLevel, LevelEvent;
    ReportIsItsNotice(run, j, gpu, which);
    FirstAfterHealthyNotifies(WARNING_RENOTIFY_INTERVAL, LevelEvents(run, gpu, which), i, j);
  }
}
