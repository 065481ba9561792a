/** Rate limiting of the GPU signals that can stay over their limit for many polls. */
module LevelReports {
  import opened Monitor
  import opened Renotify

  const WARNING_RENOTIFY_INTERVAL := 1_800_000_000_000  // 30 minutes, in nanoseconds

  /** The signals: a health code (which the source writes as a decimal string) or a policy's name. */
  datatype Signal = HealthCode(code: int) | Policy(name: string)

  datatype LevelKey = LevelKey(gpu: int, signal: Signal)

  /** One reading of one level: whether it was observed, and whether it was over the limit. */
  datatype LevelReading = LevelReading(key: LevelKey, at: int, observed: bool, over: bool)

  /** A reading as an event about one key: unobserved readings, and other keys', say nothing. */
  function EventFor(r: LevelReading, key: LevelKey): Event<()> {
    if r.key != key || !r.observed then Unrelated
    else if r.over then Seen((), r.at)
    else Healthy
  }

  function EventsFor(readings: seq<LevelReading>, key: LevelKey): (events: seq<Event<()>>)
    ensures |events| == |readings|
    ensures forall i :: 0 <= i < |events| ==> events[i] == EventFor(readings[i], key)
  {
    seq(|readings|, i requires 0 <= i < |readings| => EventFor(readings[i], key))
  }

  /** Reading i is one that reports. */
  predicate Reports(readings: seq<LevelReading>, i: nat)
    requires i < |readings|
  {
    Notifies(WARNING_RENOTIFY_INTERVAL, EventsFor(readings, readings[i].key), i)
  }

  predicate IsClean(r: LevelReading, key: LevelKey) {
    r.key == key && r.observed && !r.over
  }

  /** A key is tracked exactly when its last observed reading was over the limit. */
  lemma TrackedIffLastObservedOver(readings: seq<LevelReading>, key: LevelKey)
    ensures LastNotice(WARNING_RENOTIFY_INTERVAL, EventsFor(readings, key)).Some? <==>
            exists i :: 0 <= i < |readings| && readings[i].key == key && readings[i].observed && readings[i].over
              && forall k :: i < k < |readings| ==> readings[k].key != key || !readings[k].observed
  {
    var events := EventsFor(readings, key);
    InForceIffLastSeen(WARNING_RENOTIFY_INTERVAL, events);
    if i :| 0 <= i < |events| && events[i].Seen? && forall k :: i < k < |events| ==> events[k].Unrelated? {
      assert readings[i].key == key && readings[i].observed && readings[i].over;
      assert forall k :: i < k < |readings| ==> events[k].Unrelated?;
    }
    if i :| 0 <= i < |readings| && readings[i].key == key && readings[i].observed && readings[i].over
            && forall k :: i < k < |readings| ==> readings[k].key != key || !readings[k].observed {
      assert events[i].Seen?;
      assert forall k :: i < k < |events| ==> events[k].Unrelated?;
    }
  }

  /** Two reports of one key with no clean reading between are at least the interval apart. */
  lemma ReportsAreSpaced(readings: seq<LevelReading>, i: nat, j: nat)
    requires i < j < |readings| && readings[i].key == readings[j].key
    requires Reports(readings, i) && Reports(readings, j)
    requires forall k :: i < k < j ==> !IsClean(readings[k], readings[i].key)
    ensures readings[j].at - readings[i].at >= WARNING_RENOTIFY_INTERVAL
  {
    NoticesAreSpaced(WARNING_RENOTIFY_INTERVAL, EventsFor(readings, readings[i].key), i, j);
  }

  /** The first observed violation after a clean reading always reports. */
  lemma FirstViolationReports(readings: seq<LevelReading>, i: nat, j: nat)
    requires i < j < |readings| && IsClean(readings[i], readings[j].key)
    requires readings[j].observed && readings[j].over
    requires forall k :: i < k < j ==> readings[k].key != readings[j].key || !readings[k].observed
    ensures Reports(readings, j)
  {
    FirstAfterHealthyNotifies(WARNING_RENOTIFY_INTERVAL, EventsFor(readings, readings[j].key), i, j);
  }

  /** An observed violation stays silent only within the interval of a report of the same key,
      since which the key never read clean. */
  lemma SilenceMeansReportedRecently(readings: seq<LevelReading>, j: nat) returns (i: nat)
    requires j < |readings| && readings[j].observed && readings[j].over && !Reports(readings, j)
    ensures i < j && readings[i].key == readings[j].key && Reports(readings, i)
    ensures readings[j].at - readings[i].at < WARNING_RENOTIFY_INTERVAL
    ensures forall k :: i < k < j ==> !IsClean(readings[k], readings[j].key)
  {
    var events := EventsFor(readings, readings[j].key);
    i := SuppressedRepeatsARecentNotice(WARNING_RENOTIFY_INTERVAL, events, j);
    assert forall k :: i < k < j ==> !events[k].Healthy?;
  }

  lemma EventsStep(readings: seq<LevelReading>, r: LevelReading, key: LevelKey)
    ensures EventsFor(readings + [r], key) == EventsFor(readings, key) + [EventFor(r, key)]
  {
  }

  function HeldFor(tracked: map<LevelKey, int>, key: LevelKey): Option<Notice<()>> {
    if key in tracked then Some(Notice((), tracked[key])) else None
  }

  /** What each key's tracker holds: the time it last notified, for the keys that have reported
      and not read clean since. */
  ghost predicate InForce(readings: seq<LevelReading>, tracked: map<LevelKey, int>) {
    forall key: LevelKey :: LastNotice(WARNING_RENOTIFY_INTERVAL, EventsFor(readings, key)) == HeldFor(tracked, key)
  }

  /** A tracker answers whether a violation is due. */
  predicate IsDue(tracked: map<LevelKey, int>, key: LevelKey, now: int) {
    key !in tracked || now - tracked[key] >= WARNING_RENOTIFY_INTERVAL
  }

  /** How one reading changes the trackers. */
  function TrackedAfter(tracked: map<LevelKey, int>, r: LevelReading): map<LevelKey, int> {
    if !r.observed then tracked
    else if !r.over then tracked - {r.key}
    else if IsDue(tracked, r.key, r.at) then tracked[r.key := r.at] else tracked
  }

  /** What one reading makes of the notice its key holds. */
  function NextNotice(held: Option<Notice<()>>, observed: bool, over: bool, at: int): Option<Notice<()>> {
    if !observed then held
    else if !over then None
    else if Due(held, WARNING_RENOTIFY_INTERVAL, (), at) then Some(Notice((), at))
    else held
  }

  lemma TrackedAt(tracked: map<LevelKey, int>, r: LevelReading, key: LevelKey)
    ensures HeldFor(TrackedAfter(tracked, r), key) ==
            if key == r.key then NextNotice(HeldFor(tracked, key), r.observed, r.over, r.at) else HeldFor(tracked, key)
  {
  }

  lemma ReadingRecorded(readings: seq<LevelReading>, r: LevelReading, tracked: map<LevelKey, int>)
    requires InForce(readings, tracked)
    ensures Reports(readings + [r], |readings|) <==> r.observed && r.over && IsDue(tracked, r.key, r.at)
    ensures InForce(readings + [r], TrackedAfter(tracked, r))
  {
    forall key
      ensures LastNotice(WARNING_RENOTIFY_INTERVAL, EventsFor(readings + [r], key)) == HeldFor(TrackedAfter(tracked, r), key)
    {
      EventsStep(readings, r, key);
      LastNoticeStep(WARNING_RENOTIFY_INTERVAL, EventsFor(readings, key), EventFor(r, key));
      assert LastNotice(WARNING_RENOTIFY_INTERVAL, EventsFor(readings, key)) == HeldFor(tracked, key);
    }
    EventsStep(readings, r, r.key);
    PrefixOfExtension(EventsFor(readings, r.key), EventFor(r, r.key));
    assert LastNotice(WARNING_RENOTIFY_INTERVAL, EventsFor(readings, r.key)) == HeldFor(tracked, r.key);
  }

  class LevelTrackers {
    var tracked: map<LevelKey, int>
    ghost var readings: seq<LevelReading>

    ghost predicate Valid()
      reads this
    {
      InForce(readings, tracked)
    }

    constructor ()
      ensures Valid() && readings == [] && tracked == map[]
    {
      tracked, readings := map[], [];
    }

    method Report(now: int, key: LevelKey, observed: bool, over: bool) returns (report: bool)
      requires Valid()
      modifies this
      ensures Valid() && readings == old(readings) + [LevelReading(key, now, observed, over)]
      ensures report <==> Reports(readings, |old(readings)|)
      ensures report <==> observed && over && IsDue(old(tracked), key, now)
      ensures tracked == TrackedAfter(old(tracked), LevelReading(key, now, observed, over))
    {
      ReadingRecorded(readings, LevelReading(key, now, observed, over), tracked);
      hide InForce, Reports;
      readings := readings + [LevelReading(key, now, observed, over)];
      if !observed {
        return false;
      }
      if !over {
        tracked := tracked - {key};
        return false;
      }
      if key in tracked && now - tracked[key] < WARNING_RENOTIFY_INTERVAL {
        return false;
      }
      tracked := tracked[key := now];
      return true;
    }
  }
}
