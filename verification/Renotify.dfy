/** When a state that has not changed is notified again: the tracker, and what its rule means
    over a whole run. */
module Renotify {
  import opened Monitor

  datatype Notice<K> = Notice(key: K, at: int)

  /** What one evaluation showed: a state to notify, a healthy state, or nothing about it. */
  datatype Event<K> = Seen(key: K, at: int) | Healthy | Unrelated

  /** Nothing was notified yet, the state differs from the one notified, or the interval has passed. */
  predicate Due<K(==)>(last: Option<Notice<K>>, interval: int, key: K, now: int) {
    last.None? || last.value.key != key || now - last.value.at >= interval
  }

  /** The notification in force after the events, when each one that is due is sent. */
  function LastNotice<K(==)>(interval: int, events: seq<Event<K>>): Option<Notice<K>> {
    if events == [] then None
    else
      var before := LastNotice(interval, events[..|events| - 1]);
      match events[|events| - 1]
      case Healthy => None
      case Unrelated => before
      case Seen(key, at) => if Due(before, interval, key, at) then Some(Notice(key, at)) else before
  }

  /** Event i is one that is sent. */
  predicate Notifies<K(==)>(interval: int, events: seq<Event<K>>, i: nat)
    requires i < |events|
  {
    events[i].Seen? && Due(LastNotice(interval, events[..i]), interval, events[i].key, events[i].at)
  }

  lemma LastNoticeStep<K>(interval: int, events: seq<Event<K>>, e: Event<K>)
    ensures LastNotice(interval, events + [e]) ==
      match e
      case Healthy => None
      case Unrelated => LastNotice(interval, events)
      case Seen(key, at) =>
        if Due(LastNotice(interval, events), interval, key, at) then Some(Notice(key, at)) else LastNotice(interval, events)
  {
    PrefixOfExtension(events, e);
  }

  predicate NoneHealthy<K>(events: seq<Event<K>>, i: int, j: int) {
    forall k :: i < k < j && 0 <= k < |events| ==> !events[k].Healthy?
  }

  /** The notification in force was sent by some event since which nothing else was sent and the
      state was never healthy. */
  lemma {:induction false} LastNoticeWasSent<K>(interval: int, events: seq<Event<K>>) returns (i: nat)
    requires LastNotice(interval, events).Some?
    ensures i < |events| && Notifies(interval, events, i)
    ensures LastNotice(interval, events) == Some(Notice(events[i].key, events[i].at))
    ensures NoneHealthy(events, i, |events|)
    ensures forall k :: i < k < |events| ==> !Notifies(interval, events, k)
  {
    var n := |events| - 1;
    var before := events[..n];
    if Notifies(interval, events, n) {
      i := n;
    } else {
      i := LastNoticeWasSent(interval, before);
      assert before[..i] == events[..i];
      forall k | i < k < |events|
        ensures !Notifies(interval, events, k) && !events[k].Healthy?
      {
        if k < n {
          assert before[..k] == events[..k] && before[k] == events[k];
          assert Notifies(interval, events, k) == Notifies(interval, before, k);
        }
      }
    }
  }

  /** A state that is not sent repeats one that was sent less than the interval ago, since which
      the state was never healthy. */
  lemma SuppressedRepeatsARecentNotice<K>(interval: int, events: seq<Event<K>>, j: nat) returns (i: nat)
    requires j < |events| && events[j].Seen? && !Notifies(interval, events, j)
    ensures i < j && Notifies(interval, events, i)
    ensures events[i].key == events[j].key && events[j].at - events[i].at < interval
    ensures NoneHealthy(events, i, j)
  {
    i := LastNoticeWasSent(interval, events[..j]);
    assert events[..j][..i] == events[..i];
    forall k | i < k < j
      ensures !events[k].Healthy?
    {
      assert events[..j][k] == events[k];
    }
  }

  /** Two sends of an unchanged state, never healthy between, are at least the interval apart. */
  lemma {:induction false} NoticesAreSpaced<K>(interval: int, events: seq<Event<K>>, i: nat, j: nat)
    requires 0 <= interval && i < j < |events|
    requires Notifies(interval, events, i) && Notifies(interval, events, j)
    requires NoneHealthy(events, i, j)
    requires forall k :: i <= k <= j && events[k].Seen? ==> events[k].key == events[i].key
    ensures events[j].at - events[i].at >= interval
    decreases j
  {
    var p := LatestNoticeBetween(interval, events, i, j);
    if i < p {
      NoticesAreSpaced(interval, events, i, p);
    }
  }

  /** The notification in force before j, when i was sent before it: sent at i or after. */
  lemma {:induction false} LatestNoticeBetween<K>(interval: int, events: seq<Event<K>>, i: nat, j: nat) returns (p: nat)
    requires i < j <= |events| && Notifies(interval, events, i) && NoneHealthy(events, i, j)
    ensures i <= p < j && Notifies(interval, events, p)
    ensures LastNotice(interval, events[..j]) == Some(Notice(events[p].key, events[p].at))
    decreases j
  {
    var n := j - 1;
    assert events[..j][..n] == events[..n] && events[..j][n] == events[n];
    if n == i || Notifies(interval, events, n) {
      p := n;
    } else {
      p := LatestNoticeBetween(interval, events, i, n);
    }
  }

  /** The state last sent, seen again inside the interval with nothing sent and never healthy
      between, is not sent. */
  lemma RepeatIsSuppressed<K>(interval: int, events: seq<Event<K>>, i: nat, j: nat)
    requires i < j < |events| && Notifies(interval, events, i) && events[j].Seen?
    requires events[j].key == events[i].key && events[j].at - events[i].at < interval
    requires NoneHealthy(events, i, j) && forall k :: i < k < j ==> !Notifies(interval, events, k)
    ensures !Notifies(interval, events, j)
  {
    var p := LatestNoticeBetween(interval, events, i, j);
    assert p == i;
  }

  /** The first state after a healthy one is always sent. */
  lemma FirstAfterHealthyNotifies<K>(interval: int, events: seq<Event<K>>, i: nat, j: nat)
    requires i < j < |events| && events[i].Healthy? && events[j].Seen?
    requires forall k :: i < k < j ==> events[k].Unrelated?
    ensures Notifies(interval, events, j)
  {
    NothingInForce(interval, events, i, j);
  }

  lemma {:induction false} NothingInForce<K>(interval: int, events: seq<Event<K>>, i: nat, j: nat)
    requires i < j <= |events| && events[i].Healthy?
    requires forall k :: i < k < j ==> events[k].Unrelated?
    ensures LastNotice(interval, events[..j]).None?
    decreases j
  {
    assert events[..j][..j - 1] == events[..j - 1];
    if i < j - 1 {
      NothingInForce(interval, events, i, j - 1);
    }
  }

  /** A notification is in force exactly when the last event about the state showed it. */
  lemma {:induction false} InForceIffLastSeen<K>(interval: int, events: seq<Event<K>>)
    ensures LastNotice(interval, events).Some? <==>
            exists i :: 0 <= i < |events| && events[i].Seen? && forall k :: i < k < |events| ==> events[k].Unrelated?
  {
    if events != [] {
      var n := |events| - 1;
      var before := events[..n];
      InForceIffLastSeen(interval, before);
      if events[n].Unrelated? {
        if LastNotice(interval, before).Some? {
          var i :| 0 <= i < |before| && before[i].Seen? && forall k :: i < k < |before| ==> before[k].Unrelated?;
          assert events[i].Seen? && forall k :: i < k < |events| ==> events[k].Unrelated?;
        }
        if i :| 0 <= i < |events| && events[i].Seen? && forall k :: i < k < |events| ==> events[k].Unrelated? {
          assert before[i].Seen? && forall k :: i < k < |before| ==> before[k].Unrelated?;
        }
      } else if events[n].Seen? {
        assert events[n].Seen?;
      }
    }
  }

  /** The tracker. A lastNotified of None is the zero time, further back than any interval. */
  class Tracker<K(==)> {
    const interval: int
    const zero: K
    var lastKey: K
    var lastNotified: Option<int>

    function Last(): Option<Notice<K>>
      reads this
    {
      if lastNotified.None? then None else Some(Notice(lastKey, lastNotified.value))
    }

    constructor (interval: int, zero: K)
      ensures this.interval == interval && this.zero == zero && Last() == None
    {
      this.interval, this.zero := interval, zero;
      lastKey, lastNotified := zero, None;
    }

    method ShouldNotify(key: K, now: int) returns (due: bool)
      ensures due <==> Due(Last(), interval, key, now)
    {
      due := key != lastKey || lastNotified.None? || now - lastNotified.value >= interval;
    }

    method Notified(key: K, now: int)
      modifies this
      ensures Last() == Some(Notice(key, now))
    {
      lastKey, lastNotified := key, Some(now);
    }

    method Reset()
      modifies this
      ensures Last() == None
    {
      lastKey, lastNotified := zero, None;
    }
  }
}
