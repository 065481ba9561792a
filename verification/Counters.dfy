/** Growth of a driver counter between polls: what a baseline stands for, and what the reported
    growth adds up to over whole runs. */
module Counters {
  import opened Monitor

  const U64 := 0x1_0000_0000_0000_0000
  const MAX_UINT32 := 0xFFFF_FFFF

  type u64 = x: int | 0 <= x < U64

  /** The result of one driver call; ok is false when the value was not observed. */
  datatype Reading = Reading(value: u64, ok: bool)

  const UNREAD := Reading(0, false)

  /** What one poll does about one counter: nothing was read, its GPU was lost, or a reading. */
  datatype Poll = Skipped | Lost | Read(r: Reading)

  datatype CounterKey = CounterKey(gpu: nat, field: nat)

  type Baselines = map<CounterKey, u64>

  function Held(base: Baselines, key: CounterKey): Option<u64> {
    if key in base then Some(base[key]) else None
  }

  /** What one poll makes of a baseline. */
  function Advance(base: Option<u64>, p: Poll): Option<u64> {
    match p
    case Skipped => base
    case Lost => None
    case Read(r) => if r.ok then Some(r.value) else None
  }

  /** The last reading, unless something since made it unusable. */
  function Baseline(polls: seq<Poll>): Option<u64> {
    if polls == [] then None else Advance(Baseline(polls[..|polls| - 1]), polls[|polls| - 1])
  }

  /** How much the counter grew since its baseline; None when it is not known. A drop is a counter
      reset, and no growth. */
  function Growth(base: Option<u64>, r: Reading): Option<u64> {
    if !r.ok || base.None? then None
    else if r.value < base.value then Some(0)
    else Some(r.value - base.value)
  }

  function Drop(base: Option<u64>, r: Reading): int {
    if r.ok && base.Some? && r.value < base.value then base.value - r.value else 0
  }

  /** All the growth a run of polls reports. */
  function TotalGrowth(polls: seq<Poll>): int {
    if polls == [] then 0
    else
      var before, p := polls[..|polls| - 1], polls[|polls| - 1];
      TotalGrowth(before) +
      if p.Read? && Growth(Baseline(before), p.r).Some? then Growth(Baseline(before), p.r).value else 0
  }

  /** The sizes of all the drops a run of polls saw. */
  function TotalDrop(polls: seq<Poll>): int {
    if polls == [] then 0
    else
      var before, p := polls[..|polls| - 1], polls[|polls| - 1];
      TotalDrop(before) + if p.Read? then Drop(Baseline(before), p.r) else 0
  }

  /** The counter is observed in every poll that read anything, and its GPU never lost. */
  ghost predicate AlwaysObserved(polls: seq<Poll>) {
    forall i :: 0 <= i < |polls| ==> polls[i].Skipped? || (polls[i].Read? && polls[i].r.ok)
  }

  ghost predicate IsFirstRead(polls: seq<Poll>, i: int) {
    0 <= i < |polls| && polls[i].Read? && forall k :: 0 <= k < i ==> polls[k].Skipped?
  }

  ghost predicate IsLastRead(polls: seq<Poll>, j: int) {
    0 <= j < |polls| && polls[j].Read? && forall k :: j < k < |polls| ==> polls[k].Skipped?
  }

  lemma BaselineStep(polls: seq<Poll>, p: Poll)
    ensures Baseline(polls + [p]) == Advance(Baseline(polls), p)
  {
    PrefixOfExtension(polls, p);
  }

  lemma {:induction false} SkippedKeepsBaseline(polls: seq<Poll>, j: nat)
    requires j <= |polls| && forall k :: j <= k < |polls| ==> polls[k].Skipped?
    ensures Baseline(polls) == Baseline(polls[..j])
    decreases |polls|
  {
    if j < |polls| {
      SkippedKeepsBaseline(polls[..|polls| - 1], j);
      assert polls[..|polls| - 1][..j] == polls[..j];
    } else {
      assert polls[..j] == polls;
    }
  }

  /** Nothing is lost between polls: the growth reported, less the drops, is the last reading less
      the first, however many polls in between read nothing. */
  lemma {:induction false} GrowthIsConserved(polls: seq<Poll>, i: nat, j: nat)
    requires AlwaysObserved(polls) && IsFirstRead(polls, i) && IsLastRead(polls, j)
    ensures TotalGrowth(polls) - TotalDrop(polls) == polls[j].r.value - polls[i].r.value
    decreases |polls|
  {
    var n := |polls| - 1;
    var before, p := polls[..n], polls[n];
    if i == n {
      SkippedKeepsBaseline(before, 0);
      assert before[..0] == [];
      NothingReadNothingGrown(before);
    } else if p.Skipped? {
      GrowthIsConserved(before, i, j);
    } else {
      var k := LastReadBefore(before, i);
      GrowthIsConserved(before, i, k);
      SkippedKeepsBaseline(before, k + 1);
      assert before[..k + 1] == before[..k] + [before[k]];
      BaselineStep(before[..k], before[k]);
    }
  }

  lemma {:induction false} NothingReadNothingGrown(polls: seq<Poll>)
    requires forall k :: 0 <= k < |polls| ==> polls[k].Skipped?
    ensures TotalGrowth(polls) == 0 && TotalDrop(polls) == 0
  {
    if polls != [] {
      NothingReadNothingGrown(polls[..|polls| - 1]);
    }
  }

  lemma LastReadBefore(polls: seq<Poll>, i: nat) returns (k: nat)
    requires AlwaysObserved(polls) && i < |polls| && polls[i].Read?
    ensures i <= k && IsLastRead(polls, k)
  {
    k := |polls| - 1;
    while !polls[k].Read?
      invariant i <= k < |polls| && forall m :: k < m < |polls| ==> polls[m].Skipped?
      decreases k
    {
      k := k - 1;
    }
  }

  /** Growth is reported at j exactly when j and the last poll before it that did anything both
      observed the counter: a failed read or a lost GPU costs two fresh readings. It is measured
      from that poll's reading. */
  lemma GrowthNeedsTwoReadings(polls: seq<Poll>, r: Reading)
    ensures Growth(Baseline(polls), r).Some? <==>
            r.ok && exists i :: IsLastEvent(polls, i) && polls[i].Read? && polls[i].r.ok
    ensures forall i :: IsLastEvent(polls, i) && polls[i].Read? && polls[i].r.ok && r.ok ==>
              Growth(Baseline(polls), r).value == if r.value < polls[i].r.value then 0 else r.value - polls[i].r.value
  {
    BaselineIsLastReading(polls);
  }

  ghost predicate IsLastEvent(polls: seq<Poll>, i: int) {
    0 <= i < |polls| && !polls[i].Skipped? && forall k :: i < k < |polls| ==> polls[k].Skipped?
  }

  lemma BaselineIsLastReading(polls: seq<Poll>)
    ensures Baseline(polls).Some? <==> exists i :: IsLastEvent(polls, i) && polls[i].Read? && polls[i].r.ok
    ensures forall i :: IsLastEvent(polls, i) && polls[i].Read? && polls[i].r.ok ==> Baseline(polls) == Some(polls[i].r.value)
  {
    forall i | IsLastEvent(polls, i)
      ensures Baseline(polls) == if polls[i].Read? && polls[i].r.ok then Some(polls[i].r.value) else None
    {
      SkippedKeepsBaseline(polls, i + 1);
      assert polls[..i + 1] == polls[..i] + [polls[i]];
      BaselineStep(polls[..i], polls[i]);
    }
    if Baseline(polls).Some? {
      var i := SomeEvent(polls);
    }
  }

  lemma {:induction false} SomeEvent(polls: seq<Poll>) returns (i: int)
    requires Baseline(polls).Some?
    ensures IsLastEvent(polls, i)
  {
    if polls[|polls| - 1].Skipped? {
      i := SomeEvent(polls[..|polls| - 1]);
    } else {
      i := |polls| - 1;
    }
  }

  // ---------------------------------------------------------------------------
  // The policy counters: out of range counts as not read
  // ---------------------------------------------------------------------------

  predicate InRange(r: Reading) {
    r.ok && r.value <= MAX_UINT32
  }

  /** A reading as the policy counters take it. */
  function Policed(p: Poll): Poll {
    if p.Read? && !InRange(p.r) then Read(UNREAD) else p
  }
}
