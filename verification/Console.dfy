/** The diagnostic console: tails cut at a line, a writer paced by a token bucket, and a cycle that
    writes one section per producer. Bytes are characters. */
module Console {

  type Bytes = seq<char>

  // ---------------------------------------------------------------------------
  // Tails
  // ---------------------------------------------------------------------------

  /** Position p starts a line: the byte before it is a line feed, and there is something after it. */
  predicate StartsLine(buf: Bytes, p: int) {
    0 < p < |buf| && buf[p - 1] == '\n'
  }

  /** Where the tail of at most n bytes starts: the whole buffer if it fits, else the first line
      that starts inside the last n bytes, else those n bytes. */
  ghost predicate IsTailStart(buf: Bytes, n: nat, start: nat) {
    var head := |buf| - n;
    if head <= 0 then start == 0
    else if exists p :: head <= p < |buf| && StartsLine(buf, p) then
      head <= start && StartsLine(buf, start) && forall p :: head <= p < start ==> !StartsLine(buf, p)
    else start == head
  }

  ghost predicate IsTail(buf: Bytes, n: nat, out: Bytes) {
    |out| <= |buf| && out == buf[|buf| - |out|..] && IsTailStart(buf, n, |buf| - |out|)
  }

  method Tailx(buf: Bytes, n: nat) returns (out: Bytes)
    ensures IsTail(buf, n, out)
  {
    var head := if |buf| - n > 0 then |buf| - n else 0;
    if head == 0 {
      return buf;
    }
    var lf := head;
    while lf < |buf|
      invariant head <= lf <= |buf|
      invariant forall p :: head <= p < lf ==> !StartsLine(buf, p)
    {
      if buf[lf - 1] == '\n' {
        assert StartsLine(buf, lf);
        return buf[lf..];
      }
      lf := lf + 1;
    }
    return buf[head..];
  }

  /** A tail is no longer than asked for. If a line starts in the last n bytes, the tail is
      the whole buffer or starts at a line, and no longer suffix that fits does. */
  lemma TailIsTheLongestAtALine(buf: Bytes, n: nat, out: Bytes, p: nat)
    requires IsTail(buf, n, out)
    ensures |out| <= n
    ensures StartsLine(buf, p) && |buf| - p <= n ==> out == buf || (StartsLine(buf, |buf| - |out|) && |buf| - p <= |out|)
  {
    assert |out| == |buf| ==> buf[|buf| - |out|..] == buf;
  }

  /** Position p starts a line inside the last n bytes. */
  predicate StartsInWindow(buf: Bytes, n: nat, p: int) {
    |buf| - n <= p && StartsLine(buf, p)
  }

  /** A tail that was cut starts at the window's last line, as documented, exactly when just one line
      starts in the window. */
  lemma TailIsTheLastLineWhenThereIsOne(buf: Bytes, n: nat, start: nat)
    requires |buf| > n && IsTailStart(buf, n, start)
    ensures StartsInWindow(buf, n, start) && (forall p :: start < p ==> !StartsInWindow(buf, n, p)) <==>
            exists p :: StartsInWindow(buf, n, p) && forall q :: StartsInWindow(buf, n, q) ==> q == p
  {
    if p :| StartsInWindow(buf, n, p) && forall q :: StartsInWindow(buf, n, q) ==> q == p {
      assert StartsInWindow(buf, n, start);
    }
    if StartsInWindow(buf, n, start) && forall p :: start < p ==> !StartsInWindow(buf, n, p) {
      forall q | StartsInWindow(buf, n, q)
        ensures q == start
      {
      }
    }
  }

  /** A tail that was cut starts right after the first line feed that stands before a byte of the window
      and still has something after it; without such a line feed it is the whole window. */
  lemma TailFollowsALineFeed(buf: Bytes, n: nat, out: Bytes)
    requires IsTail(buf, n, out) && |buf| > n
    ensures var start, head := |buf| - |out|, |buf| - n;
            if '\n' in buf[head - 1..|buf| - 1] then buf[start - 1] == '\n' && '\n' !in buf[head - 1..start - 1]
            else |out| == n
  {
    var start, head := |buf| - |out|, |buf| - n;
    var window := buf[head - 1..|buf| - 1];
    if k :| 0 <= k < n && window[k] == '\n' {
      assert StartsLine(buf, head + k);
      var skipped := buf[head - 1..start - 1];
      forall j | 0 <= j < |skipped|
        ensures skipped[j] != '\n'
      {
        assert !StartsLine(buf, head + j);
      }
    } else {
      forall p | head <= p < |buf|
        ensures !StartsLine(buf, p)
      {
        assert window[p - head] != '\n';
      }
    }
  }

  /** Taking the tail of a tail changes nothing. */
  lemma TailOfATail(buf: Bytes, n: nat, out: Bytes, again: Bytes)
    requires IsTail(buf, n, out) && IsTail(out, n, again)
    ensures again == out
  {
    TailIsTheLongestAtALine(buf, n, out, 0);
  }

  // ---------------------------------------------------------------------------
  // The token bucket
  // ---------------------------------------------------------------------------

  const SECOND := 1_000_000_000

  /** One chunk: when the limiter let it through, how many bytes it asked for, and when the
      underlying write was made. */
  datatype Grant = Grant(at: int, bytes: nat, writtenAt: int)

  function Least(a: int, b: int): int {
    if a <= b then a else b
  }

  /** What is left in the bucket after the grants, in billionths of a byte. It fills at the rate up
      to the burst, and starts full. */
  function Level(rate: nat, burst: nat, grants: seq<Grant>): int {
    if grants == [] then burst * SECOND
    else
      var before, g := grants[..|grants| - 1], grants[|grants| - 1];
      var gained := if before == [] then 0 else rate * (g.at - before[|before| - 1].at);
      Least(burst * SECOND, Level(rate, burst, before) + gained) - g.bytes * SECOND
  }

  /** The limiter's contract: a grant is let through when the bucket holds its bytes. */
  ghost predicate Admitted(rate: nat, burst: nat, grants: seq<Grant>) {
    forall k :: 0 < k <= |grants| ==> Level(rate, burst, grants[..k]) >= 0
  }

  /** One write at a time: each is made after its grant and before the next is asked for. */
  ghost predicate InTurn(grants: seq<Grant>, chunk: nat) {
    && (forall k :: 0 <= k < |grants| ==> grants[k].at <= grants[k].writtenAt && grants[k].bytes <= chunk)
    && (forall j, k :: 0 <= j < k < |grants| ==> grants[j].writtenAt <= grants[k].at)
  }

  ghost predicate AllBefore(grants: seq<Grant>, now: int) {
    forall k :: 0 <= k < |grants| ==> grants[k].writtenAt <= now
  }

  lemma NextInTurn(grants: seq<Grant>, g: Grant, chunk: nat, now: int)
    requires InTurn(grants, chunk) && AllBefore(grants, now)
    requires now <= g.at <= g.writtenAt && g.bytes <= chunk
    ensures InTurn(grants + [g], chunk) && AllBefore(grants + [g], g.writtenAt)
  {
  }

  lemma TimePasses(grants: seq<Grant>, now: int, later: int)
    requires AllBefore(grants, now) && now <= later
    ensures AllBefore(grants, later)
  {
  }

  /** The bytes of grants i up to, not including, j. */
  function Total(grants: seq<Grant>, i: nat, j: nat): nat
    requires i <= j <= |grants|
    decreases j
  {
    if i == j then 0 else Total(grants, i, j - 1) + grants[j - 1].bytes
  }

  lemma {:induction false} LevelBoundsTheTotal(rate: nat, burst: nat, grants: seq<Grant>, i: nat, j: nat)
    requires i < j <= |grants|
    ensures Level(rate, burst, grants[..j]) + Total(grants, i, j) * SECOND
            <= burst * SECOND + rate * (grants[j - 1].at - grants[i].at)
    decreases j
  {
    var before := grants[..j - 1];
    assert grants[..j][..j - 1] == before;
    if i < j - 1 {
      LevelBoundsTheTotal(rate, burst, grants, i, j - 1);
      var a, b, c := grants[j - 1].at, grants[j - 2].at, grants[i].at;
      assert rate * (a - b) + rate * (b - c) == rate * (a - c);
    } else {
      assert rate * (grants[i].at - grants[i].at) == 0;
    }
  }

  /** However many chunks the limiter lets through in a window, they add up to at most the rate over
      the window plus one burst. */
  lemma GrantsAreBounded(rate: nat, burst: nat, grants: seq<Grant>, i: nat, j: nat)
    requires Admitted(rate, burst, grants) && i < j <= |grants|
    ensures Total(grants, i, j) * SECOND <= rate * (grants[j - 1].at - grants[i].at) + burst * SECOND
  {
    assert Level(rate, burst, grants[..j]) >= 0;
    LevelBoundsTheTotal(rate, burst, grants, i, j);
  }

  lemma {:induction false} TotalFromNext(grants: seq<Grant>, i: nat, j: nat)
    requires i < j <= |grants|
    ensures Total(grants, i, j) == grants[i].bytes + Total(grants, i + 1, j)
    decreases j
  {
    if i < j - 1 {
      TotalFromNext(grants, i, j - 1);
    }
  }

  /** The writes made in a window add up to at most the rate over the window, plus one burst, plus
      one chunk that was let through before the window and written in it. */
  lemma WritesAreBounded(rate: nat, burst: nat, chunk: nat, grants: seq<Grant>, i: nat, j: nat)
    requires Admitted(rate, burst, grants) && InTurn(grants, chunk) && i < j <= |grants|
    ensures Total(grants, i, j) * SECOND
            <= rate * (grants[j - 1].writtenAt - grants[i].writtenAt) + (burst + chunk) * SECOND
  {
    TotalFromNext(grants, i, j);
    if i < j - 1 {
      GrantsAreBounded(rate, burst, grants, i + 1, j);
      Scaled(rate, grants[j - 1].at - grants[i + 1].at, grants[j - 1].writtenAt - grants[i].writtenAt);
    } else {
      assert rate * (grants[i].writtenAt - grants[i].writtenAt) == 0;
    }
  }

  lemma Scaled(rate: nat, a: int, b: int)
    requires a <= b
    ensures rate * a <= rate * b
  {
  }

  /** Measured from when the window's first chunk was let through, the promised bound always holds. */
  lemma WritesAreBoundedFromTheFirstGrant(rate: nat, burst: nat, chunk: nat, grants: seq<Grant>, i: nat, j: nat)
    requires Admitted(rate, burst, grants) && InTurn(grants, chunk) && i < j <= |grants|
    ensures Total(grants, i, j) * SECOND <= rate * (grants[j - 1].writtenAt - grants[i].at) + burst * SECOND
  {
    GrantsAreBounded(rate, burst, grants, i, j);
    Scaled(rate, grants[j - 1].at - grants[i].at, grants[j - 1].writtenAt - grants[i].at);
  }

  /** Writes i up to j of a run of the paced writer, whose burst is one chunk, the first of them made
      some time after it was let through. */
  ghost predicate IsWindow(rate: nat, chunk: nat, grants: seq<Grant>, i: nat, j: nat, delay: nat) {
    && Admitted(rate, chunk, grants) && InTurn(grants, chunk)
    && i < j <= |grants| && grants[i].writtenAt - grants[i].at == delay
  }

  /** They add up to at most the rate over the window plus one chunk. */
  predicate KeepsThePromise(rate: nat, chunk: nat, grants: seq<Grant>, i: nat, j: nat)
    requires i < j <= |grants|
  {
    Total(grants, i, j) * SECOND <= rate * (grants[j - 1].writtenAt - grants[i].writtenAt) + chunk * SECOND
  }

  ghost predicate AlwaysKeepsThePromise(rate: nat, chunk: nat, delay: nat) {
    forall grants, i, j :: IsWindow(rate, chunk, grants, i, j, delay) ==> KeepsThePromise(rate, chunk, grants, i, j)
  }

  /** For a given delay of the first write, all windows keep the promised bound exactly when that delay
      is zero, or nothing ever refills the bucket. Some delayed windows keep it too. */
  lemma PromiseNeedsNoDelay(rate: nat, chunk: nat, delay: nat)
    requires chunk > 0
    ensures AlwaysKeepsThePromise(rate, chunk, delay) <==> delay == 0 || rate == 0
  {
    if delay == 0 || rate == 0 {
      forall grants, i, j | IsWindow(rate, chunk, grants, i, j, delay)
        ensures KeepsThePromise(rate, chunk, grants, i, j)
      {
        WritesAreBoundedFromTheFirstGrant(rate, chunk, chunk, grants, i, j);
      }
    } else {
      var grants := ExceedsAfterADelay(rate, chunk, delay);
      assert IsWindow(rate, chunk, grants, 0, 2, delay);
    }
  }

  /** A whole chunk is let through at once and written after the delay. In the meantime the bucket
      gained, so that one more byte follows sooner than the rate alone would let it. */
  lemma ExceedsAfterADelay(rate: nat, chunk: nat, delay: nat) returns (grants: seq<Grant>)
    requires rate > 0 && chunk > 0 && delay > 0
    ensures IsWindow(rate, chunk, grants, 0, 2, delay) && !KeepsThePromise(rate, chunk, grants, 0, 2)
  {
    var refilled := (SECOND + rate - 1) / rate;
    FirstByte(rate);
    var next := if delay >= refilled then delay else refilled;
    grants := [Grant(0, chunk, delay), Grant(next, 1, next)];
    assert grants[..1] == [grants[0]] && grants[..2] == grants;
    assert grants[..1][..0] == [] && grants[..2][..1] == grants[..1];
    assert Level(rate, chunk, grants[..1]) == 0;
    Scaled(rate, refilled, next);
    assert Level(rate, chunk, grants[..2]) == Least(chunk * SECOND, rate * next) - SECOND;
    assert chunk * SECOND >= SECOND;
    assert Total(grants, 0, 1) == chunk && Total(grants, 0, 2) == chunk + 1;
    Scaled(rate, next - delay, if delay >= refilled then 0 else refilled - 1);
  }

  /** The first byte after an empty bucket takes the time to gain it, rounded up. */
  lemma FirstByte(rate: nat)
    requires rate > 0
    ensures var refilled := (SECOND + rate - 1) / rate;
            refilled >= 1 && rate * refilled >= SECOND && rate * (refilled - 1) < SECOND
  {
    var refilled := (SECOND + rate - 1) / rate;
    assert SECOND + rate - 1 == refilled * rate + (SECOND + rate - 1) % rate;
    assert rate * refilled == refilled * rate;
    assert rate * (refilled - 1) == rate * refilled - rate;
  }

  /** The extra chunk is needed: a write delayed until the bucket is full again is followed at once
      by another. */
  lemma DelayedWriteDoublesTheBurst(rate: nat, chunk: nat)
    requires rate > 0 && chunk > 0
    ensures var grants := [Grant(0, chunk, chunk * SECOND), Grant(chunk * SECOND, chunk, chunk * SECOND)];
            && Admitted(rate, chunk, grants) && InTurn(grants, chunk)
            && grants[1].writtenAt == grants[0].writtenAt
            && Total(grants, 0, 2) == 2 * chunk
  {
    var grants := [Grant(0, chunk, chunk * SECOND), Grant(chunk * SECOND, chunk, chunk * SECOND)];
    assert grants[..1] == [grants[0]] && grants[..2] == grants;
    assert grants[..1][..0] == [] && grants[..2][..1] == grants[..1];
    assert Level(rate, chunk, grants[..1]) == 0;
    assert rate * (chunk * SECOND) >= chunk * SECOND;
  }

  // ---------------------------------------------------------------------------
  // The paced writer
  // ---------------------------------------------------------------------------

  /** What one chunk meets: the limiter may fail, or let it through after a wait; then the write
      takes a while and says how much it wrote. */
  datatype Reply = LimiterFails | Wrote(waited: nat, took: nat, n: nat, failed: bool)

  /** The contract of an underlying write of some length: a short write fails. */
  predicate Honest(r: Reply, length: nat) {
    r.Wrote? ==> r.n <= length && (r.n < length ==> r.failed)
  }

  class PacedWriter {
    const chunk: nat
    var delivered: Bytes         // what the underlying writer took
    ghost var grants: seq<Grant>
    ghost var now: int

    /** Writes are made one at a time, each of at most a chunk. */
    ghost predicate Valid()
      reads this
    {
      chunk > 0 && InTurn(grants, chunk) && AllBefore(grants, now)
    }

    constructor (chunk: nat)
      requires chunk > 0
      ensures Valid() && this.chunk == chunk && delivered == [] && grants == []
    {
      this.chunk, delivered, grants, now := chunk, [], [], 0;
    }

    /** Delivers exactly the prefix it reports, in chunks; short of it all only on an error. It is
        called some time after the last call returned. */
    method Write(p: Bytes, ghost idle: nat, reply: (nat, nat) -> Reply) returns (written: nat, failed: bool)
      requires Valid() && forall k, length :: Honest(reply(k, length), length)
      modifies this
      ensures Valid() && now >= old(now) + idle
      ensures written <= |p| && delivered == old(delivered) + p[..written]
      ensures !failed ==> written == |p|
      ensures old(grants) <= grants && forall k :: |old(grants)| <= k < |grants| ==> 0 < grants[k].bytes
      ensures written <= Total(grants, |old(grants)|, |grants|)
      ensures !failed ==> Total(grants, |old(grants)|, |grants|) == |p|
    {
      hide InTurn, AllBefore, Total;
      ghost var first := |grants|;
      TotalOfNone(grants);
      TimePasses(grants, now, now + idle);
      var calls := 0;
      written := 0;
      now := now + idle;
      while written < |p|
        invariant Valid() && now >= old(now) + idle
        invariant written <= |p| && delivered == old(delivered) + p[..written]
        invariant first <= |grants| && old(grants) == grants[..first]
        invariant forall k :: first <= k < |grants| ==> 0 < grants[k].bytes
        invariant Total(grants, first, |grants|) == written
        decreases |p| - written
      {
        var end := if written + chunk > |p| then |p| else written + chunk;
        var r := reply(calls, end - written);
        calls := calls + 1;
        if r.LimiterFails? {
          return written, true;
        }
        assert Honest(reply(calls - 1, end - written), end - written);
        ghost var grant := Grant(now + r.waited, end - written, now + r.waited + r.took);
        TotalOfMore(grants, grant, first);
        NextInTurn(grants, grant, chunk, now);
        grants, now := grants + [grant], grant.writtenAt;
        MoreTaken(old(delivered), p, written, written + r.n);
        delivered := delivered + p[written..written + r.n];
        written := written + r.n;
        if r.failed {
          return written, true;
        }
      }
      return written, false;
    }
  }

  lemma MoreTaken(before: Bytes, p: Bytes, a: nat, b: nat)
    requires a <= b <= |p|
    ensures before + p[..a] + p[a..b] == before + p[..b]
  {
  }

  lemma TotalOfNone(grants: seq<Grant>)
    ensures Total(grants, |grants|, |grants|) == 0
  {
  }

  lemma TotalOfMore(grants: seq<Grant>, g: Grant, i: nat)
    requires i <= |grants|
    ensures Total(grants + [g], i, |grants| + 1) == Total(grants, i, |grants|) + g.bytes
  {
    TotalOfPrefix(grants, g, i, |grants|);
  }

  lemma {:induction false} TotalOfPrefix(grants: seq<Grant>, g: Grant, i: nat, j: nat)
    requires i <= j <= |grants|
    ensures Total(grants + [g], i, j) == Total(grants, i, j)
    decreases j
  {
    if i < j {
      TotalOfPrefix(grants, g, i, j - 1);
    }
  }

  // ---------------------------------------------------------------------------
  // A cycle
  // ---------------------------------------------------------------------------

  const SECTION_MARKER := "NMA::LOG"

  /** One producer's turn: when it started, and what collecting gave (its output, or the notice in
      its place). */
  datatype Turn = Turn(name: string, timestamp: string, collected: Bytes)

  /** The text is the turn's section: its header, then a tail of what was collected. */
  ghost predicate IsSection(text: Bytes, t: Turn, sectionBytes: nat) {
    exists data :: IsTail(t.collected, sectionBytes, data) && text == SectionOf(t, data)
  }

  function SectionOf(t: Turn, data: Bytes): Bytes {
    SECTION_MARKER + "|" + t.timestamp + "|" + t.name + "\n" + data + "\n"
  }

  /** What is read back from a section's text. */
  datatype Section = Section(marker: Bytes, timestamp: Bytes, name: Bytes, data: Bytes)

  /** The text up to the first of a byte, and what follows it. */
  function Before(text: Bytes, c: char): Bytes {
    if text == [] || text[0] == c then [] else [text[0]] + Before(text[1..], c)
  }

  function Following(text: Bytes, c: char): Bytes {
    if text == [] then [] else if text[0] == c then text[1..] else Following(text[1..], c)
  }

  lemma {:induction false} CutAtTheFirst(x: Bytes, c: char, y: Bytes)
    requires c !in x
    ensures Before(x + [c] + y, c) == x && Following(x + [c] + y, c) == y
  {
    if x != [] {
      CutAtTheFirst(x[1..], c, y);
      assert (x + [c] + y)[1..] == x[1..] + [c] + y;
    } else {
      assert x + [c] + y == [c] + y;
    }
  }

  /** Reads a section: a header of three fields up to the first line feed, and all that follows but the
      line feed at the very end. */
  function ReadSection(text: Bytes): Section {
    var header, rest := Before(text, '\n'), Following(text, '\n');
    var fields := Following(header, '|');
    Section(Before(header, '|'), Before(fields, '|'), Following(fields, '|'),
            if rest == [] then [] else rest[..|rest| - 1])
  }

  /** Whatever was collected, a section's marker, timestamp, name and data are read back from its text. */
  lemma SectionReadsBack(t: Turn, data: Bytes)
    requires '\n' !in t.timestamp && '|' !in t.timestamp && '\n' !in t.name
    ensures ReadSection(SectionOf(t, data)) == Section("NMA::LOG", t.timestamp, t.name, data)
    ensures SectionOf(t, data)[|SectionOf(t, data)| - 1] == '\n'
  {
    var fields := t.timestamp + ['|'] + t.name;
    var header := "NMA::LOG" + ['|'] + fields;
    assert SectionOf(t, data) == header + ['\n'] + (data + ['\n']);
    CutAtTheFirst(header, '\n', data + ['\n']);
    CutAtTheFirst("NMA::LOG", '|', fields);
    CutAtTheFirst(t.timestamp, '|', t.name);
    hide SectionOf, Before, Following;
    assert (data + ['\n'])[..|data|] == data;
  }

  function Joined(texts: seq<Bytes>): Bytes {
    if texts == [] then [] else Joined(texts[..|texts| - 1]) + texts[|texts| - 1]
  }

  lemma JoinedNone()
    ensures Joined([]) == []
  {
  }

  lemma JoinedStep(texts: seq<Bytes>, text: Bytes)
    ensures Joined(texts + [text]) == Joined(texts) + text
  {
    assert (texts + [text])[..|texts|] == texts;
  }

  /** The first so many bytes of each text. */
  ghost function Prefixes(texts: seq<Bytes>, lengths: seq<nat>): (out: seq<Bytes>)
    requires |lengths| == |texts| && forall i :: 0 <= i < |texts| ==> lengths[i] <= |texts[i]|
    ensures |out| == |texts| && forall i :: 0 <= i < |texts| ==> out[i] == texts[i][..lengths[i]]
  {
    seq(|texts|, i requires 0 <= i < |texts| => texts[i][..lengths[i]])
  }

  lemma PrefixesStep(texts: seq<Bytes>, lengths: seq<nat>, text: Bytes, length: nat)
    requires |lengths| == |texts| && forall i :: 0 <= i < |texts| ==> lengths[i] <= |texts[i]|
    requires length <= |text|
    ensures forall i :: 0 <= i < |texts + [text]| ==> (lengths + [length])[i] <= |(texts + [text])[i]|
    ensures Joined(Prefixes(texts + [text], lengths + [length])) == Joined(Prefixes(texts, lengths)) + text[..length]
  {
    assert Prefixes(texts + [text], lengths + [length]) == Prefixes(texts, lengths) + [text[..length]];
    JoinedStep(Prefixes(texts, lengths), text[..length]);
  }

  lemma WholePrefixes(texts: seq<Bytes>, lengths: seq<nat>)
    requires |lengths| == |texts| && forall i :: 0 <= i < |texts| ==> lengths[i] == |texts[i]|
    ensures Prefixes(texts, lengths) == texts
  {
    assert forall i :: 0 <= i < |texts| ==> texts[i][..lengths[i]] == texts[i];
  }

  /** One cycle writes one section per producer, in order, whatever was collected and whether or not
      earlier writes failed. What is delivered is a prefix of each section, in order, and the whole
      of every section when no write failed. */
  method RunOnce(w: PacedWriter, turns: seq<Turn>, sectionBytes: nat, reply: (nat, nat, nat) -> Reply, ghost took: nat -> nat)
    returns (sections: seq<Bytes>, failures: nat, ghost taken: seq<nat>)
    requires w.Valid() && forall s, k, length :: Honest(reply(s, k, length), length)
    modifies w
    ensures w.Valid()
    ensures |sections| == |turns| && forall i :: 0 <= i < |turns| ==> IsSection(sections[i], turns[i], sectionBytes)
    ensures |taken| == |sections| && forall i :: 0 <= i < |taken| ==> taken[i] <= |sections[i]|
    ensures w.delivered == old(w.delivered) + Joined(Prefixes(sections, taken))
    ensures failures == 0 ==> w.delivered == old(w.delivered) + Joined(sections)
  {
    hide SectionOf, IsTail, Joined, Total, InTurn, AllBefore;
    sections, failures, taken := [], 0, [];
    assert Prefixes(sections, taken) == [];
    assert Joined([]) == [] by { JoinedNone(); }
    for i := 0 to |turns|
      invariant w.Valid()
      invariant |sections| == i && forall k :: 0 <= k < i ==> IsSection(sections[k], turns[k], sectionBytes)
      invariant |taken| == |sections| && forall k :: 0 <= k < |taken| ==> taken[k] <= |sections[k]|
      invariant w.delivered == old(w.delivered) + Joined(Prefixes(sections, taken))
      invariant failures == 0 ==> forall k :: 0 <= k < |taken| ==> taken[k] == |sections[k]|
    {
      var t := turns[i];
      var data := Tailx(t.collected, sectionBytes);
      var text := SectionOf(t, data);
      assert IsSection(text, t, sectionBytes);
      var written, failed := w.Write(text, took(i), (k: nat, length: nat) => reply(i, k, length));
      if failed {
        failures := failures + 1;
      }
      PrefixesStep(sections, taken, text, written);
      sections, taken := sections + [text], taken + [written];
    }
    if failures == 0 {
      WholePrefixes(sections, taken);
    }
  }
}
