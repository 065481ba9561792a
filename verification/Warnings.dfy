/** Suppression of repeated warnings: the set of selected warnings is one state, whatever order
    and however often a poll lists them. */
module Warnings {
  import opened Monitor
  import opened Renotify

  // ---------------------------------------------------------------------------
  // The canonical form of a list of keys
  // ---------------------------------------------------------------------------

  /** Lexicographic order of strings. */
  predicate Less(a: string, b: string) {
    b != [] && (a == [] || a[0] < b[0] || (a[0] == b[0] && Less(a[1..], b[1..])))
  }

  lemma {:induction false} LessIsTotal(a: string, b: string)
    ensures Less(a, b) || a == b || Less(b, a)
    ensures !(Less(a, b) && Less(b, a)) && !Less(a, a)
  {
    if a != [] && b != [] && a[0] == b[0] {
      LessIsTotal(a[1..], b[1..]);
      assert a == [a[0]] + a[1..] && b == [b[0]] + b[1..];
    }
    if a != [] {
      LessIsTotal(a[1..], a[1..]);
    }
  }

  lemma {:induction false} LessIsTransitive(a: string, b: string, c: string)
    requires Less(a, b) && Less(b, c)
    ensures Less(a, c)
  {
    if a != [] && a[0] == b[0] && b[0] == c[0] {
      LessIsTransitive(a[1..], b[1..], c[1..]);
    }
  }

  lemma NotLessIsTransitive(a: string, b: string, c: string)
    requires !Less(b, a) && !Less(c, b)
    ensures !Less(c, a)
  {
    LessIsTotal(a, b);
    LessIsTotal(b, c);
    LessIsTotal(a, c);
    if a != b && b != c {
      LessIsTransitive(a, b, c);
    }
  }

  function Insert(k: string, ks: seq<string>): seq<string> {
    if ks == [] || !Less(ks[0], k) then [k] + ks else [ks[0]] + Insert(k, ks[1..])
  }

  /** The keys in order, each as often as it is listed. */
  function Sort(ks: seq<string>): seq<string> {
    if ks == [] then [] else Insert(ks[0], Sort(ks[1..]))
  }

  /** Each run of equal keys reduced to one. */
  function Compact(ks: seq<string>): seq<string> {
    if |ks| < 2 then ks
    else if ks[0] == ks[1] then Compact(ks[1..])
    else [ks[0]] + Compact(ks[1..])
  }

  ghost predicate Ascending(ks: seq<string>) {
    forall i, j :: 0 <= i < j < |ks| ==> !Less(ks[j], ks[i])
  }

  ghost predicate StrictlyAscending(ks: seq<string>) {
    forall i, j :: 0 <= i < j < |ks| ==> Less(ks[i], ks[j])
  }

  ghost predicate SameElements(a: seq<string>, b: seq<string>) {
    forall k :: k in a <==> k in b
  }

  lemma {:induction false} InsertSorts(k: string, ks: seq<string>)
    requires Ascending(ks)
    ensures Ascending(Insert(k, ks))
    ensures multiset(Insert(k, ks)) == multiset(ks) + multiset{k}
  {
    if ks == [] || !Less(ks[0], k) {
      var r := [k] + ks;
      forall i, j | 0 <= i < j < |r|
        ensures !Less(r[j], r[i])
      {
        if i == 0 && j > 1 {
          NotLessIsTransitive(k, ks[0], ks[j - 1]);
        }
      }
    } else {
      InsertSorts(k, ks[1..]);
      assert ks == [ks[0]] + ks[1..];
      var tail := Insert(k, ks[1..]);
      forall j | 0 <= j < |tail|
        ensures !Less(tail[j], ks[0])
      {
        assert tail[j] in multiset(tail);
        LessIsTotal(ks[0], k);
      }
    }
  }

  lemma {:induction false} SortSorts(ks: seq<string>)
    ensures Ascending(Sort(ks))
    ensures multiset(Sort(ks)) == multiset(ks)
  {
    hide Insert, Less;
    if ks != [] {
      SortSorts(ks[1..]);
      InsertSorts(ks[0], Sort(ks[1..]));
      assert ks == [ks[0]] + ks[1..];
    }
  }

  lemma {:induction false} CompactIsStrict(ks: seq<string>)
    requires Ascending(ks)
    ensures StrictlyAscending(Compact(ks))
    ensures SameElements(Compact(ks), ks)
    ensures ks != [] ==> Compact(ks) != [] && Compact(ks)[0] == ks[0]
  {
    if |ks| >= 2 {
      var rest, c := ks[1..], Compact(ks[1..]);
      CompactIsStrict(rest);
      assert ks == [ks[0]] + rest;
      if ks[0] != ks[1] {
        LessIsTotal(ks[0], ks[1]);
        forall j | 0 <= j < |c|
          ensures Less(ks[0], c[j])
        {
          if j > 0 {
            LessIsTransitive(ks[0], c[0], c[j]);
          }
        }
      }
    }
  }

  lemma {:induction false} StrictlyAscendingIsUnique(a: seq<string>, b: seq<string>)
    requires StrictlyAscending(a) && StrictlyAscending(b) && SameElements(a, b)
    ensures a == b
  {
    assert (a != [] ==> a[0] in a) && (b != [] ==> b[0] in b);
    if a != [] {
      FirstIsLeast(a, b[0]);
      FirstIsLeast(b, a[0]);
      LessIsTotal(a[0], b[0]);
      assert a[0] == b[0];
      forall k
        ensures k in a[1..] <==> k in b[1..]
      {
        TailLacksHead(a, k);
        TailLacksHead(b, k);
      }
      StrictlyAscendingIsUnique(a[1..], b[1..]);
      assert a == [a[0]] + a[1..] && b == [b[0]] + b[1..];
    }
  }

  lemma FirstIsLeast(a: seq<string>, k: string)
    requires StrictlyAscending(a) && k in a
    ensures a[0] == k || Less(a[0], k)
  {
  }

  lemma TailLacksHead(a: seq<string>, k: string)
    requires StrictlyAscending(a) && a != []
    ensures k in a[1..] <==> k in a && k != a[0]
  {
    LessIsTotal(a[0], a[0]);
    assert a == [a[0]] + a[1..];
  }

  /** The tracked key list: sorted, without duplicates. */
  function Canonical(ks: seq<string>): seq<string> {
    Compact(Sort(ks))
  }

  lemma CanonicalIsTheSet(ks: seq<string>)
    ensures StrictlyAscending(Canonical(ks)) && SameElements(Canonical(ks), ks)
  {
    SortSorts(ks);
    CompactIsStrict(Sort(ks));
    assert forall k :: k in Sort(ks) <==> k in multiset(Sort(ks));
    assert forall k :: k in ks <==> k in multiset(ks);
  }

  /** Two lists have the same canonical form exactly when they hold the same keys, in any order
      and any number of times. */
  lemma CanonicalIgnoresOrderAndCopies(a: seq<string>, b: seq<string>)
    ensures Canonical(a) == Canonical(b) <==> SameElements(a, b)
  {
    CanonicalIsTheSet(a);
    CanonicalIsTheSet(b);
    if SameElements(a, b) {
      StrictlyAscendingIsUnique(Canonical(a), Canonical(b));
    }
  }

  // ---------------------------------------------------------------------------
  // One key for a set of warnings
  // ---------------------------------------------------------------------------

  function JoinLines(parts: seq<string>): string {
    if parts == [] then ""
    else if |parts| == 1 then parts[0]
    else parts[0] + "\n" + JoinLines(parts[1..])
  }

  function KeyOf(c: Condition): string {
    c.reason + "\0" + c.message
  }

  predicate IsSelected(c: Condition, selected: Condition -> bool) {
    c.severity.Warning? && selected(c)
  }

  function SelectedKeys(conds: seq<Condition>, selected: Condition -> bool): seq<string> {
    if conds == [] then []
    else
      SelectedKeys(conds[..|conds| - 1], selected) +
      if IsSelected(conds[|conds| - 1], selected) then [KeyOf(conds[|conds| - 1])] else []
  }

  lemma SelectedKeysStep(conds: seq<Condition>, c: Condition, selected: Condition -> bool)
    ensures SelectedKeys(conds + [c], selected) ==
            SelectedKeys(conds, selected) + if IsSelected(c, selected) then [KeyOf(c)] else []
  {
    PrefixOfExtension(conds, c);
  }

  function SetKey(conds: seq<Condition>, selected: Condition -> bool): string {
    JoinLines(Canonical(SelectedKeys(conds, selected)))
  }

  ghost predicate NoBreaks(ks: seq<string>) {
    forall k :: k in ks ==> '\n' !in k
  }

  /** What the next line break of a joined text ends. */
  lemma FirstLineIsUnique(x: string, y: string, s: string, t: string)
    requires '\n' !in x && '\n' !in y && x + "\n" + s == y + "\n" + t
    ensures x == y && s == t
  {
    var u, v := x + "\n" + s, y + "\n" + t;
    assert u[|x|] == '\n' && v[|y|] == '\n';
    forall i | 0 <= i < |x|
      ensures u[i] != '\n'
    {
      assert u[i] == x[i] && x[i] in x;
    }
    forall i | 0 <= i < |y|
      ensures v[i] != '\n'
    {
      assert v[i] == y[i] && y[i] in y;
    }
    assert x == u[..|x|] && y == v[..|y|] && s == u[|x| + 1..] && t == v[|y| + 1..];
  }

  /** While no key holds a line break, the joined text tells the key lists apart. */
  lemma {:induction false} JoinTellsListsApart(a: seq<string>, b: seq<string>)
    requires a != [] && b != [] && JoinLines(a) == JoinLines(b)
    requires forall k :: k in a || k in b ==> '\n' !in k
    ensures a == b
  {
    JoinBreaksBetween(a);
    JoinBreaksBetween(b);
    if |a| > 1 {
      FirstLineIsUnique(a[0], b[0], JoinLines(a[1..]), JoinLines(b[1..]));
      JoinTellsListsApart(a[1..], b[1..]);
      assert a == [a[0]] + a[1..] && b == [b[0]] + b[1..];
    }
  }

  lemma JoinBreaksBetween(a: seq<string>)
    requires a != [] && forall k :: k in a ==> '\n' !in k
    ensures '\n' in JoinLines(a) <==> |a| > 1
  {
    if |a| > 1 {
      assert JoinLines(a)[|a[0]|] == '\n';
    }
  }

  /** A text is cut in two in one way at the last of a character. */
  lemma LastCutIsUnique(x: string, y: string, c: char, s: string, t: string)
    requires c !in s && c !in t && x + [c] + s == y + [c] + t
    ensures x == y && s == t
  {
    var u, v := x + [c] + s, y + [c] + t;
    assert u[|x|] == c && v[|y|] == c;
    forall i | |x| < i < |u|
      ensures u[i] != c
    {
      assert u[i] == s[i - |x| - 1] && s[i - |x| - 1] in s;
    }
    forall i | |y| < i < |v|
      ensures v[i] != c
    {
      assert v[i] == t[i - |y| - 1] && t[i - |y| - 1] in t;
    }
    assert x == u[..|x|] && y == v[..|y|] && s == u[|x| + 1..] && t == v[|y| + 1..];
  }

  predicate IsSplit(key: string, reason: string, message: string) {
    key == reason + "\0" + message && '\n' !in reason && '\0' !in reason && '\0' !in message
  }

  /** The key of a warning whose reason holds no line break and no NUL, and whose message no NUL. */
  ghost predicate IsPlain(key: string) {
    exists reason: string, message: string :: IsSplit(key, reason, message)
  }

  ghost predicate AllPlain(ks: seq<string>) {
    forall k :: k in ks ==> IsPlain(k)
  }

  lemma {:induction false} JoinedAtTheLast(a: seq<string>)
    requires |a| > 1
    ensures JoinLines(a) == JoinLines(a[..|a| - 1]) + "\n" + a[|a| - 1]
  {
    var rest := a[1..];
    if |rest| > 1 {
      JoinedAtTheLast(rest);
      assert rest[..|rest| - 1] == a[..|a| - 1][1..];
    } else {
      assert a[..1] == [a[0]];
    }
  }

  /** The joined text of plain keys: what stands before its last NUL holds a line break exactly when
      there are several, and is then the text of all but the last, a break, and the last one's reason. */
  lemma PlainJoinEnds(a: seq<string>) returns (before: string, reason: string, message: string)
    requires a != [] && AllPlain(a)
    ensures IsSplit(a[|a| - 1], reason, message) && JoinLines(a) == before + "\0" + message
    ensures before == if |a| == 1 then reason else JoinLines(a[..|a| - 1]) + "\n" + reason
    ensures '\n' in before <==> |a| > 1
  {
    var last := a[|a| - 1];
    assert last in a;
    reason, message :| IsSplit(last, reason, message);
    before := if |a| == 1 then reason else JoinLines(a[..|a| - 1]) + "\n" + reason;
    if |a| > 1 {
      JoinedAtTheLast(a);
      assert JoinLines(a) == before + "\0" + message;
      assert before[|JoinLines(a[..|a| - 1])|] == '\n';
    }
  }

  lemma AllPlainBefore(a: seq<string>)
    requires a != [] && AllPlain(a)
    ensures AllPlain(a[..|a| - 1])
  {
  }

  lemma PlainJoinsEndAlike(a: seq<string>, b: seq<string>)
    requires a != [] && b != [] && AllPlain(a) && AllPlain(b) && JoinLines(a) == JoinLines(b)
    ensures a[|a| - 1] == b[|b| - 1] && (|a| > 1 <==> |b| > 1)
    ensures |a| > 1 ==> JoinLines(a[..|a| - 1]) == JoinLines(b[..|b| - 1])
  {
    hide JoinLines, AllPlain;
    var x, r, m := PlainJoinEnds(a);
    var y, q, n := PlainJoinEnds(b);
    LastCutIsUnique(x, y, '\0', m, n);
    if |a| > 1 {
      LastCutIsUnique(JoinLines(a[..|a| - 1]), JoinLines(b[..|b| - 1]), '\n', r, q);
    }
  }

  /** The joined text tells lists of plain keys apart, line breaks in messages included. */
  lemma {:induction false} JoinTellsPlainListsApart(a: seq<string>, b: seq<string>)
    requires a != [] && b != [] && AllPlain(a) && AllPlain(b) && JoinLines(a) == JoinLines(b)
    ensures a == b
    decreases |a|
  {
    hide JoinLines, AllPlain;
    PlainJoinsEndAlike(a, b);
    var a', b' := a[..|a| - 1], b[..|b| - 1];
    if |a| > 1 {
      AllPlainBefore(a);
      AllPlainBefore(b);
      JoinTellsPlainListsApart(a', b');
    }
    assert a == a' + [a[|a| - 1]] && b == b' + [b[|b| - 1]];
  }

  /** Reasons hold no line break and no NUL, and messages no NUL, among the selected warnings. */
  predicate PlainWarnings(conds: seq<Condition>, selected: Condition -> bool) {
    forall i :: 0 <= i < |conds| && IsSelected(conds[i], selected) ==>
      '\n' !in conds[i].reason && '\0' !in conds[i].reason && '\0' !in conds[i].message
  }

  lemma {:induction false} PlainWarningsHavePlainKeys(conds: seq<Condition>, selected: Condition -> bool)
    requires PlainWarnings(conds, selected)
    ensures AllPlain(SelectedKeys(conds, selected))
  {
    if conds != [] {
      var before, c := conds[..|conds| - 1], conds[|conds| - 1];
      PlainWarningsHavePlainKeys(before, selected);
      if IsSelected(c, selected) {
        assert IsSplit(KeyOf(c), c.reason, c.message);
      }
    }
  }

  /** Some selected warning has the reason and the message. */
  predicate Holds(conds: seq<Condition>, reason: string, message: string, selected: Condition -> bool) {
    exists i :: 0 <= i < |conds| && IsWarningOf(conds[i], reason, message, selected)
  }

  predicate IsWarningOf(c: Condition, reason: string, message: string, selected: Condition -> bool) {
    c.severity == Warning && selected(c) && c.reason == reason && c.message == message
  }

  /** The same warnings are selected, by reason and message. */
  ghost predicate SameWarnings(a: seq<Condition>, b: seq<Condition>, selected: Condition -> bool) {
    forall reason, message :: Holds(a, reason, message, selected) <==> Holds(b, reason, message, selected)
  }

  lemma {:induction false} KeysAreTheWarnings(conds: seq<Condition>, selected: Condition -> bool, key: string)
    ensures key in SelectedKeys(conds, selected) <==>
            exists reason, message :: Holds(conds, reason, message, selected) && key == reason + "\0" + message
  {
    if conds != [] {
      var before, c := conds[..|conds| - 1], conds[|conds| - 1];
      KeysAreTheWarnings(before, selected, key);
      forall reason, message
        ensures Holds(conds, reason, message, selected) <==>
                Holds(before, reason, message, selected) || IsWarningOf(c, reason, message, selected)
      {
        assert IsWarningOf(c, reason, message, selected) ==> Holds(conds, reason, message, selected);
        if i :| 0 <= i < |before| && IsWarningOf(before[i], reason, message, selected) {
          assert IsWarningOf(conds[i], reason, message, selected);
        }
      }
      if IsSelected(c, selected) {
        assert IsWarningOf(c, c.reason, c.message, selected);
      }
    }
  }

  lemma PlainKeyIsItsWarning(conds: seq<Condition>, selected: Condition -> bool, reason: string, message: string)
    requires PlainWarnings(conds, selected) && '\0' !in message
    ensures reason + "\0" + message in SelectedKeys(conds, selected) <==> Holds(conds, reason, message, selected)
  {
    var key := reason + "\0" + message;
    KeysAreTheWarnings(conds, selected, key);
    if r, m :| Holds(conds, r, m, selected) && key == r + "\0" + m {
      LastCutIsUnique(reason, r, '\0', message, m);
    }
  }

  /** For plain warnings, the keys are the same exactly when the warnings are. */
  lemma PlainKeysAreTheWarnings(a: seq<Condition>, b: seq<Condition>, selected: Condition -> bool)
    requires PlainWarnings(a, selected) && PlainWarnings(b, selected)
    ensures SameElements(SelectedKeys(a, selected), SelectedKeys(b, selected)) <==> SameWarnings(a, b, selected)
  {
    hide SelectedKeys;
    if SameElements(SelectedKeys(a, selected), SelectedKeys(b, selected)) {
      forall reason, message
        ensures Holds(a, reason, message, selected) <==> Holds(b, reason, message, selected)
      {
        if '\0' !in message {
          PlainKeyIsItsWarning(a, selected, reason, message);
          PlainKeyIsItsWarning(b, selected, reason, message);
        }
      }
    }
    if SameWarnings(a, b, selected) {
      forall key
        ensures key in SelectedKeys(a, selected) <==> key in SelectedKeys(b, selected)
      {
        KeysAreTheWarnings(a, selected, key);
        KeysAreTheWarnings(b, selected, key);
      }
    }
  }

  /** Two sets of plain warnings have the same key exactly when they are the same warnings. */
  lemma PlainSetsHaveTheirOwnKeys(a: seq<Condition>, b: seq<Condition>, selected: Condition -> bool)
    requires PlainWarnings(a, selected) && PlainWarnings(b, selected)
    ensures SetKey(a, selected) == SetKey(b, selected) <==> SameWarnings(a, b, selected)
    ensures SameWarnings(a, b, selected) <==> SameElements(SelectedKeys(a, selected), SelectedKeys(b, selected))
  {
    PlainKeysAreTheWarnings(a, b, selected);
    PlainSetsHaveTheirOwnText(a, b, selected);
  }

  lemma PlainSetsHaveTheirOwnText(a: seq<Condition>, b: seq<Condition>, selected: Condition -> bool)
    requires PlainWarnings(a, selected) && PlainWarnings(b, selected)
    ensures SetKey(a, selected) == SetKey(b, selected) <==> SameElements(SelectedKeys(a, selected), SelectedKeys(b, selected))
  {
    var ka, kb := SelectedKeys(a, selected), SelectedKeys(b, selected);
    PlainWarningsHavePlainKeys(a, selected);
    PlainWarningsHavePlainKeys(b, selected);
    CanonicalIgnoresOrderAndCopies(ka, kb);
    CanonicalIsTheSet(ka);
    CanonicalIsTheSet(kb);
    var ca, cb := Canonical(ka), Canonical(kb);
    assert AllPlain(ca) && AllPlain(cb);
    hide SelectedKeys, Canonical, SameElements, StrictlyAscending;
    PlainTextIsEmptyForNone(ca);
    PlainTextIsEmptyForNone(cb);
    if JoinLines(ca) == JoinLines(cb) && ca != [] {
      JoinTellsPlainListsApart(ca, cb);
    }
  }

  lemma PlainTextIsEmptyForNone(a: seq<string>)
    requires AllPlain(a)
    ensures JoinLines(a) == "" <==> a == []
  {
    if a != [] {
      var before, reason, message := PlainJoinEnds(a);
    }
  }

  /** Lists of selected warnings with the same keys, in any order and any number of times, are one
      state. Lists with different keys are different states when all are plain, or none of their
      keys holds a line break. */
  lemma SetKeyStandsForTheSet(a: seq<Condition>, b: seq<Condition>, selected: Condition -> bool)
    ensures SameElements(SelectedKeys(a, selected), SelectedKeys(b, selected)) ==>
              SetKey(a, selected) == SetKey(b, selected)
    ensures
      AreLegible(a, b, selected) && SetKey(a, selected) == SetKey(b, selected) ==>
        SameElements(SelectedKeys(a, selected), SelectedKeys(b, selected))
  {
    var ka, kb := SelectedKeys(a, selected), SelectedKeys(b, selected);
    CanonicalIgnoresOrderAndCopies(ka, kb);
    CanonicalIsTheSet(ka);
    CanonicalIsTheSet(kb);
    if AreLegible(a, b, selected) && SetKey(a, selected) == SetKey(b, selected) {
      if PlainWarnings(a, selected) && PlainWarnings(b, selected) {
        PlainSetsHaveTheirOwnKeys(a, b, selected);
      } else {
        assert ka[0] in Canonical(ka) && kb[0] in Canonical(kb);
        JoinTellsListsApart(Canonical(ka), Canonical(kb));
      }
    }
  }

  /** Two lists of selected warnings that cannot be mistaken for one another: all plain, or all keys
      without a line break. */
  ghost predicate AreLegible(a: seq<Condition>, b: seq<Condition>, selected: Condition -> bool) {
    var ka, kb := SelectedKeys(a, selected), SelectedKeys(b, selected);
    || (PlainWarnings(a, selected) && PlainWarnings(b, selected))
    || (ka != [] && kb != [] && NoBreaks(ka) && NoBreaks(kb))
  }

  // ---------------------------------------------------------------------------
  // Exactly which sets share their key
  // ---------------------------------------------------------------------------

  /** Whether a warning is selected goes by its reason, as the callers have it. */
  ghost predicate SelectsByReason(selected: Condition -> bool) {
    forall c: Condition, d: Condition ::
      c.severity.Warning? && d.severity.Warning? && c.reason == d.reason ==> selected(c) == selected(d)
  }

  /** The warning whose reason ends at p. */
  function WarningAt(key: string, p: nat): Condition
    requires p < |key|
  {
    Condition(key[..p], key[p + 1..], Warning, 0, false)
  }

  predicate EndsAReason(key: string, p: nat, selected: Condition -> bool) {
    p < |key| && key[p] == '\0' && selected(WarningAt(key, p))
  }

  /** The text is the key of some selected warning. */
  predicate IsSelectable(key: string, selected: Condition -> bool) {
    exists p :: 0 <= p < |key| && EndsAReason(key, p, selected)
  }

  /** The keys of some set of selected warnings, in order. */
  ghost predicate IsKeyList(a: seq<string>, selected: Condition -> bool) {
    a != [] && StrictlyAscending(a) && forall i :: 0 <= i < |a| ==> IsSelectable(a[i], selected)
  }

  /** The line break at p cuts the key into two keys in ascending order. */
  predicate IsCut(key: string, p: nat, selected: Condition -> bool) {
    && p < |key| && key[p] == '\n'
    && IsSelectable(key[..p], selected) && IsSelectable(key[p + 1..], selected) && Less(key[..p], key[p + 1..])
  }

  /** The set is one warning, and no line break in it makes it read as two. */
  predicate StandsAlone(a: seq<string>, selected: Condition -> bool) {
    |a| == 1 && forall p :: 0 <= p < |a[0]| ==> !IsCut(a[0], p, selected)
  }

  ghost predicate Shares(a: seq<string>, b: seq<string>, selected: Condition -> bool) {
    IsKeyList(b, selected) && JoinLines(a) == JoinLines(b) && a != b
  }

  lemma LongerIsSelectable(key: string, tail: string, selected: Condition -> bool)
    requires SelectsByReason(selected) && IsSelectable(key, selected)
    ensures IsSelectable(key + tail, selected)
  {
    var p :| 0 <= p < |key| && EndsAReason(key, p, selected);
    assert (key + tail)[..p] == key[..p];
    assert EndsAReason(key + tail, p, selected);
  }

  lemma {:induction false} LessThanLonger(x: string, y: string, z: string)
    requires Less(x, y)
    ensures Less(x, y + z)
  {
    if x != [] && x[0] == y[0] {
      LessThanLonger(x[1..], y[1..], z);
      assert (y + z)[1..] == y[1..] + z;
    }
  }

  lemma JoinStartsWithTheFirst(a: seq<string>) returns (tail: string)
    requires a != []
    ensures JoinLines(a) == a[0] + tail
    ensures |a| > 1 ==> tail == "\n" + JoinLines(a[1..])
  {
    tail := if |a| == 1 then "" else "\n" + JoinLines(a[1..]);
    assert |a| > 1 ==> JoinLines(a) == a[0] + tail;
  }

  lemma SeveralReadAsOne(b: seq<string>, selected: Condition -> bool)
    requires SelectsByReason(selected) && IsKeyList(b, selected) && |b| > 1
    ensures IsCut(JoinLines(b), |b[0]|, selected) && IsKeyList([JoinLines(b)], selected)
  {
    hide Less, JoinLines, IsSelectable, SelectsByReason;
    var text, rest := JoinLines(b), JoinLines(b[1..]);
    var afterFirst := JoinStartsWithTheFirst(b);
    var tail := JoinStartsWithTheFirst(b[1..]);
    assert Less(b[0], b[1]) && IsSelectable(b[0], selected) && IsSelectable(b[1], selected);
    LessThanLonger(b[0], b[1], tail);
    LongerIsSelectable(b[1], tail, selected);
    LongerIsSelectable(b[0], afterFirst, selected);
    assert text == b[0] + "\n" + rest;
    assert text[..|b[0]|] == b[0] && text[|b[0]| + 1..] == rest;
  }

  /** No other set has a set's key exactly when that set stands alone. Any two or more warnings share
      theirs with the one warning that has it as its key. */
  lemma OnlyOneWarningStandsAlone(a: seq<string>, selected: Condition -> bool)
    requires SelectsByReason(selected) && IsKeyList(a, selected)
    ensures StandsAlone(a, selected) <==> forall b :: !Shares(a, b, selected)
  {
    hide IsCut, Less, IsSelectable, SelectsByReason;
    if StandsAlone(a, selected) {
      forall b
        ensures !Shares(a, b, selected)
      {
        if Shares(a, b, selected) && |b| > 1 {
          SeveralReadAsOne(b, selected);
          BreaksInside(b);
        }
      }
    } else if |a| > 1 {
      SeveralReadAsOne(a, selected);
      assert Shares(a, [JoinLines(a)], selected);
    } else {
      var p :| 0 <= p < |a[0]| && IsCut(a[0], p, selected);
      var b := CutInTwo(a[0], p, selected);
      assert JoinLines(a) == a[0];
      assert Shares(a, b, selected);
    }
  }

  lemma BreaksInside(b: seq<string>)
    requires |b| > 1
    ensures |b[0]| < |JoinLines(b)|
  {
  }

  lemma CutInTwo(key: string, p: nat, selected: Condition -> bool) returns (b: seq<string>)
    requires IsCut(key, p, selected)
    ensures |b| == 2 && IsKeyList(b, selected) && JoinLines(b) == key
  {
    hide Less, IsSelectable;
    b := [key[..p], key[p + 1..]];
    assert b[1..] == [b[1]] && JoinLines([b[1]]) == b[1];
    assert key == b[0] + "\n" + b[1];
  }

  /** Such a pair: a warning whose message holds a line break and, after it, a NUL reads as two. */
  lemma LineBreaksCanCollide()
    ensures
      var a := [Condition("A", "x", Warning, 0, false), Condition("B", "y", Warning, 0, false)];
      var b := [Condition("A", "x\nB\0y", Warning, 0, false)];
      var all := (c: Condition) => true;
      SetKey(a, all) == SetKey(b, all) && !SameElements(SelectedKeys(a, all), SelectedKeys(b, all))
  {
    var c1, c2, c3 := Condition("A", "x", Warning, 0, false), Condition("B", "y", Warning, 0, false), Condition("A", "x\nB\0y", Warning, 0, false);
    var a, b := [c1, c2], [c3];
    var all := (c: Condition) => true;
    assert KeyOf(c1) == "A\0x" && KeyOf(c2) == "B\0y" && KeyOf(c3) == "A\0x\nB\0y";
    SelectedKeysStep([], c1, all);
    SelectedKeysStep([c1], c2, all);
    SelectedKeysStep([], c3, all);
    assert a == [c1] + [c2] && [] + [c1] == [c1] && [] + [c3] == b;
    assert SelectedKeys(a, all) == ["A\0x", "B\0y"];
    assert SelectedKeys(b, all) == ["A\0x\nB\0y"];
    assert Less("A\0x", "B\0y") && !Less("B\0y", "A\0x");
    assert Sort(["B\0y"]) == ["B\0y"] by {
      assert ["B\0y"][1..] == [];
    }
    assert Sort(SelectedKeys(a, all)) == ["A\0x", "B\0y"] by {
      assert SelectedKeys(a, all)[1..] == ["B\0y"];
    }
    assert Sort(SelectedKeys(b, all)) == ["A\0x\nB\0y"] by {
      assert SelectedKeys(b, all)[1..] == [];
    }
    assert Compact(["A\0x", "B\0y"]) == ["A\0x", "B\0y"] by {
      assert ["A\0x", "B\0y"][1..] == ["B\0y"];
    }
    assert JoinLines(["A\0x", "B\0y"]) == "A\0x\nB\0y" by {
      assert ["A\0x", "B\0y"][1..] == ["B\0y"];
    }
    assert "A\0x" in SelectedKeys(a, all) && "A\0x" !in SelectedKeys(b, all) by {
      assert |"A\0x"| != |"A\0x\nB\0y"|;
    }
  }

  // ---------------------------------------------------------------------------
  // The list that is returned
  // ---------------------------------------------------------------------------

  /** The conditions kept: every one that is not selected, and the first copy of each selected one
      if the set is being reported. */
  function Kept(conds: seq<Condition>, selected: Condition -> bool, report: bool): seq<Condition> {
    if conds == [] then []
    else
      var before, c := conds[..|conds| - 1], conds[|conds| - 1];
      Kept(before, selected, report) + if IsSelected(c, selected) && (!report || c in before) then [] else [c]
  }

  lemma KeptStep(conds: seq<Condition>, c: Condition, selected: Condition -> bool, report: bool)
    ensures Kept(conds + [c], selected, report) ==
      Kept(conds, selected, report) + if IsSelected(c, selected) && (!report || c in conds) then [] else [c]
  {
    PrefixOfExtension(conds, c);
  }

  /** a is b with some elements left out. */
  predicate IsSubsequence<T(==)>(a: seq<T>, b: seq<T>) {
    || a == []
    || (b != [] && a[|a| - 1] == b[|b| - 1] && IsSubsequence(a[..|a| - 1], b[..|b| - 1]))
    || (b != [] && IsSubsequence(a, b[..|b| - 1]))
  }

  function Others(conds: seq<Condition>, selected: Condition -> bool): seq<Condition> {
    if conds == [] then []
    else
      var c := conds[|conds| - 1];
      Others(conds[..|conds| - 1], selected) + if IsSelected(c, selected) then [] else [c]
  }

  lemma OthersStep(conds: seq<Condition>, c: Condition, selected: Condition -> bool)
    ensures Others(conds + [c], selected) == Others(conds, selected) + if IsSelected(c, selected) then [] else [c]
  {
    PrefixOfExtension(conds, c);
  }

  /** The result keeps the input's order. */
  lemma {:induction false} KeptIsASubsequence(conds: seq<Condition>, selected: Condition -> bool, report: bool)
    ensures IsSubsequence(Kept(conds, selected, report), conds)
  {
    if conds != [] {
      var before, c := conds[..|conds| - 1], conds[|conds| - 1];
      KeptIsASubsequence(before, selected, report);
      KeptStep(before, c, selected, report);
      PrefixOfExtension(Kept(before, selected, report), c);
      assert conds == before + [c];
      if IsSelected(c, selected) && (!report || c in before) {
        assert Kept(before, selected, report) + [] == Kept(before, selected, report);
      }
    }
  }

  /** Every condition that is not selected comes out as often as, and in the order, it came in. */
  lemma {:induction false} OthersPassThrough(conds: seq<Condition>, selected: Condition -> bool, report: bool)
    ensures Others(Kept(conds, selected, report), selected) == Others(conds, selected)
  {
    if conds != [] {
      var before, c := conds[..|conds| - 1], conds[|conds| - 1];
      OthersPassThrough(before, selected, report);
      assert conds == before + [c];
      KeptStep(before, c, selected, report);
      OthersStep(Kept(before, selected, report), c, selected);
      OthersStep(before, c, selected);
      hide Others, Kept;
      if IsSelected(c, selected) {
        assert Others(before, selected) + [] == Others(before, selected);
        assert Kept(before, selected, report) + [] == Kept(before, selected, report);
      }
    }
  }

  /** Each selected condition comes out exactly once if the set is reported, and never otherwise. */
  lemma {:induction false} SelectedOnceOrNever(conds: seq<Condition>, selected: Condition -> bool, report: bool, w: Condition)
    requires w.severity == Warning && selected(w)
    ensures multiset(Kept(conds, selected, report))[w] == if report && w in conds then 1 else 0
  {
    if conds != [] {
      var before, c := conds[..|conds| - 1], conds[|conds| - 1];
      SelectedOnceOrNever(before, selected, report, w);
      KeptStep(before, c, selected, report);
      assert conds == before + [c];
    }
  }

  /** A condition that is not a Warning, or not selected, comes out as often as it came in, whether or
      not the set is reported. */
  lemma {:induction false} NeverWithheld(conds: seq<Condition>, selected: Condition -> bool, report: bool, c: Condition)
    requires c.severity != Warning || !selected(c)
    ensures multiset(Kept(conds, selected, report))[c] == multiset(conds)[c]
  {
    if conds != [] {
      var before, last := conds[..|conds| - 1], conds[|conds| - 1];
      NeverWithheld(before, selected, report, c);
      KeptStep(before, last, selected, report);
      assert conds == before + [last];
    }
  }

  // ---------------------------------------------------------------------------
  // The call, and whole runs of it
  // ---------------------------------------------------------------------------

  /** What one call says about the set of selected warnings. */
  function EventOf(conds: seq<Condition>, selected: Condition -> bool, now: int): Event<string> {
    if SelectedKeys(conds, selected) == [] then Healthy else Seen(SetKey(conds, selected), now)
  }

  datatype Call = Call(conds: seq<Condition>, now: int)

  function EventsOf(calls: seq<Call>, selected: Condition -> bool): (events: seq<Event<string>>)
    ensures |events| == |calls|
    ensures forall i :: 0 <= i < |calls| ==> events[i] == EventOf(calls[i].conds, selected, calls[i].now)
  {
    seq(|calls|, i requires 0 <= i < |calls| => EventOf(calls[i].conds, selected, calls[i].now))
  }

  /** Call i reports its selected warnings. */
  predicate Reported(interval: int, calls: seq<Call>, selected: Condition -> bool, i: nat)
    requires i < |calls|
  {
    Notifies(interval, EventsOf(calls, selected), i)
  }

  /** A call whose selected warnings are the last reported ones, in any order and any number of
      times, inside the interval and with warnings present ever since, returns none of them. */
  lemma RepeatedSetIsSuppressed(interval: int, calls: seq<Call>, selected: Condition -> bool, i: nat, j: nat)
    requires i < j < |calls| && Reported(interval, calls, selected, i)
    requires SameElements(SelectedKeys(calls[i].conds, selected), SelectedKeys(calls[j].conds, selected))
    requires calls[j].now - calls[i].now < interval
    requires forall k :: i < k < j ==> SelectedKeys(calls[k].conds, selected) != [] && !Reported(interval, calls, selected, k)
    ensures !Reported(interval, calls, selected, j)
    ensures forall c :: IsSelected(c, selected) ==> c !in Kept(calls[j].conds, selected, Reported(interval, calls, selected, j))
  {
    var events := EventsOf(calls, selected);
    SetKeyStandsForTheSet(calls[i].conds, calls[j].conds, selected);
    assert SelectedKeys(calls[i].conds, selected)[0] in SelectedKeys(calls[j].conds, selected);
    assert NoneHealthy(events, i, j);
    assert forall k :: i < k < j ==> !Notifies(interval, events, k);
    RepeatIsSuppressed(interval, events, i, j);
    forall c | IsSelected(c, selected)
      ensures c !in Kept(calls[j].conds, selected, false)
    {
      SelectedOnceOrNever(calls[j].conds, selected, false, c);
      assert multiset(Kept(calls[j].conds, selected, false))[c] == 0;
    }
  }

  /** A call whose selected warnings differ from the last reported ones reports them, when both are
      plain, or no key of either holds a line break. */
  lemma ChangedSetIsReported(interval: int, calls: seq<Call>, selected: Condition -> bool, i: nat, j: nat)
    requires i < j < |calls| && Reported(interval, calls, selected, i)
    requires forall k :: i < k < j ==> SelectedKeys(calls[k].conds, selected) != [] && !Reported(interval, calls, selected, k)
    requires SelectedKeys(calls[j].conds, selected) != []
    requires !SameElements(SelectedKeys(calls[i].conds, selected), SelectedKeys(calls[j].conds, selected))
    requires AreLegible(calls[i].conds, calls[j].conds, selected)
    ensures Reported(interval, calls, selected, j)
  {
    var events := EventsOf(calls, selected);
    assert NoneHealthy(events, i, j);
    assert forall k :: i < k < j ==> !Notifies(interval, events, k);
    var p := LatestNoticeBetween(interval, events, i, j);
    assert p == i && events[i].Seen? && events[i].key == SetKey(calls[i].conds, selected);
    assert events[j] == Seen(SetKey(calls[j].conds, selected), calls[j].now);
    hide LastNotice, SetKey, SelectedKeys, EventOf, SameElements, AreLegible;
    SetKeyStandsForTheSet(calls[i].conds, calls[j].conds, selected);
  }

  /** The first call with selected warnings after one without any reports them. */
  lemma FirstAfterNoneIsReported(interval: int, calls: seq<Call>, selected: Condition -> bool, i: nat, j: nat)
    requires i < j < |calls|
    requires forall k, c :: i <= k < j && c in calls[k].conds ==> c.severity != Warning || !selected(c)
    requires exists c :: c in calls[j].conds && c.severity == Warning && selected(c)
    ensures Reported(interval, calls, selected, j)
  {
    forall k | i <= k < j
      ensures EventsOf(calls, selected)[k].Healthy?
    {
      NoneSelected(calls[k].conds, selected);
    }
    NoneSelected(calls[j].conds, selected);
    FirstAfterHealthyNotifies(interval, EventsOf(calls, selected), j - 1, j);
  }

  lemma {:induction false} NoneSelected(conds: seq<Condition>, selected: Condition -> bool)
    ensures SelectedKeys(conds, selected) == [] <==> forall c :: c in conds ==> c.severity != Warning || !selected(c)
  {
    if conds != [] {
      NoneSelected(conds[..|conds| - 1], selected);
      assert conds == conds[..|conds| - 1] + [conds[|conds| - 1]];
    }
  }

  // ---------------------------------------------------------------------------
  // When every other set is reported
  // ---------------------------------------------------------------------------

  /** Selected warnings with the given keys. */
  lemma {:induction false} WarningsWith(keys: seq<string>, selected: Condition -> bool) returns (conds: seq<Condition>)
    requires forall i :: 0 <= i < |keys| ==> IsSelectable(keys[i], selected)
    ensures SelectedKeys(conds, selected) == keys
  {
    conds := [];
    if keys != [] {
      var key := keys[|keys| - 1];
      var p :| 0 <= p < |key| && EndsAReason(key, p, selected);
      assert key == key[..p] + "\0" + key[p + 1..];
      var before := WarningsWith(keys[..|keys| - 1], selected);
      SelectedKeysStep(before, WarningAt(key, p), selected);
      conds := before + [WarningAt(key, p)];
    }
  }

  lemma {:induction false} KeysAreSelectable(conds: seq<Condition>, selected: Condition -> bool)
    requires SelectsByReason(selected)
    ensures forall k :: k in SelectedKeys(conds, selected) ==> IsSelectable(k, selected)
  {
    if conds != [] {
      KeysAreSelectable(conds[..|conds| - 1], selected);
      var c := conds[|conds| - 1];
      var k, p := KeyOf(c), |c.reason|;
      assert k[..p] == c.reason && k[p] == '\0';
      assert IsSelected(c, selected) ==> EndsAReason(k, p, selected);
    }
  }

  lemma CanonicalIsAKeyList(conds: seq<Condition>, selected: Condition -> bool)
    requires SelectsByReason(selected) && SelectedKeys(conds, selected) != []
    ensures IsKeyList(Canonical(SelectedKeys(conds, selected)), selected)
  {
    hide IsSelectable, Canonical;
    var ks := SelectedKeys(conds, selected);
    CanonicalIsTheSet(ks);
    KeysAreSelectable(conds, selected);
    assert ks[0] in Canonical(ks);
    forall i | 0 <= i < |Canonical(ks)|
      ensures IsSelectable(Canonical(ks)[i], selected)
    {
      assert Canonical(ks)[i] in Canonical(ks);
    }
  }

  ghost predicate IsOtherSet(was: seq<Condition>, conds: seq<Condition>, selected: Condition -> bool) {
    SelectedKeys(conds, selected) != [] && !SameElements(SelectedKeys(was, selected), SelectedKeys(conds, selected))
  }

  /** Inside the interval of the last report, with warnings present ever since, a call reports exactly
      when its set has another key than the reported one. */
  lemma ReportsAnotherKey(interval: int, calls: seq<Call>, selected: Condition -> bool, i: nat, call: Call)
    requires i < |calls| && Reported(interval, calls, selected, i) && call.now - calls[i].now < interval
    requires forall k :: i < k < |calls| ==> SelectedKeys(calls[k].conds, selected) != [] && !Reported(interval, calls, selected, k)
    requires SelectedKeys(call.conds, selected) != []
    ensures Reported(interval, calls + [call], selected, |calls|) <==> SetKey(call.conds, selected) != SetKey(calls[i].conds, selected)
  {
    var events := EventsOf(calls, selected);
    assert NoneHealthy(events, i, |events|);
    assert forall k :: i < k < |calls| ==> !Notifies(interval, events, k);
    assert events[..|events|] == events;
    var p := LatestNoticeBetween(interval, events, i, |events|);
    assert p == i && events[i] == Seen(SetKey(calls[i].conds, selected), calls[i].now);
    assert EventOf(call.conds, selected, call.now) == Seen(SetKey(call.conds, selected), call.now);
    hide LastNotice, SetKey, SelectedKeys, EventOf, Reported;
    CallContinuesTheRun(interval, calls, call, selected);
  }

  /** Every other set would be reported next, as promised, exactly when the set last reported is one
      warning in which no line break makes it read as two. */
  lemma WhenEveryOtherSetIsReported(interval: int, calls: seq<Call>, selected: Condition -> bool, i: nat, now: int)
    requires i < |calls| && Reported(interval, calls, selected, i) && now - calls[i].now < interval
    requires forall k :: i < k < |calls| ==> SelectedKeys(calls[k].conds, selected) != [] && !Reported(interval, calls, selected, k)
    requires SelectsByReason(selected)
    ensures StandsAlone(Canonical(SelectedKeys(calls[i].conds, selected)), selected) <==>
            forall conds :: IsOtherSet(calls[i].conds, conds, selected) ==>
              Reported(interval, calls + [Call(conds, now)], selected, |calls|)
  {
    hide SelectsByReason, IsSelectable, StandsAlone;
    var was := calls[i].conds;
    var keys := SelectedKeys(was, selected);
    var a := Canonical(keys);
    assert keys != [];
    CanonicalIsAKeyList(was, selected);
    OnlyOneWarningStandsAlone(a, selected);
    if StandsAlone(a, selected) {
      forall conds | IsOtherSet(was, conds, selected)
        ensures Reported(interval, calls + [Call(conds, now)], selected, |calls|)
      {
        CanonicalIsAKeyList(conds, selected);
        CanonicalIgnoresOrderAndCopies(keys, SelectedKeys(conds, selected));
        assert !Shares(a, Canonical(SelectedKeys(conds, selected)), selected);
        ReportsAnotherKey(interval, calls, selected, i, Call(conds, now));
      }
    } else {
      var b :| Shares(a, b, selected);
      var conds := WarningsWith(b, selected);
      CanonicalIsTheSet(b);
      StrictlyAscendingIsUnique(Canonical(b), b);
      CanonicalIgnoresOrderAndCopies(keys, b);
      assert IsOtherSet(was, conds, selected);
      ReportsAnotherKey(interval, calls, selected, i, Call(conds, now));
    }
  }

  /** A call on the notification that the calls so far left in force reports when the run of them
      all says so, and leaves the one in force after them all. */
  lemma CallContinuesTheRun(interval: int, calls: seq<Call>, call: Call, selected: Condition -> bool)
    ensures var e, last := EventOf(call.conds, selected, call.now), LastNotice(interval, EventsOf(calls, selected));
            var report := e.Seen? && Due(last, interval, e.key, call.now);
            && (report <==> Reported(interval, calls + [call], selected, |calls|))
            && LastNotice(interval, EventsOf(calls + [call], selected)) ==
               if e.Healthy? then None else if report then Some(Notice(e.key, call.now)) else last
  {
    var events, e := EventsOf(calls, selected), EventOf(call.conds, selected, call.now);
    assert EventsOf(calls + [call], selected) == events + [e];
    hide SetKey, SelectedKeys, EventOf, LastNotice;
    LastNoticeStep(interval, events, e);
    PrefixOfExtension(events, e);
    assert !e.Unrelated?;
  }

  /** Applies the re-notify rule to the selected warnings in conds. */
  method SuppressRepeatedWarnings(notified: Tracker<string>, now: int, conds: seq<Condition>, selected: Condition -> bool)
    returns (out: seq<Condition>)
    modifies notified
    ensures
      var e := EventOf(conds, selected, now);
      var report := e.Seen? && Due(old(notified.Last()), notified.interval, e.key, now);
      && out == Kept(conds, selected, report)
      && notified.Last() == if e.Healthy? then None else if report then Some(Notice(e.key, now)) else old(notified.Last())
  {
    hide Sort, Compact, JoinLines, KeyOf, Due;
    var keys := [];
    for i := 0 to |conds|
      invariant keys == SelectedKeys(conds[..i], selected)
    {
      assert conds[..i + 1][..i] == conds[..i];
      if IsSelected(conds[i], selected) {
        keys := keys + [KeyOf(conds[i])];
      }
    }
    assert conds[..|conds|] == conds;
    if |keys| == 0 {
      notified.Reset();
      NothingSelected(conds, selected);
      return conds;
    }

    var key := JoinLines(Compact(Sort(keys)));
    var keep := notified.ShouldNotify(key, now);
    if keep {
      notified.Notified(key, now);
    }

    out := [];
    var kept: set<Condition> := {};
    for i := 0 to |conds|
      invariant out == Kept(conds[..i], selected, keep)
      invariant keep ==> forall c :: c in kept <==> c in conds[..i] && IsSelected(c, selected)
    {
      assert conds[..i + 1][..i] == conds[..i] && conds[..i + 1] == conds[..i] + [conds[i]];
      var c := conds[i];
      if IsSelected(c, selected) {
        if keep && c !in kept {
          kept := kept + {c};
          out := out + [c];
        }
      } else {
        out := out + [c];
      }
    }
  }

  lemma {:induction false} NothingSelected(conds: seq<Condition>, selected: Condition -> bool)
    requires SelectedKeys(conds, selected) == []
    ensures Kept(conds, selected, false) == conds
  {
    if conds != [] {
      NothingSelected(conds[..|conds| - 1], selected);
      assert conds == conds[..|conds| - 1] + [conds[|conds| - 1]];
    }
  }
}
