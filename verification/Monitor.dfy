/** The vocabulary every stage shares: what a monitor reports to the manager. */
module Monitor {

  datatype Option<+T> = None | Some(value: T)

  // The source's severity is a string, so a value outside the three known ones exists
  // and the manager rejects it.
  datatype Severity = Info | Warning | Fatal | Unrecognized(name: string)

  datatype Condition = Condition(
    reason: string,
    message: string,
    severity: Severity,
    minOccurrences: int,
    resolved: bool)

  /** The manager as one monitor sees it: a first-in first-out queue of conditions. */
  class Notifications {
    var queue: seq<Condition>

    constructor ()
      ensures queue == []
    {
      queue := [];
    }

    method Notify(c: Condition)
      modifies this
      ensures queue == old(queue) + [c]
    {
      queue := queue + [c];
    }
  }

  lemma PrefixOfExtension<T>(s: seq<T>, x: T)
    ensures (s + [x])[..|s|] == s
    ensures (s + [x])[..|s| + 1] == s + [x]
  {
  }
}
