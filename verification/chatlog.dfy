/** The per-room chat history: a log of at most fifty messages where the
    oldest entry is dropped once the fifty-first arrives. */
module ChatLog {
  import opened Wrappers
  import opened Rules

  /** The number of entries a room's history keeps. */
  const Capacity: nat := 50

  datatype Kind = Chat | Cheer

  /** A stored message; the server's timestamp is not modelled. */
  datatype Message = Message(name: string, text: string, slot: Slot, kind: Kind)

  ghost predicate IsSuffix<T>(a: seq<T>, b: seq<T>) {
    |a| <= |b| && a == b[|b| - |a|..]
  }

  /** The leading `limit` characters of `text` (the whole text if shorter). */
  function Truncate(text: string, limit: nat): (t: string)
    ensures |t| == Min(|text|, limit)
    ensures t <= text
    ensures |text| <= limit ==> t == text
  {
    if |text| <= limit then text else text[..limit]
  }

  /** Appends `m`, then drops the oldest entry if the log grew past capacity. */
  function Append(log: seq<Message>, m: Message): (r: seq<Message>)
    ensures |r| > 0 && r[|r| - 1] == m
    ensures IsSuffix(r, log + [m])
    ensures |log| <= Capacity ==> |r| == Min(|log| + 1, Capacity)
    ensures |log| < Capacity ==> r == log + [m]
    ensures |log| <= Capacity ==> r == Recent(log + [m])
  {
    var l := log + [m];
    if |l| > Capacity then l[1..] else l
  }

  /** Appends each message of `ms` in order. */
  function AppendAll(log: seq<Message>, ms: seq<Message>): seq<Message>
    decreases |ms|
  {
    if ms == [] then log else AppendAll(Append(log, ms[0]), ms[1..])
  }

  /** The last `Capacity` entries of `s`, or all of `s` when it is shorter. */
  function Recent(s: seq<Message>): seq<Message> {
    s[|s| - Min(|s|, Capacity)..]
  }

  lemma RecentDropsOldest(s: seq<Message>)
    requires |s| > Capacity
    ensures Recent(s[1..]) == Recent(s)
  {
  }

  /** One append followed by more messages keeps the same recent window as
      appending all of them to the original log. */
  lemma AppendThenRecent(log: seq<Message>, m: Message, rest: seq<Message>)
    requires |log| <= Capacity
    ensures Recent(Append(log, m) + rest) == Recent(log + ([m] + rest))
  {
    var l := log + [m];
    assert l + rest == log + ([m] + rest);
    if |l| > Capacity {
      assert Append(log, m) + rest == (l + rest)[1..];
      RecentDropsOldest(l + rest);
    }
  }

  /** A log within capacity keeps, after any run of appends, exactly the most
      recent `Capacity` messages (all of them while fewer have been sent). */
  lemma {:induction false} AppendAllKeepsMostRecent(log: seq<Message>, ms: seq<Message>)
    requires |log| <= Capacity
    ensures AppendAll(log, ms) == Recent(log + ms)
    decreases |ms|
  {
    if ms == [] {
      assert log + ms == log;
    } else {
      var l1 := Append(log, ms[0]);
      AppendAllKeepsMostRecent(l1, ms[1..]);
      AppendThenRecent(log, ms[0], ms[1..]);
      assert [ms[0]] + ms[1..] == ms;
    }
  }
}
