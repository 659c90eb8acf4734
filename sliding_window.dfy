/** The sliding window log and the sliding window counter. Both keep, per
    client, the timestamps of its admitted requests that are younger than
    the window, and admit a request while fewer than `max` remain. */
module SlidingWindowLimiter {
  import opened Basics

  predicate Sorted(s: seq<real>)
  {
    forall i, j | 0 <= i <= j < |s| :: s[i] <= s[j]
  }

  lemma SortedParts(s: seq<real>)
    requires |s| > 0
    ensures s == [s[0]] + s[1..] && s[0] in s
    ensures forall x | x in s[1..] :: x in s
    ensures Sorted(s) ==> Sorted(s[1..]) && forall x | x in s[1..] :: s[0] <= x
  {
  }

  lemma SortedCons(h: real, s: seq<real>)
    requires Sorted(s) && forall x | x in s :: h <= x
    ensures Sorted([h] + s)
  {
    forall i, j | 0 <= i <= j < |[h] + s| ensures ([h] + s)[i] <= ([h] + s)[j] {
      if 0 < i {
        assert ([h] + s)[i] == s[i - 1];
      }
      assert j == 0 || ([h] + s)[j] == s[j - 1];
      if 0 < j {
        assert s[j - 1] in s;
      }
    }
  }

  lemma SortedSnoc(s: seq<real>, t: real)
    requires Sorted(s) && forall x | x in s :: x <= t
    ensures Sorted(s + [t])
  {
    forall i, j | 0 <= i <= j < |s + [t]| ensures (s + [t])[i] <= (s + [t])[j] {
      if i < |s| {
        assert (s + [t])[i] == s[i] && s[i] in s;
      }
    }
  }

  lemma AppendAssoc(a: seq<real>, b: seq<real>, c: seq<real>)
    ensures (a + b) + c == a + (b + c)
  {
  }

  /** The timestamps of `log` later than `cutoff`, in their original order. */
  function Prune(log: seq<real>, cutoff: real): (r: seq<real>)
    ensures |r| <= |log|
    ensures forall x :: x in r <==> x in log && x > cutoff
    // every occurrence of a surviving timestamp is kept, and no other
    ensures forall x :: multiset(r)[x] == if x > cutoff then multiset(log)[x] else 0
  {
    if log == [] then []
    else
      assert log == [log[0]] + log[1..];
      if log[0] > cutoff then [log[0]] + Prune(log[1..], cutoff)
      else Prune(log[1..], cutoff)
  }

  /** Pruning is a filter that keeps order: pruning two logs one after the
      other is pruning each and concatenating the results. */
  lemma {:induction false} PruneConcat(a: seq<real>, b: seq<real>, cutoff: real)
    ensures Prune(a + b, cutoff) == Prune(a, cutoff) + Prune(b, cutoff)
  {
    if a == [] {
      assert a + b == b;
    } else {
      assert (a + b)[0] == a[0];
      assert (a + b)[1..] == a[1..] + b;
      PruneConcat(a[1..], b, cutoff);
      if a[0] > cutoff {
        AppendAssoc([a[0]], Prune(a[1..], cutoff), Prune(b, cutoff));
      }
    }
  }

  /** Pruning keeps the log in order. */
  lemma {:induction false} PruneKeepsOrder(log: seq<real>, cutoff: real)
    requires Sorted(log)
    ensures Sorted(Prune(log, cutoff))
  {
    if log != [] {
      SortedParts(log);
      PruneKeepsOrder(log[1..], cutoff);
      if log[0] > cutoff {
        SortedCons(log[0], Prune(log[1..], cutoff));
      }
    }
  }

  /** A log with nothing expired is kept as it is. */
  lemma {:induction false} PruneKeepsUnexpired(log: seq<real>, cutoff: real)
    requires forall x | x in log :: x > cutoff
    ensures Prune(log, cutoff) == log
  {
    if log != [] {
      SortedParts(log);
      PruneKeepsUnexpired(log[1..], cutoff);
    }
  }

  /** Pruning at a later cutoff after pruning at an earlier one is pruning
      once at the later one. */
  lemma {:induction false} PruneTwice(log: seq<real>, early: real, late: real)
    requires early <= late
    ensures Prune(Prune(log, early), late) == Prune(log, late)
  {
    if log != [] {
      PruneTwice(log[1..], early, late);
      if log[0] > early {
        var rest := Prune(log[1..], early);
        assert ([log[0]] + rest)[0] == log[0];
        assert ([log[0]] + rest)[1..] == rest;
      }
    }
  }

  /** A timestamp later than the cutoff survives pruning at the end of the log. */
  lemma PruneAppend(log: seq<real>, cutoff: real, t: real)
    requires t > cutoff
    ensures Prune(log + [t], cutoff) == Prune(log, cutoff) + [t]
  {
    PruneConcat(log, [t], cutoff);
    assert [t][1..] == [];
  }

  /** One admission step for a client whose stored log is `log` (empty for an
      unseen client), at time `now`, with window `w` and limit `max`. */
  function Decide(log: seq<real>, now: real, w: real, max: int): (d: Decision<seq<real>>)
    requires w > 0.0
    // after the call every logged timestamp lies within the window ending at now
    ensures forall x | x in d.entry :: x > now - w
    // admitted iff fewer than max unexpired timestamps remain
    ensures d.allowed <==> |Prune(log, now - w)| < max
    // an admission appends now to the pruned log; a denial stores the pruned log and adds nothing
    ensures d.allowed ==> d.entry == Prune(log, now - w) + [now]
    ensures !d.allowed ==> d.entry == Prune(log, now - w)
    ensures |log| <= max ==> |d.entry| <= max
  {
    var pruned := Prune(log, now - w);
    if |pruned| < max then Decision(true, pruned + [now]) else Decision(false, pruned)
  }

  /** With a clock that has not gone back, a step keeps the log in order. */
  lemma DecideKeepsOrder(log: seq<real>, now: real, w: real, max: int)
    requires w > 0.0 && Sorted(log)
    requires forall x | x in log :: x <= now
    ensures Sorted(Decide(log, now, w, max).entry)
  {
    var pruned := Prune(log, now - w);
    PruneKeepsOrder(log, now - w);
    SortedSnoc(pruned, now);
  }

  /** Whether the decision at time `t` counts exactly the requests admitted in
      the trailing window: if the stored log is the history `seen` pruned at
      some cutoff no later than `t - w`, the call is admitted iff fewer than
      `max` of the admitted requests in `seen` are later than `t - w`. */
  lemma DecisionIsExact(seen: seq<real>, cutoff: real, t: real, w: real, max: int)
    requires w > 0.0 && cutoff <= t - w
    ensures Decide(Prune(seen, cutoff), t, w, max).allowed <==> |Prune(seen, t - w)| < max
  {
    var log := Prune(seen, cutoff);
    var d := Decide(log, t, w, max);
    assert d.allowed <==> |Prune(log, t - w)| < max;
    PruneTwice(seen, cutoff, t - w);
  }

  /** The stored log after a series of calls and the times of the calls that
      were admitted, in order. */
  datatype History = History(log: seq<real>, accepted: seq<real>)

  function Replay(log: seq<real>, times: seq<real>, w: real, max: int): (h: History)
    requires w > 0.0
    ensures |h.accepted| <= |times|
    ensures forall x | x in h.accepted :: x in times
    ensures |log| <= max ==> |h.log| <= max
    decreases |times|
  {
    if times == [] then History(log, [])
    else
      var d := Decide(log, times[0], w, max);
      var rest := Replay(d.entry, times[1..], w, max);
      History(rest.log, (if d.allowed then [times[0]] else []) + rest.accepted)
  }

  /** Each call time is no earlier than the one before it. */
  predicate NonDecreasing(times: seq<real>)
  {
    |times| <= 1 || (times[0] <= times[1] && NonDecreasing(times[1..]))
  }

  /** One step keeps the log equal to the admitted history pruned at the
      current cutoff. */
  lemma StepKeepsTrailingWindow(seen: seq<real>, cutoff: real, t: real, w: real, max: int)
    requires w > 0.0 && cutoff <= t - w
    ensures var d := Decide(Prune(seen, cutoff), t, w, max);
            d.entry == Prune(seen + if d.allowed then [t] else [], t - w)
  {
    PruneTwice(seen, cutoff, t - w);
    PruneAppend(seen, t - w, t);
    assert seen + [] == seen;
  }

  /** With non-decreasing call times, the stored log is always exactly the
      admitted requests that are still inside the window: starting from the
      history `seen` pruned at a cutoff no later than the first call's, the
      final log is `seen` plus everything admitted, pruned at the last call's
      cutoff. */
  lemma {:induction false} ReplayLogIsTrailingWindow(seen: seq<real>, cutoff: real, times: seq<real>, w: real, max: int)
    requires w > 0.0 && NonDecreasing(times)
    requires |times| > 0 ==> cutoff <= times[0] - w
    ensures var h := Replay(Prune(seen, cutoff), times, w, max);
            h.log == Prune(seen + h.accepted, if times == [] then cutoff else times[|times| - 1] - w)
    decreases |times|
  {
    if times == [] {
      assert seen + [] == seen;
    } else {
      var t := times[0];
      var rest := times[1..];
      var log := Prune(seen, cutoff);
      var d := Decide(log, t, w, max);
      var added := if d.allowed then [t] else [];
      var h := Replay(d.entry, rest, w, max);
      assert Replay(log, times, w, max) == History(h.log, added + h.accepted);
      assert d.entry == Prune(seen + added, t - w) by {
        StepKeepsTrailingWindow(seen, cutoff, t, w, max);
      }
      assert NonDecreasing(rest) && (|rest| > 0 ==> t - w <= rest[0] - w);
      ReplayLogIsTrailingWindow(seen + added, t - w, rest, w, max);
      AppendAssoc(seen, added, h.accepted);
      assert rest != [] ==> rest[|rest| - 1] == times[|times| - 1];
    }
  }

  /** The defining promise of the log: for request times in non-decreasing
      order, the requests admitted in the trailing window ending at the last
      call never number more than `max`. It applies to every prefix of a
      series too, since a prefix of a non-decreasing series is one. */
  lemma TrailingWindowBound(times: seq<real>, w: real, max: int)
    requires w > 0.0 && max >= 0 && NonDecreasing(times) && |times| > 0
    ensures var h := Replay([], times, w, max);
            |Prune(h.accepted, times[|times| - 1] - w)| <= max
  {
    ReplayLogIsTrailingWindow([], times[0] - w, times, w, max);
    assert [] + Replay([], times, w, max).accepted == Replay([], times, w, max).accepted;
  }

  /** The log keeps one timestamp list per client id. */
  class SlidingWindowLog {
    const windowSize: int
    const maxRequests: int
    var logs: map<string, seq<real>>

    /** The configuration, and no stored list longer than the limit. */
    ghost predicate Valid()
      reads this
    {
      windowSize > 0 && maxRequests >= 0 &&
      forall c | c in logs :: |logs[c]| <= maxRequests
    }

    /** With a clock that never goes back, every stored list is in order. */
    ghost predicate Ordered()
      reads this
    {
      forall c | c in logs :: Sorted(logs[c])
    }

    /** The clock has not gone back for `client`: nothing it logged is later than `now`. */
    ghost predicate NotBefore(client: string, now: real)
      reads this
    {
      client in logs ==> forall x | x in logs[client] :: x <= now
    }

    constructor (windowSize: int := 60, maxRequests: int := 10)
      requires windowSize > 0 && maxRequests >= 0
      ensures Valid() && Ordered()
      ensures this.windowSize == windowSize && this.maxRequests == maxRequests
      ensures logs == map[]
    {
      this.windowSize := windowSize;
      this.maxRequests := maxRequests;
      logs := map[];
    }

    /** Decides the request of `client` at time `now`. Only an existing list is
        pruned; reading the list of an unseen client creates it empty, so the
        client has an entry afterwards even when denied. */
    method IsAllowed(client: string, now: real) returns (allowed: bool)
      requires Valid()
      modifies this
      ensures Valid()
      ensures old(Ordered()) && old(NotBefore(client, now)) ==> Ordered()
      // the dictionary is a defaultdict of lists: an unseen client's list reads as empty
      ensures var d := Decide(if client in old(logs) then old(logs)[client] else [], now, windowSize as real, maxRequests);
              allowed == d.allowed && logs == old(logs)[client := d.entry]
    {
      if Ordered() && NotBefore(client, now) {
        DecideKeepsOrder(if client in logs then logs[client] else [], now, windowSize as real, maxRequests);
      }
      var windowStart := now - windowSize as real;
      if client in logs {
        logs := logs[client := Prune(logs[client], windowStart)];
      }
      if client !in logs {
        logs := logs[client := []];
      }
      if |logs[client]| < maxRequests {
        logs := logs[client := logs[client] + [now]];
        return true;
      }
      return false;
    }

    method Reset()
      requires Valid()
      modifies this
      ensures Valid() && Ordered()
      ensures logs == map[]
    {
      logs := map[];
    }
  }

  /** The counter is the same algorithm over its own dictionary: its call
      satisfies the very contract of SlidingWindowLog.IsAllowed, so for every
      prior dictionary, time and client both give the same answer and leave
      the same new dictionary. */
  class SlidingWindowCounter {
    const windowSize: int
    const maxRequests: int
    var requests: map<string, seq<real>>

    /** The configuration, and no stored list longer than the limit. */
    ghost predicate Valid()
      reads this
    {
      windowSize > 0 && maxRequests >= 0 &&
      forall c | c in requests :: |requests[c]| <= maxRequests
    }

    /** With a clock that never goes back, every stored list is in order. */
    ghost predicate Ordered()
      reads this
    {
      forall c | c in requests :: Sorted(requests[c])
    }

    ghost predicate NotBefore(client: string, now: real)
      reads this
    {
      client in requests ==> forall x | x in requests[client] :: x <= now
    }

    constructor (windowSize: int := 60, maxRequests: int := 10)
      requires windowSize > 0 && maxRequests >= 0
      ensures Valid() && Ordered()
      ensures this.windowSize == windowSize && this.maxRequests == maxRequests
      ensures requests == map[]
    {
      this.windowSize := windowSize;
      this.maxRequests := maxRequests;
      requests := map[];
    }

    /** Always prunes and writes back the client's list (an unseen client's
        list is read as empty), then appends `now` if there is room. */
    method IsAllowed(client: string, now: real) returns (allowed: bool)
      requires Valid()
      modifies this
      ensures Valid()
      ensures old(Ordered()) && old(NotBefore(client, now)) ==> Ordered()
      // the dictionary is a defaultdict of lists: an unseen client's list reads as empty
      ensures var d := Decide(if client in old(requests) then old(requests)[client] else [], now, windowSize as real, maxRequests);
              allowed == d.allowed && requests == old(requests)[client := d.entry]
    {
      if Ordered() && NotBefore(client, now) {
        DecideKeepsOrder(if client in requests then requests[client] else [], now, windowSize as real, maxRequests);
      }
      var windowStart := now - windowSize as real;
      var current := if client in requests then requests[client] else [];
      requests := requests[client := Prune(current, windowStart)];
      if |requests[client]| < maxRequests {
        requests := requests[client := requests[client] + [now]];
        return true;
      }
      return false;
    }

    method Reset()
      requires Valid()
      modifies this
      ensures Valid() && Ordered()
      ensures requests == map[]
    {
      requests := map[];
    }
  }

  /** Two requests per minute: the third inside the minute is denied and
      leaves the log as it was; once the first has expired there is room
      again; the counter answers the same calls in the same way. */
  method SlideThenReset()
  {
    var log := new SlidingWindowLog(60, 2);
    var counter := new SlidingWindowCounter(60, 2);
    var a := log.IsAllowed("alice", 0.0);
    assert log.logs["alice"] == [0.0];
    var b := log.IsAllowed("alice", 1.0);
    assert Prune([0.0], 1.0 - 60.0) == [0.0];
    assert log.logs["alice"] == [0.0, 1.0];
    var c := log.IsAllowed("alice", 59.0);
    assert Prune([0.0, 1.0], 59.0 - 60.0) == [0.0, 1.0];
    assert a && b && !c;
    assert log.logs["alice"] == [0.0, 1.0];
    var d := log.IsAllowed("alice", 60.5);
    assert Prune([0.0, 1.0], 60.5 - 60.0) == [1.0];
    assert d && log.logs["alice"] == [1.0, 60.5];
    var a' := counter.IsAllowed("alice", 0.0);
    var b' := counter.IsAllowed("alice", 1.0);
    var c' := counter.IsAllowed("alice", 59.0);
    var d' := counter.IsAllowed("alice", 60.5);
    assert counter.requests == log.logs;
    assert a' == a && b' == b && c' == c && d' == d;
    log.Reset();
    var e := log.IsAllowed("alice", 61.0);
    assert e;
  }
}
