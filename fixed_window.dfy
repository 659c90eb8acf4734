/** The fixed window counter: time, in whole seconds, is cut into windows of
    `size` seconds aligned to the epoch, and each client may have at most
    `max` requests admitted per window. */
module FixedWindowLimiter {
  import opened Basics

  /** A client's entry: the start of the window it was last seen in and the
      number of its requests that window has admitted. */
  datatype Window = Window(start: int, count: int)

  /** The start of the window holding second `now`. Python's `//` with a
      positive divisor rounds down, as Dafny's `/` does. */
  function WindowStart(now: int, size: int): (r: int)
    requires size > 0
    ensures r % size == 0
    ensures r <= now < r + size
  {
    var q := now / size;
    assert now == q * size + now % size;
    MultipleMod(q, size);
    q * size
  }

  lemma MulAtLeast(a: int, size: int)
    requires size > 0 && a >= 1
    ensures a * size >= size
  {
  }

  lemma MulSub(a: int, b: int, size: int)
    ensures (a - b) * size == a * size - b * size
  {
  }

  lemma MultipleMod(q: int, size: int)
    requires size > 0
    ensures (q * size) % size == 0
  {
    var x := q * size;
    var d := x / size;
    assert x == d * size + x % size;
    MulSub(q, d, size);
    if q - d >= 1 {
      MulAtLeast(q - d, size);
      assert false;
    } else if d - q >= 1 {
      MulAtLeast(d - q, size);
      MulSub(d, q, size);
      assert false;
    }
  }

  /** Two multiples of `size` less than `size` apart are equal. */
  lemma MultiplesApart(p: int, q: int, size: int)
    requires size > 0
    requires -size < p * size - q * size < size
    ensures p == q
  {
    MulSub(p, q, size);
    MulSub(q, p, size);
    if p - q >= 1 {
      MulAtLeast(p - q, size);
      assert false;
    } else if q - p >= 1 {
      MulAtLeast(q - p, size);
      assert false;
    }
  }

  /** The window start is the only multiple of `size` in `(now - size, now]`. */
  lemma WindowStartUnique(now: int, size: int, k: int)
    requires size > 0
    requires k % size == 0 && k <= now < k + size
    ensures WindowStart(now, size) == k
  {
    var q := k / size;
    assert k == q * size + k % size;
    var r := WindowStart(now, size);
    var p := r / size;
    assert r == p * size + r % size;
    MultiplesApart(p, q, size);
  }

  /** The window before an aligned window is aligned. */
  lemma PreviousWindowAligned(b: int, size: int)
    requires size > 0 && b % size == 0
    ensures (b - size) % size == 0
  {
    var q := b / size;
    assert b == q * size + b % size;
    MulSub(q, 1, size);
    MultipleMod(q - 1, size);
  }

  /** What every stored entry satisfies: its window is aligned and it has
      admitted at least one request and no more than `max`, except that a
      new window always admits its first request (so with `max == 0` the
      count is 1). */
  predicate WellFormed(w: Window, size: int, max: int)
  {
    size > 0 && w.start % size == 0 && 1 <= w.count && (w.count <= max || w.count == 1)
  }

  /** One admission step for one client at second `now`, given the client's
      stored entry, if any. */
  function Decide(prior: Option<Window>, now: int, size: int, max: int): (d: Decision<Window>)
    requires size > 0
    // the stored entry always describes the current window
    ensures d.entry.start == WindowStart(now, size)
    // an unseen client, or one last seen in another window, is admitted and starts a count of 1
    ensures prior.None? || prior.value.start != WindowStart(now, size) ==>
              d.allowed && d.entry.count == 1
    // within the stored window: admitted iff the count is below max, and then the count grows by one
    ensures prior.Some? && prior.value.start == WindowStart(now, size) ==>
              (d.allowed <==> prior.value.count < max) &&
              (d.allowed ==> d.entry.count == prior.value.count + 1)
    // a denial leaves the entry exactly as it was
    ensures !d.allowed ==> prior == Some(d.entry)
    ensures (prior.Some? ==> WellFormed(prior.value, size, max)) ==> WellFormed(d.entry, size, max)
  {
    var current := WindowStart(now, size);
    match prior
    case None => Decision(true, Window(current, 1))
    case Some(w) =>
      if w.start == current then
        if w.count < max then Decision(true, Window(current, w.count + 1))
        else Decision(false, w)
      else
        Decision(true, Window(current, 1))
  }

  /** The calls for one client at the seconds `times`, in order, starting
      from entry `prior`. */
  function Replay(prior: Option<Window>, times: seq<int>, size: int, max: int): (t: Tally<Option<Window>>)
    requires size > 0
    ensures t.allowed <= |times|
    ensures |times| > 0 ==> t.last.Some? && t.last.value.start == WindowStart(times[|times| - 1], size)
    ensures |times| == 0 ==> t.last == prior
    decreases |times|
  {
    if times == [] then Tally(prior, 0)
    else
      var d := Decide(prior, times[0], size, max);
      var rest := Replay(Some(d.entry), times[1..], size, max);
      Tally(rest.last, rest.allowed + if d.allowed then 1 else 0)
  }

  /** Replaying two series one after the other is replaying their concatenation. */
  lemma {:induction false} ReplayAppend(prior: Option<Window>, a: seq<int>, b: seq<int>, size: int, max: int)
    requires size > 0
    ensures var first := Replay(prior, a, size, max);
            var second := Replay(first.last, b, size, max);
            Replay(prior, a + b, size, max) == Tally(second.last, first.allowed + second.allowed)
    decreases |a|
  {
    if a == [] {
      assert a + b == b;
    } else {
      var d := Decide(prior, a[0], size, max);
      assert (a + b)[0] == a[0];
      assert (a + b)[1..] == a[1..] + b;
      ReplayAppend(Some(d.entry), a[1..], b, size, max);
    }
  }

  predicate InWindow(times: seq<int>, size: int, ws: int)
    requires size > 0
  {
    forall i | 0 <= i < |times| :: WindowStart(times[i], size) == ws
  }

  /** Inside window `ws`, an entry that has admitted `k <= max` requests admits
      the next `max - k` calls and denies every call after them. */
  lemma {:induction false} BurstWithinWindow(ws: int, k: int, times: seq<int>, size: int, max: int)
    requires size > 0 && 0 <= k <= max
    requires InWindow(times, size, ws)
    ensures Replay(Some(Window(ws, k)), times, size, max).allowed == MinInt(|times|, max - k)
    decreases |times|
  {
    if times != [] {
      assert WindowStart(times[0], size) == ws;
      assert InWindow(times[1..], size, ws) by {
        forall i | 0 <= i < |times[1..]| ensures WindowStart(times[1..][i], size) == ws {
          assert times[1..][i] == times[i + 1];
        }
      }
      if k < max {
        BurstWithinWindow(ws, k + 1, times[1..], size, max);
      } else {
        BurstWithinWindow(ws, k, times[1..], size, max);
      }
    }
  }

  /** A client that is unseen, or was last seen in another window, gets exactly
      `min(n, max)` of `n` calls inside one window admitted: the first `max`
      succeed and the rest are denied. */
  lemma FreshWindowBurst(prior: Option<Window>, ws: int, times: seq<int>, size: int, max: int)
    requires size > 0 && max >= 1
    requires InWindow(times, size, ws)
    requires prior.None? || prior.value.start != ws
    ensures Replay(prior, times, size, max).allowed == MinInt(|times|, max)
  {
    if times != [] {
      assert WindowStart(times[0], size) == ws;
      assert InWindow(times[1..], size, ws) by {
        forall i | 0 <= i < |times[1..]| ensures WindowStart(times[1..][i], size) == ws {
          assert times[1..][i] == times[i + 1];
        }
      }
      BurstWithinWindow(ws, 1, times[1..], size, max);
    }
  }

  /** The boundary burst the algorithm accepts by design: for any window
      boundary `b`, `max` calls in the last second before `b` and `max` calls
      at `b` are all admitted, `2 * max` requests within two seconds. */
  lemma BoundaryBurst(b: int, size: int, max: int)
    requires size > 0 && max >= 1 && b % size == 0
    ensures Replay(None, seq(max, _ => b - 1) + seq(max, _ => b), size, max).allowed == 2 * max
  {
    var before := seq(max, _ => b - 1);
    var after := seq(max, _ => b);
    PreviousWindowAligned(b, size);
    WindowStartUnique(b - 1, size, b - size);
    WindowStartUnique(b, size, b);
    assert InWindow(before, size, b - size);
    assert InWindow(after, size, b);
    ReplayAppend(None, before, after, size, max);
    var first := Replay(None, before, size, max);
    FreshWindowBurst(None, b - size, before, size, max);
    FreshWindowBurst(first.last, b, after, size, max);
  }

  /** The limiter object: one entry per client id, updated in place. */
  class FixedWindowCounter {
    const windowSize: int
    const maxRequests: int
    var requests: map<string, Window>

    ghost predicate Valid()
      reads this
    {
      windowSize > 0 &&
      forall c | c in requests :: WellFormed(requests[c], windowSize, maxRequests)
    }

    constructor (windowSize: int := 60, maxRequests: int := 10)
      requires windowSize > 0
      ensures Valid()
      ensures this.windowSize == windowSize && this.maxRequests == maxRequests
      ensures requests == map[]
    {
      this.windowSize := windowSize;
      this.maxRequests := maxRequests;
      requests := map[];
    }

    /** Decides the request of `client` at second `now` (the clock reading
        truncated to an integer) and updates that client's entry only. */
    method IsAllowed(client: string, now: int) returns (allowed: bool)
      requires Valid()
      modifies this
      ensures Valid()
      ensures var d := Decide(Get(old(requests), client), now, windowSize, maxRequests);
              allowed == d.allowed && requests == old(requests)[client := d.entry]
    {
      var currentWindow := WindowStart(now, windowSize);
      if client !in requests {
        requests := requests[client := Window(currentWindow, 1)];
        return true;
      }
      var entry := requests[client];
      if entry.start == currentWindow {
        if entry.count < maxRequests {
          requests := requests[client := Window(currentWindow, entry.count + 1)];
          return true;
        }
        assert requests == requests[client := entry];
        return false;
      } else {
        requests := requests[client := Window(currentWindow, 1)];
        return true;
      }
    }

    /** Forgets every client. */
    method Reset()
      requires Valid()
      modifies this
      ensures Valid()
      ensures requests == map[]
    {
      requests := map[];
    }
  }

  /** Two requests per minute: the third in the same minute is denied, other
      clients and the next minute are unaffected, and a reset lets the
      client in again at once. */
  method LimitThenReset()
  {
    var limiter := new FixedWindowCounter(60, 2);
    var a := limiter.IsAllowed("alice", 120);
    var b := limiter.IsAllowed("alice", 150);
    var c := limiter.IsAllowed("alice", 179);
    assert a && b && !c;
    var d := limiter.IsAllowed("bob", 179);
    assert d;
    var e := limiter.IsAllowed("alice", 179);
    assert !e;
    limiter.Reset();
    var f := limiter.IsAllowed("alice", 179);
    assert f;
  }
}
