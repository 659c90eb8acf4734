/** The leaky bucket: each client has a queue level that drains continuously
    at `rate` per second and rises by one for every admitted request; a
    request is admitted while the drained level is below `capacity`. Times,
    levels and the rate are exact reals. */
module LeakyBucketLimiter {
  import opened Basics

  /** A client's bucket: its level at the last leak, and when that was. */
  datatype Bucket = Bucket(level: real, lastLeak: real)

  /** What every stored bucket satisfies. The admission test compares the
      drained level with `capacity` before adding one, so the level can end
      up to (but not including) one above `capacity`. */
  predicate WellFormed(b: Bucket, capacity: int)
  {
    0.0 <= b.level < capacity as real + 1.0
  }

  /** The level left at `now` after leaking at `rate` since the last leak; it
      never drops below zero. */
  function Drain(b: Bucket, now: real, rate: real): (r: real)
    ensures r >= 0.0
    // the level falls by the amount leaked, unless that would take it below zero
    ensures r >= b.level - (now - b.lastLeak) * rate
    ensures r == 0.0 || r == b.level - (now - b.lastLeak) * rate
    ensures now >= b.lastLeak && rate >= 0.0 && b.level >= 0.0 ==> r <= b.level
    // no time passed, nothing leaked
    ensures now == b.lastLeak && b.level >= 0.0 ==> r == b.level
  {
    var leaked := (now - b.lastLeak) * rate;
    ProductFacts(now - b.lastLeak, rate);
    assert now >= b.lastLeak && rate >= 0.0 ==> leaked >= 0.0;
    MaxReal(0.0, b.level - leaked)
  }

  /** One admission step for one client at time `now`, given its stored
      bucket, if any. */
  function Decide(prior: Option<Bucket>, now: real, capacity: int, rate: real): (d: Decision<Bucket>)
    ensures d.entry.lastLeak == now
    // the first request of a client is admitted and leaves one request in its bucket
    ensures prior.None? ==> d.allowed && d.entry.level == 1.0
    // later requests: admitted iff the drained level is below capacity, and then the
    // level rises by one; a denial still stores the drained level
    ensures prior.Some? ==>
              var drained := Drain(prior.value, now, rate);
              (d.allowed <==> drained < capacity as real) &&
              d.entry.level == (if d.allowed then drained + 1.0 else drained)
    // the stored level stays within [0, capacity + 1)
    ensures capacity > 0 && rate >= 0.0 &&
            (prior.Some? ==> WellFormed(prior.value, capacity) && prior.value.lastLeak <= now) ==>
              WellFormed(d.entry, capacity)
  {
    match prior
    case None => Decision(true, Bucket(1.0, now))
    case Some(b) =>
      var level := Drain(b, now, rate);
      if level < capacity as real then Decision(true, Bucket(level + 1.0, now))
      else Decision(false, Bucket(level, now))
  }

  /** The level really can pass `capacity`: a bucket drained to half a request
      below capacity admits one more and ends half a request above it. */
  lemma LevelCanExceedCapacity(capacity: int, now: real, rate: real)
    requires capacity > 0
    ensures var d := Decide(Some(Bucket(capacity as real - 0.5, now)), now, capacity, rate);
            d.allowed && d.entry.level == capacity as real + 0.5
  {
    assert Drain(Bucket(capacity as real - 0.5, now), now, rate) == capacity as real - 0.5;
  }

  /** How many requests at one instant a bucket at `level` still admits: one
      for each whole or partial unit of room below `capacity`. */
  function Headroom(level: real, capacity: int): (n: nat)
    ensures n == 0 <==> level >= capacity as real
    // n admissions of one each lift the level to capacity or above; n - 1 do not
    ensures n > 0 ==> level + (n - 1) as real < capacity as real <= level + n as real
  {
    if level >= capacity as real then 0 else -((level - capacity as real).Floor)
  }

  /** The calls for one client at the times `times`, in order, starting from
      bucket `prior`. */
  function Replay(prior: Option<Bucket>, times: seq<real>, capacity: int, rate: real): (t: Tally<Option<Bucket>>)
    ensures t.allowed <= |times|
    ensures |times| > 0 ==> t.last.Some? && t.last.value.lastLeak == times[|times| - 1]
    decreases |times|
  {
    if times == [] then Tally(prior, 0)
    else
      var d := Decide(prior, times[0], capacity, rate);
      var rest := Replay(Some(d.entry), times[1..], capacity, rate);
      Tally(rest.last, rest.allowed + if d.allowed then 1 else 0)
  }

  predicate AllAt(times: seq<real>, now: real)
  {
    forall i | 0 <= i < |times| :: times[i] == now
  }

  /** A burst of calls all at time `now` against an existing bucket: exactly
      as many are admitted as the drained level leaves room for, and the rest
      are denied. */
  lemma {:induction false} BurstAfterWait(b: Bucket, now: real, times: seq<real>, capacity: int, rate: real)
    requires capacity > 0 && rate >= 0.0
    requires WellFormed(b, capacity) && b.lastLeak <= now
    requires AllAt(times, now)
    ensures Replay(Some(b), times, capacity, rate).allowed == MinInt(|times|, Headroom(Drain(b, now, rate), capacity))
    decreases |times|
  {
    if times != [] {
      assert times[0] == now;
      assert AllAt(times[1..], now) by {
        forall i | 0 <= i < |times[1..]| ensures times[1..][i] == now {
          assert times[1..][i] == times[i + 1];
        }
      }
      var drained := Drain(b, now, rate);
      var d := Decide(Some(b), now, capacity, rate);
      BurstAfterWait(d.entry, now, times[1..], capacity, rate);
      assert Drain(d.entry, now, rate) == d.entry.level;
      if d.allowed {
        assert Headroom(drained + 1.0, capacity) == Headroom(drained, capacity) - 1;
      }
    }
  }

  /** Starting empty, a burst at one instant gets exactly `capacity` requests
      admitted, and the one after them is denied. */
  lemma FirstBurst(now: real, times: seq<real>, capacity: int, rate: real)
    requires capacity > 0 && rate >= 0.0
    requires AllAt(times, now)
    ensures Replay(None, times, capacity, rate).allowed == MinInt(|times|, capacity)
  {
    if times != [] {
      assert times[0] == now;
      assert AllAt(times[1..], now) by {
        forall i | 0 <= i < |times[1..]| ensures times[1..][i] == now {
          assert times[1..][i] == times[i + 1];
        }
      }
      var b := Bucket(1.0, now);
      BurstAfterWait(b, now, times[1..], capacity, rate);
      assert Drain(b, now, rate) == 1.0;
      assert Headroom(1.0, capacity) == capacity - 1;
    }
  }

  /** The limiter object: one bucket per client id, updated in place. */
  class LeakyBucket {
    const capacity: int
    const leakRate: real
    var buckets: map<string, Bucket>

    /** The configuration the arithmetic assumes. */
    ghost predicate Valid()
      reads this
    {
      capacity > 0 && leakRate >= 0.0
    }

    /** With a clock that never goes back, every stored level lies in [0, capacity + 1). */
    ghost predicate Bounded()
      reads this
    {
      forall c | c in buckets :: WellFormed(buckets[c], capacity)
    }

    /** The clock has not gone back for `client` since its last leak. */
    ghost predicate NotBefore(client: string, now: real)
      reads this
    {
      client in buckets ==> buckets[client].lastLeak <= now
    }

    constructor (capacity: int := 10, leakRate: real := 1.0)
      requires capacity > 0 && leakRate >= 0.0
      ensures Valid() && Bounded()
      ensures this.capacity == capacity && this.leakRate == leakRate
      ensures buckets == map[]
    {
      this.capacity := capacity;
      this.leakRate := leakRate;
      buckets := map[];
    }

    /** Decides the request of `client` at time `now` and updates that
        client's bucket only. */
    method IsAllowed(client: string, now: real) returns (allowed: bool)
      requires Valid()
      modifies this
      ensures Valid()
      ensures old(Bounded()) && old(NotBefore(client, now)) ==> Bounded()
      ensures var d := Decide(Get(old(buckets), client), now, capacity, leakRate);
              allowed == d.allowed && buckets == old(buckets)[client := d.entry]
    {
      if client !in buckets {
        buckets := buckets[client := Bucket(1.0, now)];
        return true;
      }
      var requests := buckets[client].level;
      var lastLeak := buckets[client].lastLeak;
      var elapsed := now - lastLeak;
      requests := MaxReal(0.0, requests - elapsed * leakRate);
      assert requests == Drain(buckets[client], now, leakRate);
      if requests < capacity as real {
        requests := requests + 1.0;
        buckets := buckets[client := Bucket(requests, now)];
        return true;
      }
      buckets := buckets[client := Bucket(requests, now)];
      return false;
    }

    method Reset()
      requires Valid()
      modifies this
      ensures Valid() && Bounded()
      ensures buckets == map[]
    {
      buckets := map[];
    }
  }

  /** Capacity 2 leaking one request a second: two calls at one instant are
      admitted and the third is denied; after half a second the level is 1.5,
      so one more is admitted and the level rises to 2.5, above capacity; a
      reset lets the client in again at once. */
  method FillThenReset()
  {
    var bucket := new LeakyBucket(2, 1.0);
    var a := bucket.IsAllowed("alice", 10.0);
    var b := bucket.IsAllowed("alice", 10.0);
    var c := bucket.IsAllowed("alice", 10.0);
    assert a && b && !c;
    var d := bucket.IsAllowed("alice", 10.5);
    assert d && bucket.buckets["alice"] == Bucket(2.5, 10.5);
    bucket.Reset();
    var e := bucket.IsAllowed("alice", 10.5);
    assert e && bucket.buckets["alice"] == Bucket(1.0, 10.5);
  }
}
