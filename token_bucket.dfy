/** The token bucket: each client has a bucket of up to `capacity` tokens
    that refills continuously at `rate` tokens per second; a request spends
    one whole token. Times, tokens and the rate are exact reals. */
module TokenBucketLimiter {
  import opened Basics

  /** A client's bucket: the tokens it held at its last refill, and when
      that was. */
  datatype Bucket = Bucket(tokens: real, lastRefill: real)

  /** What every stored bucket satisfies. */
  predicate WellFormed(b: Bucket, capacity: int)
  {
    0.0 <= b.tokens <= capacity as real
  }

  /** The tokens available at `now`: what was stored plus `rate` tokens per
      elapsed second, never more than `capacity`. */
  function Refill(b: Bucket, now: real, capacity: int, rate: real): (r: real)
    ensures r <= capacity as real
    ensures r <= b.tokens + (now - b.lastRefill) * rate
    ensures r == capacity as real || r == b.tokens + (now - b.lastRefill) * rate
    // with a clock that has not gone back, a refill never loses tokens below the cap
    ensures now >= b.lastRefill && rate >= 0.0 && WellFormed(b, capacity) ==> b.tokens <= r
    // no time passed, nothing refilled
    ensures now == b.lastRefill && WellFormed(b, capacity) ==> r == b.tokens
  {
    ProductFacts(now - b.lastRefill, rate);
    var refilled := b.tokens + (now - b.lastRefill) * rate;
    if capacity as real <= refilled then capacity as real else refilled
  }

  /** One admission step for one client at time `now`, given its stored
      bucket, if any. */
  function Decide(prior: Option<Bucket>, now: real, capacity: int, rate: real): (d: Decision<Bucket>)
    ensures d.entry.lastRefill == now
    // the first request of a client is admitted and fills its bucket; no token is spent on it
    ensures prior.None? ==> d.allowed && d.entry.tokens == capacity as real
    // later requests: admitted iff a whole token is available after the refill, and
    // then one token is spent; a denial still stores the refilled amount
    ensures prior.Some? ==>
              var available := Refill(prior.value, now, capacity, rate);
              (d.allowed <==> available >= 1.0) &&
              d.entry.tokens == (if d.allowed then available - 1.0 else available)
    // the stored tokens stay within [0, capacity]
    ensures capacity >= 0 && rate >= 0.0 &&
            (prior.Some? ==> WellFormed(prior.value, capacity) && prior.value.lastRefill <= now) ==>
              WellFormed(d.entry, capacity)
  {
    match prior
    case None => Decision(true, Bucket(capacity as real, now))
    case Some(b) =>
      var tokens := Refill(b, now, capacity, rate);
      if tokens >= 1.0 then Decision(true, Bucket(tokens - 1.0, now))
      else Decision(false, Bucket(tokens, now))
  }

  /** The calls for one client at the times `times`, in order, starting from
      bucket `prior`. */
  function Replay(prior: Option<Bucket>, times: seq<real>, capacity: int, rate: real): (t: Tally<Option<Bucket>>)
    ensures t.allowed <= |times|
    ensures |times| > 0 ==> t.last.Some? && t.last.value.lastRefill == times[|times| - 1]
    decreases |times|
  {
    if times == [] then Tally(prior, 0)
    else
      var d := Decide(prior, times[0], capacity, rate);
      var rest := Replay(Some(d.entry), times[1..], capacity, rate);
      Tally(rest.last, rest.allowed + if d.allowed then 1 else 0)
  }

  predicate AllAt(times: seq<real>, now: real)
  {
    forall i | 0 <= i < |times| :: times[i] == now
  }

  /** A burst of calls all at time `now` against an existing bucket: exactly
      as many are admitted as there are whole tokens after the refill at
      `now`, and the rest are denied. */
  lemma {:induction false} BurstAfterWait(b: Bucket, now: real, times: seq<real>, capacity: int, rate: real)
    requires capacity >= 0 && rate >= 0.0
    requires WellFormed(b, capacity) && b.lastRefill <= now
    requires AllAt(times, now)
    ensures Replay(Some(b), times, capacity, rate).allowed == MinInt(|times|, Refill(b, now, capacity, rate).Floor)
    decreases |times|
  {
    if times != [] {
      assert times[0] == now;
      assert AllAt(times[1..], now) by {
        forall i | 0 <= i < |times[1..]| ensures times[1..][i] == now {
          assert times[1..][i] == times[i + 1];
        }
      }
      var available := Refill(b, now, capacity, rate);
      var d := Decide(Some(b), now, capacity, rate);
      BurstAfterWait(d.entry, now, times[1..], capacity, rate);
      var next := Refill(d.entry, now, capacity, rate);
      assert next == d.entry.tokens;
      if d.allowed {
        assert (available - 1.0).Floor == available.Floor - 1;
      } else {
        assert available.Floor == 0;
      }
    }
  }

  /** The first request of a client is admitted without spending a token, so
      a burst at one instant from an unseen client gets `capacity + 1`
      requests admitted before the first denial. */
  lemma FirstBurst(now: real, times: seq<real>, capacity: int, rate: real)
    requires capacity >= 0 && rate >= 0.0
    requires AllAt(times, now)
    ensures Replay(None, times, capacity, rate).allowed == MinInt(|times|, capacity + 1)
  {
    if times != [] {
      assert times[0] == now;
      assert AllAt(times[1..], now) by {
        forall i | 0 <= i < |times[1..]| ensures times[1..][i] == now {
          assert times[1..][i] == times[i + 1];
        }
      }
      var b := Bucket(capacity as real, now);
      BurstAfterWait(b, now, times[1..], capacity, rate);
      assert Refill(b, now, capacity, rate) == capacity as real;
    }
  }

  /** The limiter object: one bucket per client id, updated in place. */
  class TokenBucket {
    const capacity: int
    const refillRate: real
    var buckets: map<string, Bucket>

    /** The configuration the arithmetic assumes. */
    ghost predicate Valid()
      reads this
    {
      capacity >= 0 && refillRate >= 0.0
    }

    /** With a clock that never goes back, every stored bucket holds between 0 and `capacity` tokens. */
    ghost predicate Bounded()
      reads this
    {
      forall c | c in buckets :: WellFormed(buckets[c], capacity)
    }

    /** The clock has not gone back for `client` since its last refill. */
    ghost predicate NotBefore(client: string, now: real)
      reads this
    {
      client in buckets ==> buckets[client].lastRefill <= now
    }

    constructor (capacity: int := 10, refillRate: real := 1.0)
      requires capacity >= 0 && refillRate >= 0.0
      ensures Valid() && Bounded()
      ensures this.capacity == capacity && this.refillRate == refillRate
      ensures buckets == map[]
    {
      this.capacity := capacity;
      this.refillRate := refillRate;
      buckets := map[];
    }

    /** Decides the request of `client` at time `now` and updates that
        client's bucket only. */
    method IsAllowed(client: string, now: real) returns (allowed: bool)
      requires Valid()
      modifies this
      ensures Valid()
      ensures old(Bounded()) && old(NotBefore(client, now)) ==> Bounded()
      ensures var d := Decide(Get(old(buckets), client), now, capacity, refillRate);
              allowed == d.allowed && buckets == old(buckets)[client := d.entry]
    {
      if client !in buckets {
        buckets := buckets[client := Bucket(capacity as real, now)];
        return true;
      }
      var tokens := buckets[client].tokens;
      var lastRefill := buckets[client].lastRefill;
      var elapsed := now - lastRefill;
      var refilled := tokens + elapsed * refillRate;
      tokens := if capacity as real <= refilled then capacity as real else refilled;
      assert tokens == Refill(buckets[client], now, capacity, refillRate);
      if tokens >= 1.0 {
        tokens := tokens - 1.0;
        buckets := buckets[client := Bucket(tokens, now)];
        return true;
      }
      buckets := buckets[client := Bucket(tokens, now)];
      return false;
    }

    method Reset()
      requires Valid()
      modifies this
      ensures Valid() && Bounded()
      ensures buckets == map[]
    {
      buckets := map[];
    }
  }

  /** Capacity 2 refilling one token a second: three calls at one instant
      are admitted and the fourth is denied; half a second later there is
      still no whole token, a second after that there is one; a reset lets
      the client in again at once. */
  method DrainThenReset()
  {
    var bucket := new TokenBucket(2, 1.0);
    var a := bucket.IsAllowed("alice", 10.0);
    var b := bucket.IsAllowed("alice", 10.0);
    var c := bucket.IsAllowed("alice", 10.0);
    var d := bucket.IsAllowed("alice", 10.0);
    assert a && b && c && !d;
    var e := bucket.IsAllowed("alice", 10.5);
    assert !e && bucket.buckets["alice"] == Bucket(0.5, 10.5);
    var f := bucket.IsAllowed("alice", 11.5);
    assert f && bucket.buckets["alice"] == Bucket(0.5, 11.5);
    bucket.Reset();
    var g := bucket.IsAllowed("alice", 11.5);
    assert g;
  }
}
