# Rate limiters, modelled in Dafny

This project models the rate-limiting engine in `rate_limiters.py`. The engine has five limiter
classes:

- the fixed window counter
- the sliding window log
- the sliding window counter
- the token bucket
- the leaky bucket

All five have the same two operations:

- `is_allowed(client_id)` decides one request from one client.
- `reset()` forgets every client.

Each limiter keeps a dictionary from client id to a small entry:

| limiter | entry |
|---|---|
| fixed window | the window start and a count |
| both sliding windows | a list of timestamps |
| both buckets | an amount and the time it was last updated |

A call reads that one client's entry, decides, and writes the entry back.

Every module (one per algorithm, plus `Basics`) is built the same way:

- **`Decide`** is a pure function. It takes the client's prior entry, the current time and the configuration, and returns the answer and the new entry. Its contract states the rule the source applies, branch by branch.
- **`Replay`** runs a series of calls for one client. The lemmas about `Replay` state what a series of calls gives. Examples: how many requests of a burst are admitted, and how many fall inside the trailing window.
- **A class** has the source's constructor defaults, a `map` field for the dictionary, and the methods `IsAllowed(client, now)` and `Reset()`.
  - `IsAllowed` follows the source's statements and updates the map in place.
  - Its contract says two things: the answer is `Decide`'s answer, and the new map is the old map with only `client`'s entry replaced.
  - `Reset` leaves the map empty, so the next call of any client takes the first-request path.
- **Class invariants:**
  - `Valid()` holds the configuration.
  - In the fixed window counter, `Valid()` also holds that every entry is well formed: an aligned window and a count within the limit.
  - In both sliding windows, `Valid()` also holds that no list is longer than the limit.
  - Those two bounds need no assumption about the clock.
  - `Bounded()` (the buckets) and `Ordered()` (the sliding windows) hold the bounds that need a clock that does not go back.

The code is followed where its docstrings promise something else:

- The token bucket's first request stores a full bucket and spends nothing. So, at one instant, `capacity + 1` requests are admitted, not `capacity` (`TokenBucketLimiter.FirstBurst`).
- The leaky bucket tests the level against `capacity` before adding one. So a level can end above `capacity`, up to just under `capacity + 1` (`LeakyBucketLimiter.LevelCanExceedCapacity`).
- The fixed window counter with `max_requests == 0` still admits the first request of each window.
- A denied sliding-window call still stores the pruned list.

## Model

| member | source | states |
|---|---|---|
| FixedWindowLimiter.WindowStart | rate_limiters.py:45-46 | the window start is a multiple of the window size, at most `now` and more than `now - size` |
| FixedWindowLimiter.WindowStartUnique | rate_limiters.py:46 | the window start is the only multiple of the size in `(now - size, now]` |
| FixedWindowLimiter.Decide | rate_limiters.py:44-61 | the stored start is the current window; an unseen client or one from another window is admitted with count 1; in the same window a call is admitted iff the count is below the limit, and then the count grows by one; a denial leaves the entry as it was; aligned windows and counts in `[1, max]` (or 1) are preserved |
| FixedWindowLimiter.Replay | rate_limiters.py:44-61 | a series of calls admits at most as many as were made, and leaves the entry in the window of the last call |
| FixedWindowLimiter.ReplayAppend | rate_limiters.py:44-61 | replaying two series one after the other is replaying their concatenation |
| FixedWindowLimiter.BurstWithinWindow | rate_limiters.py:52-58 | inside one window, an entry that has admitted `k` calls admits exactly `min(n, max - k)` of `n` more |
| FixedWindowLimiter.FreshWindowBurst | rate_limiters.py:48-61 | an unseen client, or one from another window, gets exactly `min(n, max)` of `n` calls in one window admitted |
| FixedWindowLimiter.BoundaryBurst | rate_limiters.py:28-31 | `max` calls in the second before a window boundary and `max` calls at the boundary are all admitted, `2 * max` in two seconds |
| FixedWindowLimiter.FixedWindowCounter.constructor | rate_limiters.py:34-42 | defaults 60 and 10, stores the configuration, starts with no clients |
| FixedWindowLimiter.FixedWindowCounter.IsAllowed | rate_limiters.py:44-61 | answers as `Decide` does, replaces only the caller's entry, keeps every entry well formed |
| FixedWindowLimiter.FixedWindowCounter.Reset | rate_limiters.py:63-64 | the dictionary is empty afterwards |
| SlidingWindowLimiter.Prune | rate_limiters.py:90 | keeps every occurrence of each timestamp later than the cutoff and no other timestamp (as multisets), never lengthens the list |
| SlidingWindowLimiter.PruneConcat | rate_limiters.py:90 | pruning is an order-keeping filter: pruning `a + b` is pruning `a`, then `b`, and concatenating |
| SlidingWindowLimiter.PruneKeepsOrder | rate_limiters.py:90 | pruning a sorted list gives a sorted list |
| SlidingWindowLimiter.PruneKeepsUnexpired | rate_limiters.py:90 | a list with nothing expired is left as it is |
| SlidingWindowLimiter.PruneTwice | rate_limiters.py:90 | pruning at an earlier and then a later cutoff is pruning once at the later one |
| SlidingWindowLimiter.PruneAppend | rate_limiters.py:90-94 | a timestamp after the cutoff appended to the list survives the pruning, at the end |
| SlidingWindowLimiter.Decide | rate_limiters.py:84-97 | afterwards every stored timestamp is later than `now - window`; admitted iff fewer than `max` unexpired timestamps remain; an admission stores the pruned list plus `now`, a denial the pruned list; list length at most `max` is preserved |
| SlidingWindowLimiter.DecideKeepsOrder | rate_limiters.py:86-95 | if no stored timestamp is later than `now`, the stored list stays sorted |
| SlidingWindowLimiter.DecisionIsExact | rate_limiters.py:86-93 | when the stored list is the admitted history pruned at an earlier cutoff, the call is admitted iff fewer than `max` admitted requests lie in the trailing window |
| SlidingWindowLimiter.Replay | rate_limiters.py:84-97 | a series of calls admits only calls that were made and no more of them than were made; the list length bound is kept |
| SlidingWindowLimiter.StepKeepsTrailingWindow | rate_limiters.py:86-95 | one call keeps the stored list equal to the admitted history pruned at the current cutoff |
| SlidingWindowLimiter.ReplayLogIsTrailingWindow | rate_limiters.py:84-97 | for non-decreasing call times, the stored list is exactly the admitted requests still inside the window of the last call |
| SlidingWindowLimiter.TrailingWindowBound | rate_limiters.py:68-71 | for non-decreasing call times, at most `max` admitted requests lie inside the window ending at the last call |
| SlidingWindowLimiter.SlidingWindowLog.constructor | rate_limiters.py:74-82 | defaults 60 and 10, stores the configuration, starts with no clients |
| SlidingWindowLimiter.SlidingWindowLog.IsAllowed | rate_limiters.py:84-97 | prunes only an existing list and creates an empty list for an unseen client; answers as `Decide` does and replaces only the caller's list; lengths stay within `max`, and with a clock that has not gone back the lists stay sorted |
| SlidingWindowLimiter.SlidingWindowLog.Reset | rate_limiters.py:99-100 | the dictionary is empty afterwards |
| SlidingWindowLimiter.SlidingWindowCounter.constructor | rate_limiters.py:110-118 | defaults 60 and 10, stores the configuration, starts with no clients |
| SlidingWindowLimiter.SlidingWindowCounter.IsAllowed | rate_limiters.py:120-132 | always prunes and writes back the caller's list; meets the same contract as `SlidingWindowLog.IsAllowed`, so from every dictionary, time and client both give the same answer and the same new dictionary |
| SlidingWindowLimiter.SlidingWindowCounter.Reset | rate_limiters.py:134-135 | the dictionary is empty afterwards |
| TokenBucketLimiter.Refill | rate_limiters.py:165-166 | the refilled amount is capped at `capacity`, is either the cap or stored plus `elapsed * rate`, never loses tokens with a clock that has not gone back, and is unchanged when no time passed |
| TokenBucketLimiter.Decide | rate_limiters.py:155-174 | the first request is admitted and stores a full bucket; later requests are admitted iff at least one token is available after the refill, and then one is spent; a denial stores the refilled amount; tokens stay in `[0, capacity]` |
| TokenBucketLimiter.Replay | rate_limiters.py:155-174 | a series of calls admits at most as many as were made, and the last update time is the last call's |
| TokenBucketLimiter.BurstAfterWait | rate_limiters.py:162-174 | a burst at one instant against an existing bucket admits exactly `min(n, floor(refilled))` calls |
| TokenBucketLimiter.FirstBurst | rate_limiters.py:158-171 | a burst at one instant from an unseen client admits exactly `min(n, capacity + 1)` calls |
| TokenBucketLimiter.TokenBucket.constructor | rate_limiters.py:145-153 | defaults 10 and 1.0, stores the configuration, starts with no clients |
| TokenBucketLimiter.TokenBucket.IsAllowed | rate_limiters.py:155-174 | answers as `Decide` does and replaces only the caller's bucket; with a clock that has not gone back the tokens stay in `[0, capacity]` |
| TokenBucketLimiter.TokenBucket.Reset | rate_limiters.py:176-177 | the dictionary is empty afterwards |
| LeakyBucketLimiter.Drain | rate_limiters.py:207-208 | the drained level falls by the amount leaked but never below zero, never rises with a clock that has not gone back, and is unchanged when no time passed |
| LeakyBucketLimiter.Decide | rate_limiters.py:197-216 | the first request is admitted and stores level 1; later requests are admitted iff the drained level is below `capacity`, and then the level rises by one; a denial stores the drained level; the level stays in `[0, capacity + 1)` |
| LeakyBucketLimiter.LevelCanExceedCapacity | rate_limiters.py:210-212 | a bucket half a request below capacity admits one more and ends half a request above capacity |
| LeakyBucketLimiter.Headroom | rate_limiters.py:210-211 | the number of unit admissions a level still has room for: zero iff the level is at or above capacity, otherwise the least count that reaches capacity |
| LeakyBucketLimiter.Replay | rate_limiters.py:197-216 | a series of calls admits at most as many as were made, and the last leak time is the last call's |
| LeakyBucketLimiter.BurstAfterWait | rate_limiters.py:204-216 | a burst at one instant against an existing bucket admits exactly `min(n, Headroom(drained level))` calls |
| LeakyBucketLimiter.FirstBurst | rate_limiters.py:200-213 | a burst at one instant from an unseen client admits exactly `min(n, capacity)` calls |
| LeakyBucketLimiter.LeakyBucket.constructor | rate_limiters.py:187-195 | defaults 10 and 1.0, stores the configuration, starts with no clients |
| LeakyBucketLimiter.LeakyBucket.IsAllowed | rate_limiters.py:197-216 | answers as `Decide` does and replaces only the caller's bucket; with a clock that has not gone back the level stays in `[0, capacity + 1)` |
| LeakyBucketLimiter.LeakyBucket.Reset | rate_limiters.py:218-219 | the dictionary is empty afterwards |

## Left out

- The wall clock is not modelled. `IsAllowed` takes the time as a parameter `now`. For the fixed window counter, `now` is the clock reading already truncated to whole seconds.
- Floating point is not modelled. Timestamps, tokens, levels and rates are exact reals, so IEEE rounding is out of scope.
- Concurrency is not modelled. The source takes no locks around its dictionaries.
- Eviction of idle clients does not exist in the source and is not modelled.
- The abstract `RateLimiter` base class is not modelled as a type. Its two-method interface appears as the same `IsAllowed`/`Reset` signature on every class.
- The FastAPI application (`main.py`), the HTTP middleware (`middleware.py`) and the demonstration client (`client.py`) are not part of this model. They are framework and network glue around a single `is_allowed` call.
- The unused `heapq` import is left out.
- The constructors' preconditions were added by the model; the source never checks its configuration:
  - window sizes must be positive;
  - sliding-window limits must be at least zero;
  - token-bucket capacity must be at least zero;
  - leaky-bucket capacity must be positive;
  - rates must be at least zero.
  A zero window size makes the fixed window counter divide by zero. The other conditions are assumptions of the stated bounds.
- SlidingWindowLimiter.SlidingWindowLog.IsAllowed: promises sorted lists only when the caller's stored timestamps are not later than `now`. The source has no such guard, and a clock that goes back leaves the list out of order.
- TokenBucketLimiter.TokenBucket.IsAllowed: keeps tokens in `[0, capacity]` only when the clock has not gone back for the caller. With a negative elapsed time the source stores fewer than zero tokens.
- LeakyBucketLimiter.LeakyBucket.IsAllowed: keeps levels below `capacity + 1` only when the clock has not gone back for the caller. With a negative elapsed time the source lets the level grow without bound.
