/** The fixed token bucket: a budget of `capacity` tokens per one-second
    interval, refilled lazily when it is consulted on or after the refill
    instant. Times are in ticks of 100 ns (the unit of `DateTime.Ticks`); the
    clock and the capacity provider are inputs of every call. */
module RateLimiters {

  /** One second, in ticks. */
  const RefillIntervalTicks: int := 10_000_000

  /** The observable state of a bucket. `refilledCapacity` is the capacity
      that the most recent refill installed (0 before the first refill). */
  datatype Bucket = Bucket(
    tokens: int,
    nextRefillTime: int,
    concurrentRequestCount: int,
    refilledCapacity: int)

  /** A bucket as constructed: no tokens, refill due at tick 0. */
  function Fresh(): (b: Bucket)
    ensures b.tokens == 0 && b.nextRefillTime == 0 && b.concurrentRequestCount == 0
  {
    Bucket(0, 0, 0, 0)
  }

  /** The lazy refill run at the start of every consultation. */
  function Refilled(b: Bucket, now: int, capacity: int): (r: Bucket)
    ensures now >= b.nextRefillTime ==>
      r.tokens == capacity && r.refilledCapacity == capacity &&
      r.nextRefillTime == now + RefillIntervalTicks
    ensures now < b.nextRefillTime ==> r == b
    ensures r.concurrentRequestCount == b.concurrentRequestCount
    ensures now < r.nextRefillTime
  {
    if now >= b.nextRefillTime then
      b.(tokens := capacity, nextRefillTime := now + RefillIntervalTicks, refilledCapacity := capacity)
    else
      b
  }

  /** What a call to `ShouldThrottle` answers and leaves behind. */
  datatype Decision = Decision(throttled: bool, wait: int, after: Bucket)

  /** `ShouldThrottle(tokenCount, out wait)` at clock `now`, with the capacity
      provider answering `capacity`. */
  function Decide(b: Bucket, tokenCount: int, now: int, capacity: int): (d: Decision)
    ensures var u := Refilled(b, now, capacity);
      d.throttled <==> tokenCount > u.tokens
    ensures var u := Refilled(b, now, capacity);
      !d.throttled ==> d.wait == 0 && d.after == u.(tokens := u.tokens - tokenCount)
    ensures var u := Refilled(b, now, capacity);
      d.throttled ==> d.after == u && d.wait == (u.nextRefillTime - now) * u.concurrentRequestCount
  {
    var u := Refilled(b, now, capacity);
    if u.tokens < tokenCount then
      var waitTicks := u.nextRefillTime - now;
      if waitTicks <= 0 then Decision(false, 0, u)
      else Decision(true, waitTicks * u.concurrentRequestCount, u)
    else
      Decision(false, 0, u.(tokens := u.tokens - tokenCount))
  }

  /** The invariant of a bucket whose capacities and requests are never
      negative: the tokens lie between 0 and the capacity of the last refill. */
  predicate WithinCapacity(b: Bucket) {
    0 <= b.tokens <= b.refilledCapacity
  }

  /** A consultation of the bucket: `ShouldThrottle` or a read of `CurrentTokenCount`. */
  datatype Call =
    | ShouldThrottleCall(tokenCount: int, now: int, capacity: int)
    | CurrentTokenCountCall(now: int, capacity: int)

  function Step(b: Bucket, c: Call): Bucket {
    match c
    case ShouldThrottleCall(n, now, capacity) => Decide(b, n, now, capacity).after
    case CurrentTokenCountCall(now, capacity) => Refilled(b, now, capacity)
  }

  function Run(b: Bucket, calls: seq<Call>): Bucket
    decreases |calls|
  {
    if calls == [] then b else Run(Step(b, calls[0]), calls[1..])
  }

  predicate NonNegative(c: Call) {
    match c
    case ShouldThrottleCall(n, _, capacity) => n >= 0 && capacity >= 0
    case CurrentTokenCountCall(_, capacity) => capacity >= 0
  }

  /** Under any sequence of consultations whose capacities and token requests
      are not negative, the tokens stay within the capacity of the last refill. */
  lemma {:induction false} WithinCapacityAlways(b: Bucket, calls: seq<Call>)
    requires WithinCapacity(b)
    requires forall i :: 0 <= i < |calls| ==> NonNegative(calls[i])
    ensures WithinCapacity(Run(b, calls))
    decreases |calls|
  {
    if calls != [] {
      assert NonNegative(calls[0]);
      var b' := Step(b, calls[0]);
      assert WithinCapacity(b');
      assert forall i :: 0 <= i < |calls[1..]| ==> NonNegative(calls[1..][i]) by {
        forall i | 0 <= i < |calls[1..]| ensures NonNegative(calls[1..][i]) {
          assert calls[1..][i] == calls[i + 1];
        }
      }
      WithinCapacityAlways(b', calls[1..]);
    }
  }

  /** A request for more tokens than the capacity is throttled even right after
      a refill, as long as the capacity has not shrunk since the last refill
      (otherwise tokens left from a larger capacity may still cover it). */
  lemma OverCapacityIsThrottled(b: Bucket, tokenCount: int, now: int, capacity: int)
    requires WithinCapacity(b) && b.refilledCapacity <= capacity
    requires tokenCount > capacity
    ensures Decide(b, tokenCount, now, capacity).throttled
    ensures Decide(b, tokenCount, now, capacity).after.tokens == Refilled(b, now, capacity).tokens
  {
  }

  /** With at least one registered request, waiting the returned time reaches
      the refill instant, so the next consultation refills the bucket. */
  lemma {:induction false} WaitReachesRefill(b: Bucket, tokenCount: int, now: int, capacity: int)
    requires b.concurrentRequestCount >= 1
    requires Decide(b, tokenCount, now, capacity).throttled
    ensures var d := Decide(b, tokenCount, now, capacity);
      d.wait > 0 && now + d.wait >= d.after.nextRefillTime
  {
    var d := Decide(b, tokenCount, now, capacity);
    var gap := d.after.nextRefillTime - now;
    ProductCoversFactor(gap, b.concurrentRequestCount);
  }

  lemma {:induction false} ProductCoversFactor(gap: int, k: int)
    requires gap > 0 && k >= 1
    ensures gap * k >= gap
    decreases k
  {
    if k > 1 {
      ProductCoversFactor(gap, k - 1);
      assert gap * k == gap * (k - 1) + gap;
    }
  }

  /** With no registered request the wait is zero, yet the answer is still "throttled". */
  lemma ZeroWaitWithoutRegistrations(b: Bucket, tokenCount: int, now: int, capacity: int)
    requires b.concurrentRequestCount == 0
    requires tokenCount > Refilled(b, now, capacity).tokens
    ensures Decide(b, tokenCount, now, capacity).throttled
    ensures Decide(b, tokenCount, now, capacity).wait == 0
  {
  }

  /** A refill forgets every earlier consumption: two buckets consulted on or
      after their refill instants hold the same tokens afterwards. */
  lemma RefillForgetsConsumption(b1: Bucket, b2: Bucket, now: int, capacity: int)
    requires now >= b1.nextRefillTime && now >= b2.nextRefillTime
    ensures Refilled(b1, now, capacity).tokens == Refilled(b2, now, capacity).tokens == capacity
    ensures Refilled(b1, now, capacity).nextRefillTime == Refilled(b2, now, capacity).nextRefillTime
  {
  }

  /** The scenarios of the bucket's tests, with capacity 10 at an arbitrary
      clock time `t` (a `DateTime` is never before tick 0). */
  lemma FirstCallFillsToCapacity(t: int)
    requires t >= 0
    ensures var d := Decide(Fresh(), 2, t, 10); !d.throttled && d.after.tokens == 8
  {
  }

  lemma TwoSmallRequestsLeaveSix(t: int)
    requires t >= 0
    ensures Run(Fresh(), [ShouldThrottleCall(2, t, 10), ShouldThrottleCall(2, t, 10)]).tokens == 6
  {
    var b1 := Step(Fresh(), ShouldThrottleCall(2, t, 10));
    assert b1.tokens == 8;
    assert Run(b1, [ShouldThrottleCall(2, t, 10)]).tokens == 6;
  }

  lemma LargeRequestsLeaveBucketFull(t: int)
    requires t >= 0
    ensures Decide(Fresh(), 12, t, 10).throttled
    ensures Decide(Decide(Fresh(), 12, t, 10).after, 12, t, 10).throttled
    ensures Refilled(Decide(Decide(Fresh(), 12, t, 10).after, 12, t, 10).after, t, 10).tokens == 10
  {
  }

  /** Consume 2 + 2, wait ten seconds, consume 2 + 2: the bucket holds 6 again. */
  lemma RefillAfterTenSeconds(t: int)
    requires t >= 0
    ensures var later := t + 10 * RefillIntervalTicks;
      Run(Fresh(), [ShouldThrottleCall(2, t, 10), ShouldThrottleCall(2, t, 10),
                    ShouldThrottleCall(2, later, 10), ShouldThrottleCall(2, later, 10)]).tokens == 6
  {
    var later := t + 10 * RefillIntervalTicks;
    var calls := [ShouldThrottleCall(2, t, 10), ShouldThrottleCall(2, t, 10),
                  ShouldThrottleCall(2, later, 10), ShouldThrottleCall(2, later, 10)];
    var b1 := Step(Fresh(), calls[0]);
    var b2 := Step(b1, calls[1]);
    var b3 := Step(b2, calls[2]);
    var b4 := Step(b3, calls[3]);
    assert b2.tokens == 6 && b2.nextRefillTime == t + RefillIntervalTicks;
    assert b3.tokens == 8;
    assert b4.tokens == 6;
    assert Run(b3, calls[3..]) == b4 by { assert calls[3..][1..] == []; }
    assert Run(b2, calls[2..]) == Run(b3, calls[3..]) by { assert calls[2..][1..] == calls[3..]; }
    assert Run(b1, calls[1..]) == Run(b2, calls[2..]) by { assert calls[1..][1..] == calls[2..]; }
  }

  /** The bucket as an object updated in place by its consultations. */
  class FixedTokenBucket {
    var tokens: int
    var nextRefillTime: int
    var concurrentRequestCount: int
    ghost var refilledCapacity: int

    ghost function State(): Bucket
      reads this
    {
      Bucket(tokens, nextRefillTime, concurrentRequestCount, refilledCapacity)
    }

    constructor ()
      ensures State() == Fresh()
    {
      tokens := 0;
      nextRefillTime := 0;
      concurrentRequestCount := 0;
      refilledCapacity := 0;
    }

    method UpdateTokens(now: int, capacity: int)
      modifies this
      ensures State() == Refilled(old(State()), now, capacity)
    {
      if now >= nextRefillTime {
        tokens := capacity;
        refilledCapacity := capacity;
        nextRefillTime := now + RefillIntervalTicks;
      }
    }

    method ShouldThrottle(tokenCount: int, now: int, capacity: int) returns (throttled: bool, wait: int)
      modifies this
      ensures var d := Decide(old(State()), tokenCount, now, capacity);
        throttled == d.throttled && wait == d.wait && State() == d.after
    {
      wait := 0;
      UpdateTokens(now, capacity);
      if tokens < tokenCount {
        var waitTicks := nextRefillTime - now;
        if waitTicks <= 0 {
          return false, 0;
        }
        wait := waitTicks * concurrentRequestCount;
        return true, wait;
      }
      tokens := tokens - tokenCount;
      return false, 0;
    }

    /** Not a plain getter: it runs the lazy refill first. */
    method CurrentTokenCount(now: int, capacity: int) returns (count: int)
      modifies this
      ensures State() == Refilled(old(State()), now, capacity)
      ensures count == tokens
    {
      UpdateTokens(now, capacity);
      count := tokens;
    }

    method RegisterRequest()
      modifies this`concurrentRequestCount
      ensures concurrentRequestCount == old(concurrentRequestCount) + 1
    {
      concurrentRequestCount := concurrentRequestCount + 1;
    }

    /** Disposing the handle `RegisterRequest` returned. */
    method ReleaseRequest()
      modifies this`concurrentRequestCount
      ensures concurrentRequestCount == old(concurrentRequestCount) - 1
    {
      concurrentRequestCount := concurrentRequestCount - 1;
    }
  }

  /** Registering and then disposing the registration restores the count. */
  method RegistrationIsRestored(bucket: FixedTokenBucket)
    modifies bucket
    ensures bucket.State() == old(bucket.State())
  {
    bucket.RegisterRequest();
    bucket.ReleaseRequest();
  }
}
