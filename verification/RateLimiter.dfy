/** The token bucket in front of desktop notifications: a burst of five, one more per second. */
module RateLimiter {
  const BURST: real := 5.0
  const REFILL_PER_SECOND: real := 1.0

  datatype Bucket = Bucket(tokens: real, updatedAt: real)

  predicate InRange(bucket: Bucket) {
    0.0 <= bucket.tokens <= BURST
  }

  function Min(a: real, b: real): real {
    if a <= b then a else b
  }

  function Refilled(bucket: Bucket, now: real): real {
    Min(bucket.tokens + (now - bucket.updatedAt) * REFILL_PER_SECOND, BURST)
  }

  /** The bucket after a request at `now`, and whether it was let through. */
  function Taken(bucket: Bucket, now: real): (Bucket, bool) {
    var tokens := Refilled(bucket, now);
    if tokens < 1.0 then (Bucket(tokens, now), false) else (Bucket(tokens - 1.0, now), true)
  }

  class RateLimiter {
    var tokens: real
    var updatedAt: real

    function Current(): Bucket
      reads this
    {
      Bucket(tokens, updatedAt)
    }

    constructor (now: real)
      ensures Current() == Bucket(BURST, now)
    {
      tokens, updatedAt := BURST, now;
    }

    method Take(now: real) returns (allowed: bool)
      requires InRange(Current()) && now >= updatedAt
      modifies this
      ensures InRange(Current())
      ensures (Current(), allowed) == Taken(old(Current()), now)
    {
      tokens := Min(tokens + (now - updatedAt) * REFILL_PER_SECOND, BURST);
      updatedAt := now;
      if tokens < 1.0 {
        return false;
      }
      tokens := tokens - 1.0;
      return true;
    }
  }

  /** The clock never runs backwards. */
  predicate Ordered(start: real, times: seq<real>)
    decreases |times|
  {
    times == [] || (times[0] >= start && Ordered(times[0], times[1..]))
  }

  function After(bucket: Bucket, times: seq<real>): Bucket
    decreases |times|
  {
    if times == [] then bucket else After(Taken(bucket, times[0]).0, times[1..])
  }

  /** How many requests of a run are let through. */
  function Allowed(bucket: Bucket, times: seq<real>): nat
    decreases |times|
  {
    if times == [] then 0 else
      var (next, allowed) := Taken(bucket, times[0]);
      (if allowed then 1 else 0) + Allowed(next, times[1..])
  }

  lemma {:induction false} StaysInRange(bucket: Bucket, times: seq<real>)
    requires InRange(bucket) && Ordered(bucket.updatedAt, times)
    ensures InRange(After(bucket, times))
    ensures times != [] ==> After(bucket, times).updatedAt == times[|times| - 1]
    decreases |times|
  {
    if times != [] {
      StaysInRange(Taken(bucket, times[0]).0, times[1..]);
    }
  }

  /** What is let through is paid for by what was there and what was refilled. */
  lemma {:induction false} AllowedIsPaidFor(bucket: Bucket, times: seq<real>)
    requires InRange(bucket) && Ordered(bucket.updatedAt, times)
    ensures Allowed(bucket, times) as real + After(bucket, times).tokens
            <= bucket.tokens + (After(bucket, times).updatedAt - bucket.updatedAt)
    decreases |times|
  {
    if times != [] {
      AllowedIsPaidFor(Taken(bucket, times[0]).0, times[1..]);
    }
  }

  lemma {:induction false} RunSplits(bucket: Bucket, a: seq<real>, b: seq<real>)
    ensures After(bucket, a + b) == After(After(bucket, a), b)
    ensures Allowed(bucket, a + b) == Allowed(bucket, a) + Allowed(After(bucket, a), b)
    decreases |a|
  {
    if a == [] {
      assert a + b == b;
    } else {
      assert (a + b)[0] == a[0] && (a + b)[1..] == a[1..] + b;
      RunSplits(Taken(bucket, a[0]).0, a[1..], b);
    }
  }

  lemma {:induction false} OrderedSplits(start: real, a: seq<real>, b: seq<real>)
    requires Ordered(start, a + b)
    ensures Ordered(start, a) && Ordered(if a == [] then start else a[|a| - 1], b)
    decreases |a|
  {
    if a == [] {
      assert a + b == b;
    } else {
      assert (a + b)[0] == a[0] && (a + b)[1..] == a[1..] + b;
      OrderedSplits(a[0], a[1..], b);
    }
  }

  /** From any state a bucket can be in, a run of T seconds lets through at most 5 + T. */
  lemma RunBound(bucket: Bucket, times: seq<real>)
    requires InRange(bucket) && times != [] && Ordered(bucket.updatedAt, times)
    ensures Allowed(bucket, times) as real <= 5.0 + (times[|times| - 1] - times[0])
  {
    var (next, allowed) := Taken(bucket, times[0]);
    var rest := times[1..];
    AllowedIsPaidFor(next, rest);
    StaysInRange(next, rest);
    assert rest != [] ==> rest[|rest| - 1] == times[|times| - 1];
  }

  /**
   In every run, the requests `inside` any window of T seconds, whatever came `before`, let through at
   most 5 + T.
   */
  lemma WindowBound(created: real, before: seq<real>, inside: seq<real>)
    requires Ordered(created, before + inside) && inside != []
    ensures (Allowed(Bucket(BURST, created), before + inside) - Allowed(Bucket(BURST, created), before)) as real
            <= 5.0 + (inside[|inside| - 1] - inside[0])
  {
    hide Taken, Refilled;
    var full := Bucket(BURST, created);
    OrderedSplits(created, before, inside);
    RunSplits(full, before, inside);
    StaysInRange(full, before);
    RunBound(After(full, before), inside);
  }

  /** From any window on, what is left is at most what the window's calls have not used up. */
  lemma AtMostAnyWindow(created: real, times: seq<real>, now: real, i: nat)
    requires Ordered(created, times + [now]) && i < |times|
    ensures var full := Bucket(BURST, created);
      Refilled(After(full, times), now) <=
        5.0 + (now - times[i]) - Allowed(After(full, times[..i]), times[i..]) as real
  {
    hide Taken, Refilled, Ordered;
    var full := Bucket(BURST, created);
    var before := After(full, times[..i]);
    OrderedSplits(created, times, [now]);
    assert times == times[..i] + times[i..];
    OrderedSplits(created, times[..i], times[i..]);
    RunSplits(full, times[..i], times[i..]);
    StaysInRange(full, times[..i]);
    PaidInWindow(before, times[i..]);
    LastNotLater(created, times, now);
  }

  lemma LastNotLater(created: real, times: seq<real>, now: real)
    requires Ordered(created, times + [now]) && times != []
    ensures times[|times| - 1] <= now
    ensures var bucket := After(Bucket(BURST, created), times);
      bucket.updatedAt == times[|times| - 1] && Refilled(bucket, now) <= bucket.tokens + (now - bucket.updatedAt)
  {
    OrderedSplits(created, times, [now]);
    StaysInRange(Bucket(BURST, created), times);
  }

  lemma PaidInWindow(bucket: Bucket, times: seq<real>)
    requires InRange(bucket) && times != [] && Ordered(bucket.updatedAt, times)
    ensures Allowed(bucket, times) as real + After(bucket, times).tokens <= 5.0 + (times[|times| - 1] - times[0])
  {
    var (next, allowed) := Taken(bucket, times[0]);
    var rest := times[1..];
    AllowedIsPaidFor(next, rest);
    StaysInRange(next, rest);
    assert rest != [] ==> rest[|rest| - 1] == times[|times| - 1];
  }

  /** And for some window it is exactly that, unless the bucket is full. */
  lemma {:induction false} ExactlySomeWindow(created: real, times: seq<real>, now: real) returns (i: nat)
    requires Ordered(created, times + [now])
    ensures var full := Bucket(BURST, created);
      var tokens := Refilled(After(full, times), now);
      tokens == 5.0 || (i < |times| &&
        tokens == 5.0 + (now - times[i]) - Allowed(After(full, times[..i]), times[i..]) as real)
    decreases |times|
  {
    var full := Bucket(BURST, created);
    i := 0;
    OrderedSplits(created, times, [now]);
    if times != [] {
      var init, last := times[..|times| - 1], times[|times| - 1];
      assert times == init + [last];
      RunSplits(full, init, [last]);
      StaysInRange(full, times);
      var before := After(full, init);
      i := ExactlySomeWindow(created, init, last);
      if Refilled(before, last) == 5.0 {
        i := |init|;
        assert times[..i] == init && times[i..] == [last];
      } else {
        assert times[..i] == init[..i] && times[i..] == init[i..] + [last];
        RunSplits(After(full, init[..i]), init[i..], [last]);
        assert init == init[..i] + init[i..];
        RunSplits(full, init[..i], init[i..]);
      }
      OneCall(before, last);
    }
  }

  lemma OneCall(bucket: Bucket, now: real)
    ensures After(bucket, [now]) == Taken(bucket, now).0
    ensures Allowed(bucket, [now]) == if Taken(bucket, now).1 then 1 else 0
  {
    assert [now][1..] == [];
  }

  /**
   The limiter refuses a call exactly when letting it through would break the bound: when for some window that
   began with an earlier call it would be more than five and one a second.
   */
  lemma RefusedExactly(created: real, times: seq<real>, now: real)
    requires Ordered(created, times + [now])
    ensures var full := Bucket(BURST, created);
      !Taken(After(full, times), now).1 <==>
        exists i :: 0 <= i < |times| &&
          Allowed(After(full, times[..i]), times[i..]) as real + 1.0 > 5.0 + (now - times[i])
  {
    hide After, Allowed, Ordered;
    var i := ExactlySomeWindow(created, times, now);
    forall i | 0 <= i < |times|
      ensures Refilled(After(Bucket(BURST, created), times), now) <=
        5.0 + (now - times[i]) - Allowed(After(Bucket(BURST, created), times[..i]), times[i..]) as real
    {
      AtMostAnyWindow(created, times, now, i);
    }
  }
}
