/** The token bucket over whole runs. */
module TokenRuns {
  import opened Words
  import opened Common
  import opened RateLimiter

  /** The bucket after packets at the given times, from first sight. */
  function After(times: Times, burst: uint64): Bucket {
    if times == [] then NO_BUCKET
    else BucketStep(After(times[..|times| - 1], burst), times[|times| - 1], burst).0
  }

  /** How many of them are admitted. */
  function Admitted(times: Times, burst: uint64): nat {
    if times == [] then 0
    else
      var init, now := times[..|times| - 1], times[|times| - 1];
      Admitted(init, burst) + if BucketStep(After(init, burst), now, burst).1 then 1 else 0
  }

  /** Tokens earned in `ns` nanoseconds. */
  function Earned(ns: nat): nat {
    ns * REFILL / SECOND
  }

  lemma EarnedAdds(x: nat, y: nat)
    ensures Earned(x) + Earned(y) <= Earned(x + y)
  {
  }

  lemma EarnedWraps(x: nat)
    ensures (x * REFILL) % TWO64 / SECOND <= Earned(x)
  {
    WrapIsLess(x * REFILL);
    DivideLess((x * REFILL) % TWO64, x * REFILL);
  }

  lemma WrapIsLess(x: nat)
    ensures 0 <= x % TWO64 <= x
  {
  }

  lemma DivideLess(x: nat, y: nat)
    requires x <= y
    ensures x / SECOND <= y / SECOND
  {
  }

  /** A refill never adds more than was earned since the last one. */
  lemma RefilledBound(b: Bucket, now: uint64, burst: uint64)
    requires b.last <= now
    ensures var r := Refilled(b, now, burst);
            && (r == b || r.last == now)
            && b.last <= r.last && r.tokens <= b.tokens + Earned(r.last - b.last)
            && r.drops == b.drops
  {
    EarnedWraps(now - b.last);
    assert (now - b.last) % TWO64 == now - b.last;
  }

  /** One packet takes a token, or none. */
  lemma StepPaid(b: Bucket, now: uint64, burst: uint64, t0: uint64, admitted: nat)
    requires 0 < t0 <= b.last <= now && admitted + b.tokens <= burst + Earned(b.last - t0)
    ensures var (r, ok) := BucketStep(b, now, burst);
            && t0 <= r.last <= now
            && admitted + (if ok then 1 else 0) + r.tokens <= burst + Earned(r.last - t0)
  {
    var r := Refilled(b, now, burst);
    RefilledBound(b, now, burst);
    EarnedAdds(b.last - t0, r.last - b.last);
  }

  /** Every admitted packet is paid for by the burst or by an earned token. */
  lemma {:induction false} Paid(times: Times, burst: uint64)
    requires |times| > 0 && Monotone(times) && times[0] > 0
    ensures var b := After(times, burst);
            && times[0] <= b.last <= times[|times| - 1]
            && Admitted(times, burst) + b.tokens <= burst + Earned(b.last - times[0])
  {
    var n := |times| - 1;
    var init, now := times[..n], times[n];
    if n == 0 {
      assert After(init, burst) == NO_BUCKET && Admitted(init, burst) == 0;
    } else {
      Paid(init, burst);
      StepPaid(After(init, burst), now, burst, times[0], Admitted(init, burst));
    }
  }

  /** An empty bucket size admits nothing. */
  lemma {:induction false} NoBurst(times: Times)
    ensures Admitted(times, 0) == 0 && After(times, 0).tokens == 0
  {
    if times != [] {
      NoBurst(times[..|times| - 1]);
    }
  }

  /** At clock zero the bucket is set up anew for each packet. */
  lemma {:induction false} ClockZero(n: nat, burst: uint64)
    requires burst > 0
    ensures var times := seq(n, _ => 0);
            Admitted(times, burst) == n && After(times, burst).last == 0
  {
    if n > 0 {
      ClockZero(n - 1, burst);
      assert seq(n, _ => 0)[..n - 1] == seq(n - 1, _ => 0);
    }
  }

  /** The rate that the bucket promises: a burst, and what was earned since first sight. */
  ghost predicate Bounded(times: Times, burst: uint64, t: uint64)
    requires |times| > 0 && times[0] <= t
  {
    Admitted(times, burst) <= burst + Earned(t - times[0])
  }

  ghost predicate RunFrom(times: Times, t0: uint64, t: uint64) {
    |times| > 0 && Monotone(times) && times[0] == t0 && times[|times| - 1] <= t && t0 <= t
  }

  lemma TokenBound(times: Times, burst: uint64, t0: uint64, t: uint64)
    requires RunFrom(times, t0, t) && (t0 > 0 || burst == 0)
    ensures Bounded(times, burst, t)
  {
    if burst == 0 {
      NoBurst(times);
    } else {
      Paid(times, burst);
      var last := After(times, burst).last;
      EarnedAdds(last - t0, t - last);
    }
  }

  /** The promise is kept on every run exactly when the clock is not zero at first sight (or nothing is allowed). */
  lemma TokenBoundExact(t0: uint64, burst: uint64)
    ensures (forall times: Times, t: uint64 | RunFrom(times, t0, t) :: Bounded(times, burst, t))
            <==> t0 > 0 || burst == 0
  {
    if t0 > 0 || burst == 0 {
      forall times: Times, t: uint64 | RunFrom(times, t0, t)
        ensures Bounded(times, burst, t)
      {
        TokenBound(times, burst, t0, t);
      }
    } else {
      var times: Times := seq(burst + 1, _ => 0);
      ClockZero(burst + 1, burst);
      assert RunFrom(times, 0, 0) && !Bounded(times, burst, 0);
    }
  }

  lemma StepAccount(b: Bucket, now: uint64, burst: uint64)
    requires 0 < b.last <= now && b.drops + 1 < TWO64
    ensures var (r, ok) := BucketStep(b, now, burst);
            r.drops == b.drops + if ok then 0 else 1
  {
    RefilledBound(b, now, burst);
  }

  /** Every packet is admitted or counted as dropped. */
  lemma {:induction false} TokenAccount(times: Times, burst: uint64)
    requires 0 < |times| < TWO64 && Monotone(times) && times[0] > 0 && burst > 0
    ensures Admitted(times, burst) + After(times, burst).drops == |times|
  {
    var n := |times| - 1;
    var init := times[..n];
    if n == 0 {
      assert After(init, burst) == NO_BUCKET && Admitted(init, burst) == 0;
    } else {
      TokenAccount(init, burst);
      Paid(init, burst);
      StepAccount(After(init, burst), times[n], burst);
    }
  }

  // ---------- What the bucket grants

  /** The tokens that a packet finds: those left and those earned at 50000 a second, up to the burst. */
  function Available(b: Bucket, now: uint64, burst: uint64): nat
    requires b.last <= now
  {
    var tokens := b.tokens + (now - b.last) * 50_000 / 1_000_000_000;
    if tokens > burst then burst else tokens
  }

  /** A packet is admitted exactly when it finds a token, which it takes; a part of a token stays earned. */
  lemma GrantsExactly(b: Bucket, now: uint64, burst: uint64)
    requires 0 < b.last <= now && b.tokens <= burst
    requires (now - b.last) * 50_000 < TWO64 && b.tokens + (now - b.last) * 50_000 / 1_000_000_000 < TWO64
    ensures var (r, ok) := BucketStep(b, now, burst);
            && (ok <==> Available(b, now, burst) >= 1)
            && r.tokens == Available(b, now, burst) - (if ok then 1 else 0)
            && r.last == (if (now - b.last) * 50_000 / 1_000_000_000 > 0 then now else b.last)
            && r.drops == if ok then b.drops else (b.drops + 1) % TWO64
  {
    assert (now - b.last) % TWO64 == now - b.last;
  }

  /** The packets are at least 20 microseconds apart, and never so long that the product wraps. */
  ghost predicate Spaced(times: Times) {
    forall i | 0 < i < |times| :: 20_000 <= times[i] as int - times[i - 1] as int <= 368_934_881_474_191
  }

  lemma GapEarns(gap: nat)
    requires 20_000 <= gap <= 368_934_881_474_191
    ensures gap * 50_000 < TWO64 && 1 <= gap * 50_000 / 1_000_000_000 <= 18_446_744_073
  {
  }

  /** A sender that keeps to the refill rate loses no packet. */
  lemma {:induction false} SteadySender(times: Times, burst: uint64)
    requires |times| > 0 && times[0] > 0 && Spaced(times) && 0 < burst && burst + 18_446_744_073 < TWO64
    ensures Admitted(times, burst) == |times|
    ensures After(times, burst).last == times[|times| - 1] && After(times, burst).tokens <= burst
  {
    var n := |times| - 1;
    var init := times[..n];
    if n == 0 {
      assert After(init, burst) == NO_BUCKET && Admitted(init, burst) == 0;
    } else {
      SteadySender(init, burst);
      GapEarns(times[n] - times[n - 1]);
      GrantsExactly(After(init, burst), times[n], burst);
    }
  }
}
