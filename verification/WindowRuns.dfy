/** The window counter over whole runs. */
module WindowRuns {
  import opened Words
  import opened Common
  import opened RateLimiter

  /** The window after packets at the given times, from first sight. */
  function After(times: Times, limit: uint64, window: uint64): Window {
    if times == [] then NO_WINDOW
    else WindowStep(After(times[..|times| - 1], limit, window), times[|times| - 1], limit, window).0
  }

  predicate AdmitsAt(times: Times, k: nat, limit: uint64, window: uint64)
    requires k < |times|
  {
    WindowStep(After(times[..k], limit, window), times[k], limit, window).1
  }

  predicate ResetsAt(times: Times, k: nat, limit: uint64, window: uint64)
    requires k < |times|
  {
    Resets(After(times[..k], limit, window), times[k])
  }

  /** The packets admitted from time `a` up to but not including time `b`. */
  function Count(times: Times, limit: uint64, window: uint64, a: nat, b: nat): nat {
    if times == [] then 0
    else
      var n := |times| - 1;
      Count(times[..n], limit, window, a, b)
      + if a <= times[n] < b && AdmitsAt(times, n, limit, window) then 1 else 0
  }

  /** The length of a window as the code computes it. */
  function Span(window: uint64): nat {
    window * SECOND % TWO64
  }

  /** The packets admitted since the last reset. */
  function Group(w: Window, limit: uint64): nat {
    if limit == 0 then 0 else w.packets
  }

  lemma {:induction false} Shape(times: Times, limit: uint64, window: uint64)
    requires |times| > 0 && Monotone(times)
    ensures var w := After(times, limit, window);
            && w.limit == limit && w.window == window
            && 1 <= w.packets && (limit >= 1 ==> w.packets <= limit)
            && times[0] <= w.last <= times[|times| - 1]
  {
    var n := |times| - 1;
    if n == 0 {
      assert After(times[..n], limit, window) == NO_WINDOW;
    } else {
      Shape(times[..n], limit, window);
    }
  }

  // ---------- Between resets

  /** The packets admitted from the `i`-th on. */
  function CountFrom(times: Times, i: nat, limit: uint64, window: uint64): nat {
    if |times| <= i then 0
    else
      var n := |times| - 1;
      CountFrom(times[..n], i, limit, window) + if AdmitsAt(times, n, limit, window) then 1 else 0
  }

  /** Between consecutive resets at most `limit` packets are admitted. */
  lemma {:induction false} BetweenResets(times: Times, i: nat, limit: uint64, window: uint64)
    requires i < |times| && Monotone(times)
    requires forall k | i < k < |times| :: !ResetsAt(times, k, limit, window)
    ensures CountFrom(times, i, limit, window) <= Group(After(times, limit, window), limit) <= limit
  {
    var n := |times| - 1;
    var init := times[..n];
    Shape(times, limit, window);
    if n == i {
      assert CountFrom(init, i, limit, window) == 0;
      if n > 0 {
        Shape(init, limit, window);
      }
    } else {
      forall k | i < k < n
        ensures !ResetsAt(init, k, limit, window)
      {
        assert init[..k] == times[..k] && !ResetsAt(times, k, limit, window);
      }
      BetweenResets(init, i, limit, window);
      Shape(init, limit, window);
      assert !ResetsAt(times, n, limit, window);
    }
  }

  /** The counters after `n` packets from a reset on. */
  ghost predicate Counted(w: Window, n: nat, limit: uint64) {
    if limit == 0 then w.packets == 1 && w.drops == n - 1
    else if n < limit then w.packets == n && w.drops == 0
    else w.packets == limit && w.drops == n - limit
  }

  lemma OnePacket(w: Window, n: nat, now: uint64, limit: uint64, window: uint64)
    requires 0 < n && n + 1 < TWO64 && Counted(w, n, limit) && w.limit == limit && !Resets(w, now)
    ensures var (r, ok) := WindowStep(w, now, limit, window);
            Counted(r, n + 1, limit) && (ok <==> n < limit)
  {
  }

  lemma SameResets(times: Times, i: nat, limit: uint64, window: uint64)
    requires |times| > 0 && i < |times| - 1
    requires ResetsAt(times, i, limit, window) && forall k | i < k < |times| :: !ResetsAt(times, k, limit, window)
    ensures var init := times[..|times| - 1];
            ResetsAt(init, i, limit, window) && forall k | i < k < |init| :: !ResetsAt(init, k, limit, window)
  {
    var init := times[..|times| - 1];
    forall k | i <= k < |init|
      ensures ResetsAt(init, k, limit, window) == ResetsAt(times, k, limit, window)
    {
      assert init[..k] == times[..k];
    }
  }

  /**
    Since a reset exactly the first `limit` packets are admitted, and each of the others is
    counted as a drop. With a limit of zero the packet that resets is refused but not counted.
   */
  lemma {:induction false} SinceResetExactly(times: Times, i: nat, limit: uint64, window: uint64)
    requires i < |times| < TWO64 && Monotone(times)
    requires ResetsAt(times, i, limit, window) && forall k | i < k < |times| :: !ResetsAt(times, k, limit, window)
    ensures CountFrom(times, i, limit, window) == if |times| - i < limit then |times| - i else limit
    ensures Counted(After(times, limit, window), |times| - i, limit)
  {
    var n := |times| - 1;
    var init := times[..n];
    if n == i {
      assert CountFrom(init, i, limit, window) == 0;
      assert After(times, limit, window) == Window(times[n], 1, 0, limit, window);
    } else {
      SameResets(times, i, limit, window);
      SinceResetExactly(init, i, limit, window);
      Shape(init, limit, window);
      assert !ResetsAt(times, n, limit, window);
      OnePacket(After(init, limit, window), n - i, times[n], limit, window);
    }
  }

  // ---------- In any interval one window long

  lemma SinceReset(w: Window, now: uint64)
    requires 0 < w.last <= now
    ensures Resets(w, now) <==> now >= w.last + Span(w.window)
  {
    assert (now - w.last) % TWO64 == now - w.last;
  }

  /** What is known of the count in `[a, a + Span)` from the last reset. */
  ghost predicate Within(w: Window, count: nat, now: uint64, limit: uint64, window: uint64, a: nat) {
    && (count > 0 ==> now >= a)
    && (w.last < a ==> count <= Group(w, limit))
    && (w.last < a + Span(window) ==> count <= limit + Group(w, limit))
    && count <= 2 * limit
  }

  lemma StepWithin(w: Window, count: nat, before: uint64, now: uint64, limit: uint64, window: uint64, a: nat)
    requires Within(w, count, before, limit, window, a)
    requires 0 < w.last <= before <= now && w.limit == limit && w.window == window
    requires 1 <= w.packets && (limit >= 1 ==> w.packets <= limit)
    ensures var (r, ok) := WindowStep(w, now, limit, window);
            Within(r, count + if a <= now < a + Span(window) && ok then 1 else 0, now, limit, window, a)
  {
    SinceReset(w, now);
  }

  lemma {:induction false} WindowCount(times: Times, limit: uint64, window: uint64, a: nat)
    requires |times| > 0 && Monotone(times) && times[0] > 0
    ensures Within(After(times, limit, window), Count(times, limit, window, a, a + Span(window)),
                   times[|times| - 1], limit, window, a)
  {
    var n := |times| - 1;
    var init := times[..n];
    if n == 0 {
      assert After(init, limit, window) == NO_WINDOW;
      assert Count(init, limit, window, a, a + Span(window)) == 0;
    } else {
      WindowCount(init, limit, window, a);
      Shape(init, limit, window);
      StepWithin(After(init, limit, window), Count(init, limit, window, a, a + Span(window)),
                 init[n - 1], times[n], limit, window, a);
    }
  }

  /** When a third window would start after the last clock value, two limits bound the whole run. */
  lemma {:induction false} TwoWindows(times: Times, limit: uint64, window: uint64, a: nat, b: nat)
    requires |times| > 0 && Monotone(times) && times[0] > 0 && times[0] + 2 * Span(window) >= TWO64
    ensures var w, count := After(times, limit, window), Count(times, limit, window, a, b);
            && count <= limit + Group(w, limit) <= 2 * limit
            && (w.last < times[0] + Span(window) ==> count <= Group(w, limit))
  {
    var n := |times| - 1;
    var init := times[..n];
    if n == 0 {
      assert After(init, limit, window) == NO_WINDOW;
      assert Count(init, limit, window, a, b) == 0;
    } else {
      TwoWindows(init, limit, window, a, b);
      Shape(init, limit, window);
      SinceReset(After(init, limit, window), times[n]);
    }
  }

  lemma {:induction false} EmptyInterval(times: Times, limit: uint64, window: uint64, a: nat)
    ensures Count(times, limit, window, a, a) == 0
  {
    if times != [] {
      EmptyInterval(times[..|times| - 1], limit, window, a);
    }
  }

  lemma {:induction false} NoLimit(times: Times, window: uint64, a: nat, b: nat)
    requires Monotone(times)
    ensures Count(times, 0, window, a, b) == 0
  {
    if times != [] {
      var init := times[..|times| - 1];
      NoLimit(init, window, a, b);
      if init != [] {
        Shape(init, 0, window);
      }
    }
  }

  ghost predicate RunFrom(times: Times, t0: uint64) {
    |times| > 0 && Monotone(times) && times[0] == t0
  }

  /** At most two limits in the window of `window` seconds from `a`. */
  ghost predicate Bounded(times: Times, limit: uint64, window: uint64, a: nat) {
    Count(times, limit, window, a, a + window * SECOND) <= 2 * limit
  }

  /** A caller's check: the window in nanoseconds fits in 64 bits, or is so long that a third never starts. */
  predicate Sound(t0: uint64, limit: uint64, window: uint64) {
    || limit == 0 || window == 0
    || (t0 > 0 && (window * SECOND < TWO64 || t0 + 2 * Span(window) >= TWO64))
  }

  lemma WindowBound(times: Times, t0: uint64, limit: uint64, window: uint64, a: nat)
    requires RunFrom(times, t0) && Sound(t0, limit, window)
    ensures Bounded(times, limit, window, a)
  {
    if limit == 0 {
      NoLimit(times, window, a, a + window * SECOND);
    } else if window == 0 {
      EmptyInterval(times, limit, window, a);
    } else if window * SECOND < TWO64 {
      assert Span(window) == window * SECOND;
      WindowCount(times, limit, window, a);
    } else {
      TwoWindows(times, limit, window, a, a + window * SECOND);
    }
  }

  // ---------- Runs that break the bound

  function Repeat(t: uint64, n: nat): Times {
    seq(n, _ => t)
  }

  lemma OneMore(times: Times, t: uint64, limit: uint64, window: uint64, a: nat, b: nat)
    ensures var (w, ok) := WindowStep(After(times, limit, window), t, limit, window);
            && After(times + [t], limit, window) == w
            && Count(times + [t], limit, window, a, b)
               == Count(times, limit, window, a, b) + if a <= t < b && ok then 1 else 0
  {
    assert (times + [t])[..|times|] == times;
  }

  /** A window that starts at `t` admits its whole limit at `t`. */
  lemma {:induction false} FullWindow(times: Times, t: uint64, n: nat, limit: uint64, window: uint64, b: nat)
    requires 0 < n <= limit && t < b && Resets(After(times, limit, window), t)
    ensures var w := After(times + Repeat(t, n), limit, window);
            && w.last == t && w.packets <= n && w.limit == limit && w.window == window
            && Count(times + Repeat(t, n), limit, window, 0, b) == Count(times, limit, window, 0, b) + n
  {
    var before := times + Repeat(t, n - 1);
    assert times + Repeat(t, n) == before + [t];
    OneMore(before, t, limit, window, 0, b);
    if n == 1 {
      assert before == times;
    } else {
      FullWindow(times, t, n - 1, limit, window, b);
    }
  }

  /** At clock zero every packet starts a window. */
  lemma {:induction false} ClockZero(n: nat, limit: uint64, window: uint64, b: nat)
    requires limit > 0 && b > 0
    ensures After(Repeat(0, n), limit, window).last == 0
    ensures Count(Repeat(0, n), limit, window, 0, b) == n
  {
    if n > 0 {
      ClockZero(n - 1, limit, window, b);
      assert Repeat(0, n) == Repeat(0, n - 1) + [0];
      OneMore(Repeat(0, n - 1), 0, limit, window, 0, b);
    }
  }

  /** Two full windows, back to back. */
  lemma TwoFull(t0: uint64, t1: uint64, limit: uint64, window: uint64, b: nat)
    requires limit > 0 && 0 < t0 && t1 == t0 + Span(window) && t1 < b
    ensures var two := Repeat(t0, limit) + Repeat(t1, limit);
            && Count(two, limit, window, 0, b) == 2 * limit
            && After(two, limit, window).last == t1 && After(two, limit, window).window == window
  {
    var one := Repeat(t0, limit);
    assert [] + one == one;
    FullWindow([], t0, limit, limit, window, b);
    SinceReset(After(one, limit, window), t1);
    FullWindow(one, t1, limit, limit, window, b);
  }

  lemma Sorted(t0: uint64, t1: uint64, t2: uint64, n: nat)
    requires n > 0 && t0 <= t1 <= t2
    ensures RunFrom(Repeat(t0, n) + Repeat(t1, n) + [t2], t0)
  {
  }

  lemma ThreeWindows(t0: uint64, limit: uint64, window: uint64)
    requires limit > 0 && 0 < t0 && t0 + 2 * Span(window) < TWO64 <= window * SECOND
    ensures exists times: Times :: RunFrom(times, t0) && !Bounded(times, limit, window, 0)
  {
    var b := window * SECOND;
    var t1: uint64, t2: uint64 := t0 + Span(window), t0 + 2 * Span(window);
    var two := Repeat(t0, limit) + Repeat(t1, limit);
    TwoFull(t0, t1, limit, window, b);
    SinceReset(After(two, limit, window), t2);
    OneMore(two, t2, limit, window, 0, b);
    Sorted(t0, t1, t2, limit);
    assert !Bounded(two + [t2], limit, window, 0);
  }

  /** The bound holds on every run and in every interval exactly under that check. */
  lemma WindowBoundExact(t0: uint64, limit: uint64, window: uint64)
    ensures (forall times: Times, a: nat | RunFrom(times, t0) :: Bounded(times, limit, window, a))
            <==> Sound(t0, limit, window)
  {
    if Sound(t0, limit, window) {
      forall times: Times, a: nat | RunFrom(times, t0)
        ensures Bounded(times, limit, window, a)
      {
        WindowBound(times, t0, limit, window, a);
      }
    } else if t0 == 0 {
      var times := Repeat(0, 2 * limit + 1);
      ClockZero(2 * limit + 1, limit, window, window * SECOND);
      assert RunFrom(times, 0) && !Bounded(times, limit, window, 0);
    } else {
      ThreeWindows(t0, limit, window);
      var times: Times :| RunFrom(times, t0) && !Bounded(times, limit, window, 0);
    }
  }
}
