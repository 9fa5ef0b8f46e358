/**
  The per-address packet limiters: a token bucket and a window counter, in 64-bit
  arithmetic, over runs with a clock that never goes back.
 */
module RateLimiter {
  import opened Common
  import opened Words

  const SECOND: nat := 1_000_000_000
  const REFILL: nat := 50_000

  /** The clock at each packet of a run. */
  type Times = seq<uint64>

  ghost predicate Monotone(times: Times) {
    forall i, j | 0 <= i <= j < |times| :: times[i] <= times[j]
  }

  datatype Bucket = Bucket(tokens: uint64, last: uint64, drops: uint64)
  datatype Window = Window(last: uint64, packets: uint64, drops: uint64, limit: uint64, window: uint64)

  /** The state of one address; an address not seen yet has none. */
  datatype State = State(bucket: Bucket, window: Window)

  const NO_BUCKET := Bucket(0, 0, 0)
  const NO_WINDOW := Window(0, 0, 0, 0, 0)

  function BucketOf(s: Option<State>): Bucket {
    if s.Some? then s.value.bucket else NO_BUCKET
  }

  function WindowOf(s: Option<State>): Window {
    if s.Some? then s.value.window else NO_WINDOW
  }

  // ---------- The token bucket

  function Refilled(b: Bucket, now: uint64, burst: uint64): Bucket {
    var elapsed := (now - b.last) % TWO64;
    var add := (elapsed * REFILL) % TWO64 / SECOND;
    if add > 0 then
      var tokens := (b.tokens + add) % TWO64;
      b.(tokens := if tokens > burst then burst else tokens, last := now)
    else b
  }

  /** The new bucket, and whether the packet is admitted. */
  function BucketStep(b: Bucket, now: uint64, burst: uint64): (Bucket, bool) {
    if b.last == 0 then (Bucket(if burst > 0 then burst - 1 else 0, now, 0), burst > 0)
    else
      var b := Refilled(b, now, burst);
      if b.tokens == 0 then (b.(drops := (b.drops + 1) % TWO64), false)
      else (b.(tokens := b.tokens - 1), true)
  }

  // ---------- The window counter

  /** Whether a packet starts a new window. */
  predicate Resets(w: Window, now: uint64) {
    w.last == 0 || (now - w.last) % TWO64 >= w.window * SECOND % TWO64
  }

  /** The new window, and whether the packet is admitted. */
  function WindowStep(w: Window, now: uint64, limit: uint64, window: uint64): (Window, bool) {
    if Resets(w, now) then (Window(now, 1, 0, limit, window), limit >= 1)
    else if w.packets >= w.limit then (w.(drops := (w.drops + 1) % TWO64), false)
    else (w.(packets := w.packets + 1), true)
  }

  /** The limiter of one address on one CPU. */
  class Limiter {
    var state: Option<State>
    var blocklisted: bool

    constructor ()
      ensures state == None && !blocklisted
    {
      state, blocklisted := None, false;
    }

    method TokenBucket(now: uint64, tokens: uint64) returns (ok: bool)
      modifies this
      ensures state.Some? && (state.value.bucket, ok) == BucketStep(BucketOf(old(state)), now, tokens)
      ensures state.value.window == WindowOf(old(state))
      ensures blocklisted == (old(blocklisted) || (!ok && state.value.bucket.drops >= 8))
    {
      if state.None? {
        state := Some(State(Bucket(if tokens > 0 then tokens - 1 else 0, now, 0), NO_WINDOW));
        return tokens > 0;
      }
      var b := state.value.bucket;
      if b.last == 0 {
        b := Bucket(if tokens > 0 then tokens - 1 else 0, now, 0);
        state := Some(state.value.(bucket := b));
        return tokens > 0;
      }
      var elapsed: uint64 := (now - b.last) % TWO64;
      var add: uint64 := (elapsed * REFILL) % TWO64 / SECOND;
      if add > 0 {
        var more: uint64 := (b.tokens + add) % TWO64;
        b := b.(tokens := if more > tokens then tokens else more, last := now);
      }
      if b.tokens == 0 {
        b := b.(drops := (b.drops + 1) % TWO64);
        state := Some(state.value.(bucket := b));
        if b.drops >= 8 {
          blocklisted := true;
        }
        return false;
      }
      b := b.(tokens := b.tokens - 1);
      state := Some(state.value.(bucket := b));
      return true;
    }

    method SlidingWindow(now: uint64, limit: uint64, window: uint64) returns (ok: bool)
      modifies this
      ensures state.Some? && (state.value.window, ok) == WindowStep(WindowOf(old(state)), now, limit, window)
      ensures state.value.bucket == BucketOf(old(state))
      ensures blocklisted == (old(blocklisted) || (!ok && state.value.window.drops >= 8))
    {
      if state.None? {
        state := Some(State(NO_BUCKET, Window(now, 1, 0, limit, window)));
        return limit >= 1;
      }
      var w := state.value.window;
      if w.last == 0 || (now - w.last) % TWO64 >= w.window * SECOND % TWO64 {
        state := Some(state.value.(window := Window(now, 1, 0, limit, window)));
        return limit >= 1;
      }
      if w.packets >= w.limit {
        w := w.(drops := (w.drops + 1) % TWO64);
        state := Some(state.value.(window := w));
        if w.drops >= 8 {
          blocklisted := true;
        }
        return false;
      }
      state := Some(state.value.(window := w.(packets := w.packets + 1)));
      return true;
    }
  }
}
