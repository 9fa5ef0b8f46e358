/**
  Ownership of the packet frames in UMEM.

  Every frame is in exactly one place: the fill ring, the RX ring, the batch the worker is
  looking at, the fallback ring, the TX ring, the completion ring, or the worker's pool of
  transmit frames. The kernel moves frames from the fill ring to the RX ring and from the TX
  ring to the completion ring; the worker does the rest. Constants are those of the default
  configuration.
 */
module Umem {
  import opened Common
  import Runs

  const NUM_FRAMES: nat := 4096
  const FRAME_SIZE: nat := 2048
  const FQ_RING_SIZE: nat := 2048
  const TX_RING_SIZE: nat := 2048
  const FALLBACK_CAPACITY: nat := 4096
  const BATCH_SIZE: nat := 64
  const TX_BOUNDARY: nat := 2048 * 2048

  /** The frame an address lies in; received packets may start anywhere in their frame. */
  function Frame(addr: nat): nat {
    addr / 2048
  }

  datatype Umem = Umem(
    fill: seq<nat>, rx: seq<nat>, batch: seq<nat>, fallback: seq<nat>, tx: seq<nat>, cq: seq<nat>, pool: seq<nat>)

  // ---------- Counting

  /** How often frame `f` occurs in a list of addresses. */
  ghost function Occ(s: seq<nat>, f: nat): nat {
    if s == [] then 0 else Occ(s[..|s| - 1], f) + if Frame(s[|s| - 1]) == f then 1 else 0
  }

  lemma {:induction false} OccConcat(a: seq<nat>, b: seq<nat>, f: nat)
    ensures Occ(a + b, f) == Occ(a, f) + Occ(b, f)
  {
    if b == [] {
      assert a + b == a;
    } else {
      assert (a + b)[..|a + b| - 1] == a + b[..|b| - 1];
      OccConcat(a, b[..|b| - 1], f);
    }
  }

  lemma OccOne(x: nat, f: nat)
    ensures Occ([x], f) == if Frame(x) == f then 1 else 0
  {
    assert [x][..0] == [];
  }

  lemma OccSplit(s: seq<nat>, k: nat, f: nat)
    requires k <= |s|
    ensures Occ(s, f) == Occ(s[..k], f) + Occ(s[k..], f)
  {
    OccConcat(s[..k], s[k..], f);
    assert s[..k] + s[k..] == s;
  }

  ghost predicate FramesBelow(s: seq<nat>, bound: nat) {
    forall i | 0 <= i < |s| :: Frame(s[i]) < bound
  }

  ghost function OccBelow(s: seq<nat>, bound: nat): nat {
    if bound == 0 then 0 else OccBelow(s, bound - 1) + Occ(s, bound - 1)
  }

  lemma {:induction false} OccBelowAppend(s: seq<nat>, bound: nat)
    requires s != []
    ensures OccBelow(s, bound) == OccBelow(s[..|s| - 1], bound) + if Frame(s[|s| - 1]) < bound then 1 else 0
  {
    if bound != 0 {
      OccBelowAppend(s, bound - 1);
    }
  }

  lemma {:induction false} OccBelowIsLength(s: seq<nat>, bound: nat)
    requires FramesBelow(s, bound)
    ensures OccBelow(s, bound) == |s|
  {
    if s == [] {
      OccBelowEmpty(bound);
    } else {
      OccBelowAppend(s, bound);
      OccBelowIsLength(s[..|s| - 1], bound);
    }
  }

  lemma {:induction false} OccBelowEmpty(bound: nat)
    ensures OccBelow([], bound) == 0
  {
    if bound != 0 {
      OccBelowEmpty(bound - 1);
    }
  }

  lemma {:induction false} OccBelowBound(s: seq<nat>, bound: nat)
    requires forall f: nat | f < bound :: Occ(s, f) <= 1
    ensures OccBelow(s, bound) <= bound
  {
    if bound != 0 {
      OccBelowBound(s, bound - 1);
    }
  }

  /** A list of distinct frames below `bound` has at most `bound` entries. */
  lemma Pigeonhole(s: seq<nat>, bound: nat)
    requires FramesBelow(s, bound) && forall f: nat | f < bound :: Occ(s, f) <= 1
    ensures |s| <= bound
  {
    OccBelowIsLength(s, bound);
    OccBelowBound(s, bound);
  }

  // ---------- The invariant

  ghost function Total(u: Umem, f: nat): nat {
    Occ(u.fill, f) + Occ(u.rx, f) + Occ(u.batch, f) + Occ(u.fallback, f) + Occ(u.tx, f) + Occ(u.cq, f) + Occ(u.pool, f)
  }

  /** Every frame is in exactly one place. */
  ghost predicate Conserved(u: Umem) {
    forall f: nat :: Total(u, f) == if f < 4096 then 1 else 0
  }

  ghost predicate FromPool(s: seq<nat>) {
    forall i | 0 <= i < |s| :: s[i] >= TX_BOUNDARY
  }

  /** Receive frames stay out of the pool, transmit frames out of the receive side. */
  ghost predicate Apart(u: Umem) {
    && FramesBelow(u.fill, FQ_RING_SIZE) && FramesBelow(u.rx, FQ_RING_SIZE)
    && FramesBelow(u.batch, FQ_RING_SIZE) && FramesBelow(u.fallback, FQ_RING_SIZE)
    && FromPool(u.pool)
  }

  ghost predicate Inv(u: Umem) {
    Conserved(u) && Apart(u)
  }

  // ---------- Steps

  /** The addresses of a list that belong to the receive side, or to the pool, in order. */
  ghost function RxPart(s: seq<nat>): (r: seq<nat>)
    ensures forall i | 0 <= i < |r| :: r[i] < TX_BOUNDARY
  {
    if s == [] then []
    else RxPart(s[..|s| - 1]) + if s[|s| - 1] < TX_BOUNDARY then [s[|s| - 1]] else []
  }

  ghost function TxPart(s: seq<nat>): (r: seq<nat>)
    ensures FromPool(r)
  {
    if s == [] then []
    else TxPart(s[..|s| - 1]) + if s[|s| - 1] < TX_BOUNDARY then [] else [s[|s| - 1]]
  }

  lemma {:induction false} OccParts(s: seq<nat>, f: nat)
    ensures Occ(RxPart(s), f) + Occ(TxPart(s), f) == Occ(s, f)
  {
    if s != [] {
      var x := s[|s| - 1];
      OccParts(s[..|s| - 1], f);
      OccConcat(RxPart(s[..|s| - 1]), if x < TX_BOUNDARY then [x] else [], f);
      OccConcat(TxPart(s[..|s| - 1]), if x < TX_BOUNDARY then [] else [x], f);
      OccOne(x, f);
    }
  }

  lemma CountMore(a: seq<nat>, b: seq<nat>, x: nat)
    ensures multiset(a + b)[x] == multiset(a)[x] + multiset(b)[x]
  {
  }

  lemma CountLast(s: seq<nat>, x: nat)
    requires s != []
    ensures multiset(s)[x] == multiset(s[..|s| - 1])[x] + if s[|s| - 1] == x then 1 else 0
  {
    assert s == s[..|s| - 1] + [s[|s| - 1]];
  }

  /** The two parts share out the addresses at frame 2048, and nothing is added or dropped. */
  lemma {:induction false} PartsExact(s: seq<nat>, x: nat)
    ensures multiset(RxPart(s))[x] == if x < 4_194_304 then multiset(s)[x] else 0
    ensures multiset(TxPart(s))[x] == if x < 4_194_304 then 0 else multiset(s)[x]
  {
    if s != [] {
      var init, y := s[..|s| - 1], s[|s| - 1];
      PartsExact(init, x);
      CountLast(s, x);
      if y < TX_BOUNDARY {
        CountMore(RxPart(init), [y], x);
        assert TxPart(s) == TxPart(init);
      } else {
        CountMore(TxPart(init), [y], x);
        assert RxPart(s) == RxPart(init);
      }
    }
  }

  datatype Action =
    | Complete(n: nat)                 // free_completion_ring, `n` completed descriptors
    | Peek(n: nat)                     // look at `n` received packets
    | Recycle                          // first packet of the batch to the fallback ring
    | Reply                            // first packet of the batch is sent back in its own frame
    | SendFromPool                     // a frame of the pool is sent
    | Flush(n: nat)                    // `n` addresses of the fallback ring to the fill ring
    | KernelReceive(addr: nat)         // a frame of the fill ring gets a packet at `addr`
    | KernelComplete                   // a sent frame is completed

  ghost predicate Possible(u: Umem, a: Action) {
    match a
    case Complete(n) => n <= |u.cq| && n <= BATCH_SIZE
    case Peek(n) => u.batch == [] && n <= |u.rx| && n <= BATCH_SIZE
    case Recycle => u.batch != []
    case Reply => u.batch != [] && |u.tx| < TX_RING_SIZE
    case SendFromPool => u.pool != [] && |u.tx| < TX_RING_SIZE
    case Flush(n) => n <= |u.fallback| && |u.fill| + n <= FQ_RING_SIZE
    case KernelReceive(addr) => u.fill != [] && Frame(addr) == Frame(u.fill[0])
    case KernelComplete => u.tx != []
  }

  /** Reserving on a producer ring is all or nothing. What finds no room is lost. */
  ghost function Reserve(ring: seq<nat>, size: nat, addrs: seq<nat>): seq<nat> {
    if |ring| + |addrs| <= size then ring + addrs else ring
  }

  ghost function Next(u: Umem, a: Action): Umem
    requires Possible(u, a)
  {
    match a
    case Complete(n) =>
      u.(pool := u.pool + TxPart(u.cq[..n]),
         fill := Reserve(u.fill, FQ_RING_SIZE, RxPart(u.cq[..n])),
         cq := u.cq[n..])
    case Peek(n) => u.(batch := u.rx[..n], rx := u.rx[n..])
    case Recycle =>
      if |u.fallback| < FALLBACK_CAPACITY then u.(fallback := u.fallback + [u.batch[0]], batch := u.batch[1..])
      else u.(fill := Reserve(u.fill, FQ_RING_SIZE, [u.batch[0]]), batch := u.batch[1..])
    case Reply => u.(tx := u.tx + [u.batch[0]], batch := u.batch[1..])
    case SendFromPool => u.(tx := u.tx + [u.pool[|u.pool| - 1]], pool := u.pool[..|u.pool| - 1])
    case Flush(n) => u.(fill := u.fill + u.fallback[..n], fallback := u.fallback[n..])
    case KernelReceive(addr) => u.(rx := u.rx + [addr], fill := u.fill[1..])
    case KernelComplete => u.(cq := u.cq + [u.tx[0]], tx := u.tx[1..])
  }

  // ---------- There is always room

  /** Everything on the receive side, and the receive frames among the first `n` completions. */
  ghost function RxSide(u: Umem, n: nat): seq<nat>
    requires n <= |u.cq|
  {
    u.fill + u.rx + u.batch + u.fallback + RxPart(u.cq[..n])
  }

  lemma RxOcc(u: Umem, n: nat, f: nat)
    requires n <= |u.cq| && Total(u, f) <= 1
    ensures Occ(RxSide(u, n), f) <= 1
  {
    var a, b := u.fill + u.rx, u.batch + u.fallback;
    assert RxSide(u, n) == a + b + RxPart(u.cq[..n]);
    OccConcat(a + b, RxPart(u.cq[..n]), f);
    OccConcat(a, b, f);
    OccConcat(u.fill, u.rx, f);
    OccConcat(u.batch, u.fallback, f);
    OccParts(u.cq[..n], f);
    OccSplit(u.cq, n, f);
  }

  lemma BelowConcat(a: seq<nat>, b: seq<nat>, bound: nat)
    requires FramesBelow(a, bound) && FramesBelow(b, bound)
    ensures FramesBelow(a + b, bound)
  {
  }

  lemma RxBelow(u: Umem, n: nat)
    requires n <= |u.cq| && Apart(u)
    ensures FramesBelow(RxSide(u, n), FQ_RING_SIZE)
  {
    BelowConcat(u.fill, u.rx, FQ_RING_SIZE);
    BelowConcat(u.fill + u.rx, u.batch, FQ_RING_SIZE);
    BelowConcat(u.fill + u.rx + u.batch, u.fallback, FQ_RING_SIZE);
    BelowConcat(u.fill + u.rx + u.batch + u.fallback, RxPart(u.cq[..n]), FQ_RING_SIZE);
  }

  lemma RxRoom(u: Umem, n: nat)
    requires Inv(u) && n <= |u.cq|
    ensures |u.fill| + |u.rx| + |u.batch| + |u.fallback| + |RxPart(u.cq[..n])| <= FQ_RING_SIZE
  {
    RxBelow(u, n);
    forall f: nat | f < FQ_RING_SIZE
      ensures Occ(RxSide(u, n), f) <= 1
    {
      assert Total(u, f) == 1;
      RxOcc(u, n, f);
    }
    Pigeonhole(RxSide(u, n), FQ_RING_SIZE);
  }

  /** The fill ring always has room for completed receive frames. */
  lemma CompletionNeverFails(u: Umem, n: nat)
    requires Inv(u) && n <= |u.cq|
    ensures |u.fill| + |RxPart(u.cq[..n])| <= 2048
  {
    RxRoom(u, n);
  }

  /** The fallback ring always has room for a packet of the batch, and the fill ring for the whole fallback ring. */
  lemma FallbackNeverFails(u: Umem)
    requires Inv(u)
    ensures u.batch != [] ==> |u.fallback| < 4096
    ensures |u.fill| + |u.fallback| <= 2048
  {
    RxRoom(u, 0);
  }

  // ---------- Steps keep the invariant

  /** Moving the first address of one list to the end of another. */
  lemma MoveFirst(a: seq<nat>, b: seq<nat>, f: nat)
    requires a != []
    ensures Occ(a[1..], f) + Occ(b + [a[0]], f) == Occ(a, f) + Occ(b, f)
  {
    OccConcat(b, [a[0]], f);
    OccSplit(a, 1, f);
    assert a[..1] == [a[0]];
  }

  lemma MoveMany(a: seq<nat>, b: seq<nat>, n: nat, f: nat)
    requires n <= |a|
    ensures Occ(a[n..], f) + Occ(b + a[..n], f) == Occ(a, f) + Occ(b, f)
  {
    OccConcat(b, a[..n], f);
    OccSplit(a, n, f);
  }

  lemma MoveCompleted(u: Umem, n: nat, f: nat)
    requires n <= |u.cq|
    ensures Occ(u.cq[n..], f) + Occ(u.pool + TxPart(u.cq[..n]), f) + Occ(u.fill + RxPart(u.cq[..n]), f)
            == Occ(u.cq, f) + Occ(u.pool, f) + Occ(u.fill, f)
  {
    OccConcat(u.pool, TxPart(u.cq[..n]), f);
    OccConcat(u.fill, RxPart(u.cq[..n]), f);
    OccParts(u.cq[..n], f);
    OccSplit(u.cq, n, f);
  }

  lemma StepTotal(u: Umem, a: Action, f: nat)
    requires Inv(u) && Possible(u, a)
    ensures Total(Next(u, a), f) == Total(u, f)
  {
    match a
    case Complete(n) =>
      CompletionNeverFails(u, n);
      MoveCompleted(u, n, f);
    case Peek(n) =>
      MoveMany(u.rx, u.batch, n, f);
      assert u.batch + u.rx[..n] == u.rx[..n];
    case Recycle =>
      FallbackNeverFails(u);
      MoveFirst(u.batch, u.fallback, f);
    case Reply => MoveFirst(u.batch, u.tx, f);
    case SendFromPool =>
      OccConcat(u.tx, [u.pool[|u.pool| - 1]], f);
      OccOne(u.pool[|u.pool| - 1], f);
    case Flush(n) => MoveMany(u.fallback, u.fill, n, f);
    case KernelReceive(addr) =>
      MoveFirst(u.fill, u.rx, f);
      OccConcat(u.rx, [addr], f);
      OccConcat(u.rx, [u.fill[0]], f);
      OccOne(addr, f);
      OccOne(u.fill[0], f);
    case KernelComplete => MoveFirst(u.tx, u.cq, f);
  }

  lemma StepApart(u: Umem, a: Action)
    requires Inv(u) && Possible(u, a)
    ensures Apart(Next(u, a))
  {
  }

  lemma StepInv(u: Umem, a: Action)
    requires Inv(u) && Possible(u, a)
    ensures Inv(Next(u, a))
  {
    StepApart(u, a);
    forall f: nat
      ensures Total(Next(u, a), f) == if f < NUM_FRAMES then 1 else 0
    {
      StepTotal(u, a, f);
      assert Total(u, f) == if f < NUM_FRAMES then 1 else 0;
    }
  }

  // ---------- Where each address goes

  datatype Place = Fill | Rx | Batch | Fallback | Tx | Completion | Pool

  ghost function At(u: Umem, q: Place): seq<nat> {
    match q
    case Fill => u.fill
    case Rx => u.rx
    case Batch => u.batch
    case Fallback => u.fallback
    case Tx => u.tx
    case Completion => u.cq
    case Pool => u.pool
  }

  /** The first `n` addresses at `from` are now the last ones at `to`. Nothing else moved. */
  ghost predicate MovedFront(u: Umem, v: Umem, from: Place, to: Place, n: nat) {
    && n <= |At(u, from)|
    && At(v, from) == At(u, from)[n..]
    && At(v, to) == At(u, to) + At(u, from)[..n]
    && forall q: Place :: q != from && q != to ==> At(v, q) == At(u, q)
  }

  /**
    Which list each address leaves and which it enters. Every list is a queue except the pool,
    whose last frame is sent first. The kernel stores a packet in the frame that it took.
   */
  lemma Moves(u: Umem, a: Action)
    requires Inv(u) && Possible(u, a) && !a.Complete?
    ensures var v := Next(u, a);
            match a
            case Peek(n) => MovedFront(u, v, Rx, Batch, n)
            case Recycle => MovedFront(u, v, Batch, Fallback, 1)
            case Reply => MovedFront(u, v, Batch, Tx, 1)
            case Flush(n) => MovedFront(u, v, Fallback, Fill, n)
            case KernelComplete => MovedFront(u, v, Tx, Completion, 1)
            case KernelReceive(addr) =>
              u.fill[0] / 2048 == addr / 2048 && v == u.(fill := u.fill[1..], rx := u.rx + [addr])
            case SendFromPool =>
              exists x :: u.pool == v.pool + [x] && v.tx == u.tx + [x] && v == u.(pool := v.pool, tx := v.tx)
            case Complete(_) => true
  {
    match a
    case Recycle => FallbackNeverFails(u);
    case SendFromPool => assert u.pool == Next(u, a).pool + [u.pool[|u.pool| - 1]];
    case _ =>
  }

  /** Completed frames go to the pool or to the fill ring, whichever side they are of, and none is lost. */
  lemma MovesCompleted(u: Umem, n: nat, x: nat)
    requires Inv(u) && Possible(u, Complete(n))
    ensures var v := Next(u, Complete(n));
            && v == u.(cq := u.cq[n..], pool := v.pool, fill := v.fill)
            && u.pool <= v.pool && u.fill <= v.fill
            && multiset(v.pool)[x] == multiset(u.pool)[x] + (if x < 4_194_304 then 0 else multiset(u.cq[..n])[x])
            && multiset(v.fill)[x] == multiset(u.fill)[x] + (if x < 4_194_304 then multiset(u.cq[..n])[x] else 0)
  {
    CompletionNeverFails(u, n);
    PartsExact(u.cq[..n], x);
    CountMore(u.pool, TxPart(u.cq[..n]), x);
    CountMore(u.fill, RxPart(u.cq[..n]), x);
  }

  // ---------- Whole runs

  /** Addresses of the frames `lo .. hi`. */
  ghost function Frames(lo: nat, hi: nat): (s: seq<nat>)
    requires lo <= hi
    ensures |s| == hi - lo && forall i | 0 <= i < hi - lo :: s[i] == (lo + i) * FRAME_SIZE
    decreases hi
  {
    if lo == hi then [] else Frames(lo, hi - 1) + [(hi - 1) * FRAME_SIZE]
  }

  lemma {:induction false} OccFrames(lo: nat, hi: nat, f: nat)
    requires lo <= hi
    ensures Occ(Frames(lo, hi), f) == if lo <= f < hi then 1 else 0
    decreases hi
  {
    if lo < hi {
      OccFrames(lo, hi - 1, f);
      OccConcat(Frames(lo, hi - 1), [(hi - 1) * FRAME_SIZE], f);
      OccOne((hi - 1) * FRAME_SIZE, f);
    }
  }

  /** The fill ring holds the first frames, the pool the others. */
  ghost function Start(): Umem {
    Umem(Frames(0, FQ_RING_SIZE), [], [], [], [], [], Frames(FQ_RING_SIZE, NUM_FRAMES))
  }

  lemma StartInv()
    ensures Inv(Start())
  {
    forall f: nat
      ensures Total(Start(), f) == if f < NUM_FRAMES then 1 else 0
    {
      OccFrames(0, FQ_RING_SIZE, f);
      OccFrames(FQ_RING_SIZE, NUM_FRAMES, f);
    }
  }

  ghost predicate Step(u: Umem, a: Action, u': Umem) {
    Possible(u, a) && u' == Next(u, a)
  }

  /** In every state of every run of worker and kernel, each frame is in exactly one place and on its own side. */
  lemma Conservation(states: seq<Umem>, actions: seq<Action>, i: nat)
    requires |states| == |actions| + 1 && i < |states| && states[0] == Start()
    requires forall j {:trigger actions[j]} | 0 <= j < |actions| :: Step(states[j], actions[j], states[j + 1])
    ensures Inv(states[i])
  {
    StartInv();
    forall u, a, u' | Inv(u) && Step(u, a, u')
      ensures Inv(u')
    {
      StepInv(u, a);
    }
    Runs.TraceInvariant(Step, Inv, states, actions, i);
  }
}
