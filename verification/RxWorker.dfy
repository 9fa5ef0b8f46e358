/** The worker's loops over the rings, proved to move frames as the steps of `Umem` do. */
module RxWorkers {
  import opened Common
  import opened Umem
  import opened FallbackRings

  const MSS: nat := 1460

  /** The segmenting send: how far it gets and what it leaves behind. */
  datatype Sending = Sending(umem: Umem, offset: nat)

  ghost function SendAll(u: Umem, offset: nat, len: nat): (r: Sending)
    requires offset <= len
    ensures offset <= r.offset <= len
    decreases len - offset
  {
    if offset == len || !Possible(u, SendFromPool) then Sending(u, offset)
    else SendAll(Next(u, SendFromPool), if len - offset < MSS then len else offset + MSS, len)
  }

  function Min(a: nat, b: nat): nat {
    if a < b then a else b
  }

  /** How many frames a send of `len` bytes takes: one for each 1460 bytes, as far as frames and TX slots go. */
  ghost function FrameCount(u: Umem, len: nat): nat {
    Min((len + 1459) / 1460, Min(|u.pool|, if |u.tx| < 2048 then 2048 - |u.tx| else 0))
  }

  /** The last `k` addresses of a list, last one first. */
  ghost function LastFirst(s: seq<nat>, k: nat): (r: seq<nat>)
    requires k <= |s|
    ensures |r| == k && forall i | 0 <= i < k :: r[i] == s[|s| - 1 - i]
  {
    seq(k, i requires 0 <= i < k => s[|s| - 1 - i])
  }

  /** One frame fewer is needed after a segment. */
  lemma CountAfter(u: Umem, len: nat)
    requires len > 0 && Possible(u, SendFromPool)
    ensures FrameCount(u, len) > 0
    ensures FrameCount(Next(u, SendFromPool), if len < 1460 then 0 else len - 1460) == FrameCount(u, len) - 1
  {
  }

  /** `v` is `u` after the last `k` frames of the pool went to the TX ring. */
  ghost predicate Sent(u: Umem, v: Umem, k: nat) {
    k <= |u.pool| && v == u.(tx := u.tx + LastFirst(u.pool, k), pool := u.pool[..|u.pool| - k])
  }

  lemma OneMore(u: Umem, v: Umem, k: nat)
    requires 0 < k <= |u.pool| && Possible(u, SendFromPool) && Sent(Next(u, SendFromPool), v, k - 1)
    ensures Sent(u, v, k)
  {
    var w := Next(u, SendFromPool);
    assert w.tx + LastFirst(w.pool, k - 1) == u.tx + LastFirst(u.pool, k);
    assert w.pool[..|w.pool| - (k - 1)] == u.pool[..|u.pool| - k];
  }

  lemma {:induction false} SendAllRings(u: Umem, offset: nat, len: nat)
    requires offset <= len
    ensures Sent(u, SendAll(u, offset, len).umem, FrameCount(u, len - offset))
    decreases len - offset
  {
    if offset < len && Possible(u, SendFromPool) {
      SendAllRings(Next(u, SendFromPool), if len - offset < MSS then len else offset + MSS, len);
      CountAfter(u, len - offset);
      OneMore(u, SendAll(u, offset, len).umem, FrameCount(u, len - offset));
    } else {
      assert u.tx + LastFirst(u.pool, 0) == u.tx;
    }
  }

  lemma {:induction false} SendAllBytes(u: Umem, offset: nat, len: nat)
    requires offset <= len
    ensures SendAll(u, offset, len).offset == Min(len, offset + 1460 * FrameCount(u, len - offset))
    decreases len - offset
  {
    if offset < len && Possible(u, SendFromPool) {
      SendAllBytes(Next(u, SendFromPool), if len - offset < MSS then len else offset + MSS, len);
      CountAfter(u, len - offset);
    }
  }

  /** The send takes its frames from the end of the pool, one for each segment, and changes nothing else. */
  lemma SendAllFrames(u: Umem, len: nat)
    ensures var r, k := SendAll(u, 0, len), FrameCount(u, len);
            && r.umem == u.(tx := u.tx + LastFirst(u.pool, k), pool := u.pool[..|u.pool| - k])
            && r.offset == Min(len, 1460 * k)
  {
    SendAllRings(u, 0, len);
    SendAllBytes(u, 0, len);
  }

  lemma AddWrapped(a: nat, b: nat)
    ensures (a % TWO32 + b) % TWO32 == (a + b) % TWO32
  {
  }

  class RxWorker {
    var fill: seq<nat>
    var rx: seq<nat>
    var batch: seq<nat>
    var tx: seq<nat>
    var cq: seq<nat>
    var txPool: seq<nat>
    const fallback: FallbackRing

    ghost function View(): Umem
      requires fallback.Valid()
      reads this, fallback, fallback.ring
    {
      Umem(fill, rx, batch, fallback.Contents(), tx, cq, txPool)
    }

    ghost predicate Valid()
      reads this, fallback, fallback.ring
    {
      fallback.Valid() && Inv(View())
    }

    /** The rings as set up, and the loop that fills the pool. */
    constructor ()
      ensures Valid() && fresh(fallback) && View() == Start()
    {
      fallback := new FallbackRing();
      rx, batch, tx, cq := [], [], [], [];
      var first, rest := [], [];
      var i := 0;
      while i < FQ_RING_SIZE
        invariant 0 <= i <= FQ_RING_SIZE && first == Frames(0, i)
      {
        first := first + [i * FRAME_SIZE];
        i := i + 1;
      }
      while i < NUM_FRAMES
        invariant FQ_RING_SIZE <= i <= NUM_FRAMES && rest == Frames(FQ_RING_SIZE, i)
      {
        rest := rest + [i * FRAME_SIZE];
        i := i + 1;
      }
      fill, txPool := first, rest;
      StartInv();
    }

    /** Returns completed frames to where they came from; none is lost. */
    method FreeCompletionRing(completed: nat)
      requires Valid() && Possible(View(), Complete(completed))
      modifies this
      ensures Valid() && View() == Next(old(View()), Complete(completed))
      ensures cq == old(cq)[completed..] && rx == old(rx) && batch == old(batch) && tx == old(tx)
      ensures fill == old(fill) + RxPart(old(cq)[..completed]) && txPool == old(txPool) + TxPart(old(cq)[..completed])
    {
      CompletionNeverFails(View(), completed);
      StepInv(View(), Complete(completed));
      var pool, rxAddrs := txPool, [];
      var i := 0;
      while i < completed
        invariant 0 <= i <= completed
        invariant pool == txPool + TxPart(cq[..i]) && rxAddrs == RxPart(cq[..i])
      {
        assert cq[..i + 1][..i] == cq[..i];
        if cq[i] >= TX_BOUNDARY {
          pool := pool + [cq[i]];
        } else {
          rxAddrs := rxAddrs + [cq[i]];
        }
        i := i + 1;
      }
      txPool := pool;
      if |fill| + |rxAddrs| <= FQ_RING_SIZE {
        fill := fill + rxAddrs;
      }
      cq := cq[completed..];
    }

    /** A received packet that is not answered goes to the fallback ring; the second branch is never taken. */
    method RecycleSlot()
      requires Valid() && batch != []
      modifies this, fallback, fallback.ring
      ensures Valid() && View() == Next(old(View()), Recycle)
      ensures batch == old(batch)[1..] && fallback.Contents() == old(fallback.Contents()) + [old(batch)[0]]
      ensures fill == old(fill) && rx == old(rx) && tx == old(tx) && cq == old(cq) && txPool == old(txPool)
    {
      ghost var u := View();
      var ok := fallback.Push(batch[0]);
      if !ok && |fill| < FQ_RING_SIZE {
        fill := fill + [batch[0]];
      }
      batch := batch[1..];
      FallbackNeverFails(u);
      StepInv(u, Recycle);
    }

    /** An answer is built in the packet's own frame; without room on the TX ring the frame is recycled. */
    method FinishPacket(answered: bool)
      requires Valid() && batch != []
      modifies this, fallback, fallback.ring
      ensures Valid()
      ensures View() == Next(old(View()), if answered && |old(tx)| < TX_RING_SIZE then Reply else Recycle)
      ensures batch == old(batch)[1..]
      ensures if answered && |old(tx)| < 2048
              then tx == old(tx) + [old(batch)[0]] && fallback.Contents() == old(fallback.Contents())
              else tx == old(tx) && fallback.Contents() == old(fallback.Contents()) + [old(batch)[0]]
      ensures fill == old(fill) && rx == old(rx) && cq == old(cq) && txPool == old(txPool)
    {
      if answered && |tx| < TX_RING_SIZE {
        StepInv(View(), Reply);
        tx, batch := tx + [batch[0]], batch[1..];
      } else {
        RecycleSlot();
      }
    }

    /** Reserves room for the oldest `count` addresses of the fallback ring and moves them, or does nothing. */
    method FlushBatch(count: nat) returns (moved: bool)
      requires Valid() && count <= |fallback.Contents()|
      modifies this`fill, fallback`tail
      ensures Valid()
      ensures moved <==> |old(fill)| + count <= 2048
      ensures moved ==>
                && fill == old(fill) + old(fallback.Contents())[..count]
                && fallback.Contents() == old(fallback.Contents())[count..]
      ensures View() == if moved then Next(old(View()), Flush(count)) else old(View())
    {
      if |fill| + count > FQ_RING_SIZE {
        return false;
      }
      ghost var u := View();
      var addrs := fallback.Front(count);
      fill := fill + addrs;
      fallback.Advance(count);
      StepInv(u, Flush(count));
      return true;
    }

    /** Moves the fallback ring to the fill ring in batches; nothing stays behind. */
    method FlushFallback()
      requires Valid()
      modifies this`fill, fallback`tail
      ensures Valid() && View() == old(View()).(fill := old(fill) + old(fallback.Contents()), fallback := [])
    {
      while fallback.Size() > 0
        invariant Valid() && fill + fallback.Contents() == old(fill) + old(fallback.Contents())
        invariant View() == old(View()).(fill := fill, fallback := fallback.Contents())
        decreases |fallback.Contents()|
      {
        ghost var u := View();
        var moved := FlushBatch(if fallback.Size() < BATCH_SIZE then fallback.Size() else BATCH_SIZE);
        FallbackNeverFails(u);
        assert moved;
      }
    }

    /** Sends one frame of the pool, which goes back to the pool if the TX ring is full. */
    method SendFrame() returns (sent: bool)
      requires Valid()
      modifies this`tx, this`txPool
      ensures Valid() && (sent <==> Possible(old(View()), SendFromPool))
      ensures sent <==> old(txPool) != [] && |old(tx)| < 2048
      ensures sent ==> tx == old(tx) + [old(txPool)[|old(txPool)| - 1]] && txPool == old(txPool)[..|old(txPool)| - 1]
      ensures View() == if sent then Next(old(View()), SendFromPool) else old(View())
    {
      if txPool == [] {
        return false;
      }
      ghost var u := View();
      var frame := txPool[|txPool| - 1];
      txPool := txPool[..|txPool| - 1];
      if |tx| < TX_RING_SIZE {
        tx := tx + [frame];
        StepInv(u, SendFromPool);
        return true;
      }
      txPool := txPool + [frame];
      assert txPool == u.pool;
      return false;
    }

    /** The loop over the segments. */
    method SendSegments(len: nat, sendNxt: uint32) returns (allSent: bool, next: uint32)
      requires Valid()
      modifies this`tx, this`txPool
      ensures var r := SendAll(old(View()), 0, len);
              && Valid() && View() == r.umem
              && (allSent <==> r.offset == len)
              && next == (sendNxt + r.offset) % TWO32
    {
      next := sendNxt;
      var offset := 0;
      while offset < len
        invariant 0 <= offset <= len && Valid()
        invariant SendAll(View(), offset, len) == SendAll(old(View()), 0, len)
        invariant next == (sendNxt + offset) % TWO32
      {
        var chunk := if len - offset < MSS then len - offset else MSS;
        var sent := SendFrame();
        if !sent {
          return false, next;
        }
        AddWrapped(sendNxt + offset, chunk);
        next := (next + chunk) % TWO32;
        offset := offset + chunk;
      }
      return true, next;
    }

    /** Cuts data into segments, one frame of the pool each, while there are frames and room on the TX ring. */
    method SendSegmented(len: nat, sendNxt: uint32) returns (allSent: bool, next: uint32)
      requires Valid()
      modifies this`tx, this`txPool
      ensures Valid()
      ensures var k := FrameCount(old(View()), len);
              && tx == old(tx) + LastFirst(old(txPool), k) && txPool == old(txPool)[..|old(txPool)| - k]
              && (allSent <==> 0 < len <= 1460 * k)
              && next == (sendNxt + Min(len, 1460 * k)) % TWO32
    {
      SendAllFrames(View(), len);
      if len == 0 {
        return false, sendNxt;
      }
      allSent, next := SendSegments(len, sendNxt);
    }
  }
}
