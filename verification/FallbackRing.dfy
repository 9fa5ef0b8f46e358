/** The power-of-two ring that holds frame addresses on their way back to the fill ring. */
module FallbackRings {
  import opened Common

  const CAPACITY: nat := 4096

  class FallbackRing {
    const ring: array<nat>
    /** 32-bit counters that run freely; only their difference and low bits matter. */
    var head: uint32
    var tail: uint32

    ghost predicate Valid()
      reads this
    {
      ring.Length == CAPACITY && Size() <= CAPACITY
    }

    function Size(): nat
      reads this
    {
      (head - tail) % TWO32
    }

    /** The addresses in the order in which they were pushed. */
    ghost function Contents(): seq<nat>
      requires Valid()
      reads this, ring
    {
      seq(Size(), i requires 0 <= i < Size() reads this, ring => ring[Place(tail, i)])
    }

    constructor ()
      ensures Valid() && fresh(ring) && Contents() == []
    {
      ring := new nat[CAPACITY];
      head, tail := 0, 0;
    }

    method Push(addr: nat) returns (ok: bool)
      requires Valid()
      modifies this`head, ring
      ensures Valid()
      ensures ok <==> |old(Contents())| < CAPACITY
      ensures Contents() == if ok then old(Contents()) + [addr] else old(Contents())
    {
      if Size() >= CAPACITY {
        return false;
      }
      ghost var size := Size();
      assert Place(tail, size) == head % 4096;
      forall i | 0 <= i < size ensures Place(tail, i) != head % 4096 {
        Apart(tail, i, size);
      }
      ring[head % 4096] := addr;
      head := (head + 1) % TWO32;
      assert Size() == size + 1;
      return true;
    }

    method Get(offset: nat) returns (addr: nat)
      requires Valid() && offset < |Contents()|
      ensures addr == Contents()[offset]
    {
      addr := ring[Place(tail, offset)];
    }

    /** The oldest `count` addresses. */
    method Front(count: nat) returns (addrs: seq<nat>)
      requires Valid() && count <= |Contents()|
      ensures addrs == Contents()[..count]
    {
      addrs := [];
      while |addrs| < count
        invariant |addrs| <= count && addrs == Contents()[..|addrs|]
      {
        var addr := Get(|addrs|);
        addrs := addrs + [addr];
      }
    }

    method Advance(count: nat)
      requires Valid() && count <= |Contents()|
      modifies this`tail
      ensures Valid() && Contents() == old(Contents())[count..]
    {
      ghost var was, size := tail, Size();
      tail := (tail + count) % TWO32;
      assert Size() == size - count;
      forall i | 0 <= i < size - count ensures Place(tail, i) == Place(was, count + i) {
        Shifted(was, count, i);
      }
    }
  }

  function Place(tail: nat, i: nat): (p: nat)
    ensures p < CAPACITY
  {
    (tail + i) % 4096
  }

  /** Different offsets below the capacity are different places. */
  lemma Apart(tail: nat, i: nat, size: nat)
    requires i < size < 4096
    ensures Place(tail, i) != Place(tail, size)
  {
  }

  /** The capacity divides 2^32, so places go on where the counter wraps. */
  lemma Shifted(tail: uint32, count: nat, i: nat)
    ensures Place((tail + count) % TWO32, i) == Place(tail, count + i)
  {
  }
}
