/** The session object of the engine: the packet path on its bitmap and ring, proved against `SessionStep`. */
module TcpStreamSessions {
  import opened Common
  import opened Words
  import opened CyclicBitmap
  import opened TcpSeq
  import opened TcpSession

  datatype TcpKey = TcpKey(srcIp: uint32, dstIp: uint32, srcPort: uint16, dstPort: uint16)

  class TcpStreamSession {
    const key: TcpKey
    var state: TcpState
    var rcvNxt: uint32
    var outOfOrder: uint16
    var lastSeenNs: uint64
    var bitmap: array?<Word>
    var ringBuf: array?<uint8>

    ghost predicate Valid()
      reads this
    {
      && (bitmap == null <==> ringBuf == null)
      && (bitmap != null ==> bitmap.Length == WORDS)
      && (ringBuf != null ==> ringBuf.Length == WINDOW)
    }

    /** The buffers stay, or are newly allocated where there were none. */
    twostate predicate KeepsBuffers(bits: array?<Word>, ring: array?<uint8>)
      reads this
    {
      && (bits != null ==> bitmap == bits && ringBuf == ring)
      && (bits == null ==> (bitmap != null ==> fresh(bitmap)) && (ringBuf != null ==> fresh(ringBuf)))
    }

    ghost function View(): Session
      requires Valid()
      reads this, bitmap, ringBuf
    {
      Session(state, rcvNxt, outOfOrder,
              if bitmap == null then None else Some(Buffers(Positions(bitmap[..]), ringBuf[..])))
    }

    /** A session for a SYN. */
    constructor (key: TcpKey, isn: uint32, nowNs: uint64)
      ensures Valid() && this.key == key && View() == NewSession(isn) && lastSeenNs == nowNs && bitmap == null
    {
      this.key := key;
      state, rcvNxt, outOfOrder, lastSeenNs := SynSent, Plus(isn, 1), 0, nowNs;
      bitmap, ringBuf := null, null;
    }

    /** Allocates the buffers on first need: a cleared bitmap and a ring of whatever the allocator left there. */
    method InitBuffers(memory: Memory) returns (ok: bool)
      requires Valid()
      modifies this`bitmap, this`ringBuf
      ensures Valid() && KeepsBuffers(old(bitmap), old(ringBuf))
      ensures ok <==> Ready(old(View()), memory).Some?
      ensures View() == if ok then old(View()).(buffers := Ready(old(View()), memory)) else old(View())
    {
      if ringBuf != null {
        return true;
      }
      if memory.None? {
        return false;
      }
      var ring := new uint8[WINDOW](i requires 0 <= i < WINDOW => memory.value[i]);
      var words := new Word[WORDS](_ => 0);
      ringBuf, bitmap := ring, words;
      assert ringBuf[..] == memory.value;
      assert Positions(bitmap[..]) == {} by { NoPositions(bitmap[..]); }
      return true;
    }

    /** The comparison with what is buffered: at most 1500 bytes, and only if some position of the range is filled. */
    method FindsConflict(seq_: uint32, data: seq<uint8>) returns (conflict: bool)
      requires Valid() && bitmap != null && |data| <= WINDOW
      ensures conflict <==> Conflicts(View().buffers.value, seq_, data)
    {
      conflict := false;
      var overlaps := IsRangeSet(bitmap, seq_, |data|);
      if overlaps {
        var checked := if |data| < CHECKED then |data| else CHECKED;
        var existing := ReadRing(ringBuf, seq_, checked);
        conflict := existing != data[..checked];
      }
    }

    method StoreSegment(seq_: uint32, data: seq<uint8>)
      requires Valid() && bitmap != null && |data| <= WINDOW
      modifies bitmap, ringBuf
      ensures View() == old(View()).(buffers := Some(Store(old(View()).buffers.value, seq_, data)))
    {
      WriteRing(ringBuf, seq_, data);
      SetRange(bitmap, seq_, |data|);
    }

    method CountRun() returns (n: nat)
      requires Valid() && bitmap != null
      ensures n == RunLength(Positions(bitmap[..]), rcvNxt, WINDOW)
    {
      n := CountContinuous(bitmap, rcvNxt, WINDOW);
      RunIsLength(Positions(bitmap[..]), rcvNxt, n);
    }

    /** Hands over the run of filled positions from the next expected byte on. */
    method DrainRun() returns (verdict: Verdict)
      requires Valid() && bitmap != null
      modifies this`rcvNxt, this`outOfOrder, bitmap
      ensures DataResult(View(), verdict) == Drain(old(View()), old(View()).buffers.value)
    {
      var contiguous := CountRun();
      if contiguous == 0 {
        return Buffered;
      }
      var drained := ReadRing(ringBuf, rcvNxt, contiguous);
      ClearRange(bitmap, rcvNxt, contiguous);
      rcvNxt := Plus(rcvNxt, contiguous);
      if outOfOrder > 0 {
        outOfOrder := outOfOrder - 1;
      }
      return Delivered(drained);
    }

    method PlaceSegment(seq_: uint32, data: seq<uint8>, memory: Memory) returns (verdict: Verdict)
      requires Valid() && |data| <= WINDOW
      modifies this, bitmap, ringBuf
      ensures Valid() && KeepsBuffers(old(bitmap), old(ringBuf)) && lastSeenNs == old(lastSeenNs)
      ensures DataResult(View(), verdict) == Place(old(View()), seq_, data, memory)
    {
      if seq_ == rcvNxt && outOfOrder == 0 {
        rcvNxt := Plus(rcvNxt, |data|);
        return Delivered(data);
      }
      var ok := InitBuffers(memory);
      if !ok {
        return Unstored;
      }
      var conflict := FindsConflict(seq_, data);
      if conflict {
        return Conflict;
      }
      StoreSegment(seq_, data);
      if Gt(seq_, rcvNxt) {
        outOfOrder := (outOfOrder + 1) % TWO16;
        return Buffered;
      }
      verdict := DrainRun();
    }

    method ReceiveSegment(seq_: uint32, payload: Payload, memory: Memory) returns (verdict: Verdict)
      requires Valid() && payload != []
      modifies this, bitmap, ringBuf
      ensures Valid() && KeepsBuffers(old(bitmap), old(ringBuf)) && lastSeenNs == old(lastSeenNs)
      ensures DataResult(View(), verdict) == ReceiveData(old(View()), seq_, payload, memory)
    {
      if !InWindow(seq_, |payload|, rcvNxt) {
        return Ignored;
      }
      if Lte(Plus(seq_, |payload|), rcvNxt) {
        return Stale;
      }
      if Lt(seq_, rcvNxt) {
        var trim := Diff(rcvNxt, seq_);
        TrimIsShorter(seq_, |payload|, rcvNxt);
        verdict := PlaceSegment(rcvNxt, payload[trim..], memory);
      } else {
        verdict := PlaceSegment(seq_, payload, memory);
      }
    }

    /** A packet of this session; `removed` when the engine must delete it. */
    method ReceivePacket(p: Packet, nowNs: uint64) returns (removed: bool, report: Report)
      requires Valid()
      modifies this, bitmap, ringBuf
      ensures Valid() && KeepsBuffers(old(bitmap), old(ringBuf)) && lastSeenNs == nowNs
      ensures var r := SessionStep(old(View()), p);
              && report == r.report && (removed <==> r.next.None?)
              && (!removed ==> View() == r.next.value)
    {
      lastSeenNs := nowNs;
      if p.rst {
        state := Closed;
        return true, NOTHING.(isClosed := true);
      }
      if p.syn {
        return false, NOTHING.(isSyn := true);
      }
      if state == SynSent {
        if p.ack {
          state := Established;
        } else {
          return false, NOTHING;
        }
      }
      if state != Established {
        return false, NOTHING;
      }
      removed, report := ReceiveEstablished(p);
    }

    method ReceiveEstablished(p: Packet) returns (removed: bool, report: Report)
      requires Valid() && state == Established
      modifies this, bitmap, ringBuf
      ensures Valid() && KeepsBuffers(old(bitmap), old(ringBuf)) && lastSeenNs == old(lastSeenNs)
      ensures var s := old(View());
              var r := if p.payload == [] then Finish(s, p.fin, NOTHING)
                       else Respond(ReceiveData(s, p.seq_, p.payload, p.memory), p.fin);
              && report == r.report && (removed <==> r.next.None?)
              && (!removed ==> View() == r.next.value)
    {
      report := NOTHING;
      if p.payload != [] {
        var verdict := ReceiveSegment(p.seq_, p.payload, p.memory);
        match verdict {
          case Ignored => return false, NOTHING;
          case Stale => return false, NOTHING.(needAck := true);
          case Conflict => return true, NOTHING.(isClosed := true);
          case Delivered(bytes) => report := NOTHING.(isReady := true, payload := bytes);
          case _ =>
        }
      }
      removed := false;
      if p.fin {
        rcvNxt := Plus(rcvNxt, 1);
        state := Closing;
        report := report.(isClosed := true);
        removed := report.payload == [];
      }
    }
  }

  lemma NoPositions(words: seq<Word>)
    requires |words| == WORDS && forall i | 0 <= i < |words| :: words[i] == 0
    ensures Positions(words) == {}
  {
    forall p: Position
      ensures !BitOf(words, p)
    {
      ZeroBit(p % 64);
    }
  }

  // ---------- The ring

  lemma WrappedRead(ring: Ring, start: nat, len: nat)
    requires len <= WINDOW
    ensures var s := start % 65536;
            RingRead(ring, start, len) ==
            if s + len > WINDOW then ring[s..] + ring[..s + len - WINDOW] else ring[s..s + len]
  {
    var s := start % 65536;
    var read := RingRead(ring, start, len);
    forall i | 0 <= i < len
      ensures read[i] == ring[if s + i < WINDOW then s + i else s + i - WINDOW]
    {
    }
  }

  /** `read_ring_buffer`: one or two copies. */
  method ReadRing(ringBuf: array<uint8>, start: nat, len: nat) returns (out: seq<uint8>)
    requires ringBuf.Length == WINDOW && len <= WINDOW
    ensures out == RingRead(ringBuf[..], start, len)
  {
    WrappedRead(ringBuf[..], start, len);
    var s := start % 65536;
    if s + len > WINDOW {
      out := ringBuf[s..] + ringBuf[..s + len - WINDOW];
    } else {
      out := ringBuf[s..s + len];
    }
  }

  lemma AheadAt(start: nat, p: Position)
    ensures var s := start % 65536; Ahead(start, p) == if s <= p then p - s else p - s + WINDOW
  {
  }

  /** `write_ring_buffer`: one or two copies. */
  method WriteRing(ringBuf: array<uint8>, start: nat, data: seq<uint8>)
    requires ringBuf.Length == WINDOW && |data| <= WINDOW
    modifies ringBuf
    ensures ringBuf[..] == RingWrite(old(ringBuf[..]), start, data)
  {
    var s := start % 65536;
    if s + |data| > WINDOW {
      var first := WINDOW - s;
      forall p | s <= p < WINDOW { ringBuf[p] := data[p - s]; }
      forall p | 0 <= p < |data| - first { ringBuf[p] := data[first + p]; }
    } else {
      forall p | s <= p < s + |data| { ringBuf[p] := data[p - s]; }
    }
    forall p: Position
      ensures ringBuf[p] == RingWrite(old(ringBuf[..]), start, data)[p]
    {
      AheadAt(start, p);
    }
  }
}
