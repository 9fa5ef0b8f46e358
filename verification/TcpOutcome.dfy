/**
  What one packet does to a session and what the engine reports for it, in stream offsets,
  packet flags and buffered bytes.

  A session that expects offset `n` gets a packet whose first byte has offset `o`. Offsets
  may be negative; every session and packet have such offsets (`TcpSeq.Nearest`).
 */
module TcpOutcome {
  import opened Common
  import opened CyclicBitmap
  import opened TcpSeq
  import opened TcpSession

  /** The packet's payload and FIN count: an open session, or a half-open one and an ACK. */
  ghost predicate TakesData(s: Session, p: Packet) {
    !p.rst && !p.syn && (s.state == Established || (s.state == SynSent && p.ack))
  }

  /** The segment brings bytes from the expected offset on and ends inside the window. */
  ghost predicate BringsNew(o: int, len: nat, n: int) {
    0 < o + len - n <= 65536
  }

  /** The first offset of the segment that has not been handed over. */
  ghost function First(o: int, n: int): int {
    if o < n then n else o
  }

  ghost predicate Filled(s: Session, base: int, q: int) {
    (base + q) % 65536 in Bits(s)
  }

  /** The segment's byte at offset `q` is not the byte in the ring. */
  ghost predicate Differs(b: Buffers, base: int, o: int, data: seq<uint8>, q: int)
    requires o <= q < o + |data|
  {
    b.ring[(base + q) % 65536] != data[q - o]
  }

  /** The fast path: the expected byte arrives and no segment is waiting. */
  ghost predicate InOrder(s: Session, n: int, o: int) {
    o <= n && s.outOfOrder == 0
  }

  /**
    The segment contradicts the buffer: off the fast path, one of its new bytes belongs at a
    filled position, and one of its first 1500 new bytes is not the byte in the ring.
   */
  ghost predicate Contradicts(s: Session, base: int, n: int, o: int, data: seq<uint8>) {
    && BringsNew(o, |data|, n) && !InOrder(s, n, o) && s.buffers.Some?
    && (exists q :: First(o, n) <= q < o + |data| && Filled(s, base, q))
    && (exists q :: First(o, n) <= q < o + |data| && q < First(o, n) + 1500
                   && Differs(s.buffers.value, base, o, data, q))
  }

  /** The segment makes the session hand over bytes. */
  ghost predicate HandsOver(s: Session, base: int, n: int, o: int, data: seq<uint8>, memory: Memory) {
    && BringsNew(o, |data|, n) && o <= n && !Contradicts(s, base, n, o, data)
    && (s.outOfOrder == 0 || s.buffers.Some? || memory.Some?)
  }

  /** The segment is stored ahead of a gap. */
  ghost predicate Waits(s: Session, base: int, n: int, o: int, data: seq<uint8>, memory: Memory) {
    && BringsNew(o, |data|, n) && n < o && !Contradicts(s, base, n, o, data)
    && (s.buffers.Some? || memory.Some?)
  }

  // ---------- One data segment

  lemma PositionAt(base: int, start: int, i: nat)
    ensures (SeqOf(base, start) + i) % 65536 == (base + (start + i)) % 65536
  {
  }

  lemma OffsetInRange(base: int, start: int, len: nat, p: Position)
    ensures Ahead(SeqOf(base, start), p) < len
         ==> p == (base + (start + Ahead(SeqOf(base, start), p))) % 65536
  {
    PositionAt(base, start, Ahead(SeqOf(base, start), p));
  }

  /** The bitmap's range test asks for a filled position among the segment's offsets. */
  lemma OverlapBytes(s: Session, base: int, start: int, len: nat)
    requires len <= WINDOW
    ensures !(Bits(s) !! Range(SeqOf(base, start), len)) <==> exists q :: start <= q < start + len && Filled(s, base, q)
  {
    var at := SeqOf(base, start);
    if !(Bits(s) !! Range(at, len)) {
      var p :| p in Bits(s) && p in Range(at, len);
      OffsetInRange(base, start, len, p);
      assert Filled(s, base, start + Ahead(at, p));
    }
    if q :| start <= q < start + len && Filled(s, base, q) {
      PositionAt(base, start, q - start);
      RangeAt(at, q - start, len);
    }
  }

  lemma ByteCompared(b: Buffers, base: int, o: int, data: seq<uint8>, start: int, checked: nat, q: int)
    requires o <= start <= q < start + checked <= o + |data|
    ensures Differs(b, base, o, data, q)
       <==> RingRead(b.ring, SeqOf(base, start), checked)[q - start] != data[start - o..][..checked][q - start]
  {
    PositionAt(base, start, q - start);
  }

  /** The comparison finds a byte that differs. */
  lemma CompareBytes(b: Buffers, base: int, o: int, data: seq<uint8>, start: int, checked: nat)
    requires o <= start <= start + checked <= o + |data|
    ensures RingRead(b.ring, SeqOf(base, start), checked) != data[start - o..][..checked]
       <==> exists q :: start <= q < start + checked && Differs(b, base, o, data, q)
  {
    var read := RingRead(b.ring, SeqOf(base, start), checked);
    if read != data[start - o..][..checked] {
      var i :| 0 <= i < checked && read[i] != data[start - o..][..checked][i];
      ByteCompared(b, base, o, data, start, checked, start + i);
    }
    if q :| start <= q < start + checked && Differs(b, base, o, data, q) {
      ByteCompared(b, base, o, data, start, checked, q);
    }
  }

  lemma ConflictBytes(s: Session, base: int, n: int, o: int, data: seq<uint8>, rest: seq<uint8>)
    requires BringsNew(o, |data|, n) && rest == data[First(o, n) - o..] && |data| < WINDOW
    requires s.buffers.Some? && !InOrder(s, n, o)
    ensures Conflicts(s.buffers.value, SeqOf(base, First(o, n)), rest) <==> Contradicts(s, base, n, o, data)
  {
    OverlapBytes(s, base, First(o, n), |rest|);
    CompareBytes(s.buffers.value, base, o, data, First(o, n), if |rest| < CHECKED then |rest| else CHECKED);
  }

  /** The wrapping tests decide about a segment what the offsets decide. */
  lemma Cases(s: Session, base: int, n: int, o: int, data: Payload, memory: Memory)
    requires s.rcvNxt == SeqOf(base, n) && data != [] && Fresh(o, |data|, n)
    ensures var d := ReceiveData(s, SeqOf(base, o), data, memory);
            && (BringsNew(o, |data|, n) ==>
                  d == Place(s, SeqOf(base, First(o, n)), data[First(o, n) - o..], memory))
            && (o + |data| == n ==> d == DataResult(s, Stale))
            && (!(0 <= o + |data| - n <= 65536) ==> d == DataResult(s, Ignored))
  {
    WindowTest(base, o, |data|, n);
    if 0 <= o + |data| - n <= WINDOW {
      Classification(base, o, |data|, n);
    }
  }

  lemma WrittenByte(ring: Ring, start: nat, data: seq<uint8>, len: nat, i: nat)
    requires i < |data| <= WINDOW && i < len
    ensures RingRead(RingWrite(ring, start, data), start, len)[i] == data[i]
  {
    assert Ahead(start, (start + i) % 65536) == i;
  }

  lemma RunReaches(bits: set<Position>, start: nat, len: nat)
    requires len <= WINDOW && Range(start, len) <= bits
    ensures len <= RunLength(bits, start, WINDOW)
  {
    var run := RunLength(bits, start, WINDOW);
    RunIsRun(bits, start, WINDOW);
    RangeAt(start, run, len);
  }

  lemma ReadStartsWith(ring: Ring, start: nat, data: seq<uint8>, len: nat)
    requires |data| <= len <= WINDOW
    ensures data <= RingRead(RingWrite(ring, start, data), start, len)
  {
    var read := RingRead(RingWrite(ring, start, data), start, len);
    forall i | 0 <= i < |data|
      ensures read[i] == data[i]
    {
      WrittenByte(ring, start, data, len, i);
    }
  }

  /** A drain hands over at least the segment that was just stored. */
  lemma DrainStartsWith(s: Session, b: Buffers, rest: seq<uint8>)
    requires 0 < |rest| <= WINDOW
    ensures var run := RunLength(Store(b, s.rcvNxt, rest).bits, s.rcvNxt, WINDOW);
            |rest| <= run && rest <= RingRead(Store(b, s.rcvNxt, rest).ring, s.rcvNxt, run)
  {
    var stored := Store(b, s.rcvNxt, rest);
    RunReaches(stored.bits, s.rcvNxt, |rest|);
    ReadStartsWith(b.ring, s.rcvNxt, rest, RunLength(stored.bits, s.rcvNxt, WINDOW));
  }

  /** The session's new counter of waiting segments. */
  ghost function Counter(s: Session, base: int, n: int, o: int, data: seq<uint8>, memory: Memory): uint16 {
    if Waits(s, base, n, o, data, memory) then (s.outOfOrder + 1) % 65536
    else if HandsOver(s, base, n, o, data, memory) && s.outOfOrder > 0 then s.outOfOrder - 1
    else s.outOfOrder
  }

  ghost function Bytes(v: Verdict): seq<uint8> {
    if v.Delivered? then v.payload else []
  }

  /** What is decided about a data segment that brings new bytes. */
  lemma NewOutcome(s: Session, base: int, n: int, o: int, data: Payload, memory: Memory)
    requires s.rcvNxt == SeqOf(base, n) && BringsNew(o, |data|, n)
    ensures var d := Place(s, SeqOf(base, First(o, n)), data[First(o, n) - o..], memory);
            && !d.verdict.Ignored? && !d.verdict.Stale?
            && (d.verdict.Conflict? <==> Contradicts(s, base, n, o, data))
            && (d.verdict.Delivered? <==> HandsOver(s, base, n, o, data, memory))
            && (d.verdict.Delivered? ==> data[n - o..] <= d.verdict.payload)
            && d.session.state == s.state && d.session.rcvNxt == Plus(s.rcvNxt, |Bytes(d.verdict)|)
            && d.session.outOfOrder == Counter(s, base, n, o, data, memory)
  {
    var start := First(o, n);
    var rest := data[start - o..];
    SignedDiff(base, start, n);
    if !InOrder(s, n, o) {
      if s.buffers.Some? {
        ConflictBytes(s, base, n, o, data, rest);
      }
      var ready := Ready(s, memory);
      if ready.Some? && o <= n {
        DrainStartsWith(s, ready.value, rest);
      }
    }
  }

  lemma DataOutcome(s: Session, base: int, n: int, o: int, data: Payload, memory: Memory)
    requires s.rcvNxt == SeqOf(base, n) && data != [] && Fresh(o, |data|, n)
    ensures var d := ReceiveData(s, SeqOf(base, o), data, memory);
            && (d.verdict.Ignored? <==> !(0 <= o + |data| - n <= 65536))
            && (d.verdict.Stale? <==> o + |data| == n)
            && (d.verdict.Conflict? <==> Contradicts(s, base, n, o, data))
            && (d.verdict.Delivered? <==> HandsOver(s, base, n, o, data, memory))
            && (d.verdict.Delivered? ==> data[n - o..] <= d.verdict.payload)
            && d.session.state == s.state && d.session.rcvNxt == Plus(s.rcvNxt, |Bytes(d.verdict)|)
            && d.session.outOfOrder == Counter(s, base, n, o, data, memory)
  {
    Cases(s, base, n, o, data, memory);
    if BringsNew(o, |data|, n) {
      NewOutcome(s, base, n, o, data, memory);
    } else {
      assert Plus(s.rcvNxt, 0) == s.rcvNxt;
    }
  }

  // ---------- One packet

  /** The packet's FIN counts: it comes alone or with a segment that brings new bytes. */
  ghost predicate Ends(p: Packet, n: int, o: int) {
    p.fin && (p.payload == [] || BringsNew(o, |p.payload|, n))
  }

  ghost predicate Hands(s: Session, p: Packet, base: int, n: int, o: int) {
    TakesData(s, p) && p.payload != [] && HandsOver(s, base, n, o, p.payload, p.memory)
  }

  ghost predicate Opposes(s: Session, p: Packet, base: int, n: int, o: int) {
    TakesData(s, p) && Contradicts(s, base, n, o, p.payload)
  }

  /** A new session expects the byte after the SYN, has nothing buffered, and takes data only with an ACK. */
  lemma HalfOpen(isn: uint32, p: Packet)
    ensures NewSession(isn).rcvNxt == SeqOf(isn, 1) && NewSession(isn).outOfOrder == 0
    ensures NewSession(isn).buffers.None? && Bits(NewSession(isn)) == {}
    ensures TakesData(NewSession(isn), p) <==> p.ack && !p.syn && !p.rst
    ensures !p.ack && !p.syn && !p.rst ==> SessionStep(NewSession(isn), p) == StepResult(Some(NewSession(isn)), NOTHING)
  {
  }

  /** The session that treats the segment: the first ACK opens it. */
  lemma Opened(s: Session, base: int, n: int, o: int, data: seq<uint8>, memory: Memory)
    ensures var t := s.(state := Established);
            && Contradicts(t, base, n, o, data) == Contradicts(s, base, n, o, data)
            && HandsOver(t, base, n, o, data, memory) == HandsOver(s, base, n, o, data, memory)
            && Waits(t, base, n, o, data, memory) == Waits(s, base, n, o, data, memory)
  {
    var t := s.(state := Established);
    assert forall q :: Filled(t, base, q) == Filled(s, base, q);
  }

  /**
    The flags of the report: bytes are announced exactly when some are handed over, and they
    start with the new bytes of the segment; an acknowledgement is asked for exactly when a
    segment ends where the session already is; a SYN is reported unless the packet resets.
   */
  lemma ReportOutcome(s: Session, p: Packet, base: int, n: int, o: int)
    requires s.rcvNxt == SeqOf(base, n) && p.seq_ == SeqOf(base, o)
    requires p.payload != [] ==> Fresh(o, |p.payload|, n)
    ensures var report := SessionStep(s, p).report;
            && (report.isReady <==> report.payload != [])
            && (report.isReady <==> Hands(s, p, base, n, o))
            && (report.isReady ==> p.payload[n - o..] <= report.payload)
            && (report.needAck <==> TakesData(s, p) && p.payload != [] && o + |p.payload| == n)
            && (report.isSyn <==> p.syn && !p.rst)
            && (report.isClosed <==> p.rst || Opposes(s, p, base, n, o) || (TakesData(s, p) && Ends(p, n, o)))
  {
    if TakesData(s, p) && p.payload != [] {
      DataOutcome(s.(state := Established), base, n, o, p.payload, p.memory);
      Opened(s, base, n, o, p.payload, p.memory);
    }
  }

  lemma FinPlus(base: int, n: int, len: nat)
    ensures Plus(SeqOf(base, n), len) == SeqOf(base, n + len)
    ensures Plus(Plus(SeqOf(base, n), len), 1) == SeqOf(base, n + len + 1)
  {
    PlusOf(base, n, len);
    PlusOf(base, n + len, 1);
  }

  /** What a packet that counts does to the number expected next, while the session stays. */
  lemma NumberAfter(s: Session, p: Packet, base: int, n: int, o: int)
    requires s.rcvNxt == SeqOf(base, n) && p.seq_ == SeqOf(base, o) && TakesData(s, p)
    requires p.payload != [] ==> Fresh(o, |p.payload|, n)
    requires SessionStep(s, p).next.Some?
    ensures var r := SessionStep(s, p);
            r.next.value.rcvNxt == if Ends(p, n, o) then Plus(Plus(s.rcvNxt, |r.report.payload|), 1)
                                   else Plus(s.rcvNxt, |r.report.payload|)
  {
    if p.payload != [] {
      DataOutcome(s.(state := Established), base, n, o, p.payload, p.memory);
    } else {
      assert Plus(s.rcvNxt, 0) == s.rcvNxt;
    }
  }

  /**
    The session is gone exactly after RST, a contradiction, or a FIN with nothing handed over.
    It is left alone by a packet that does not count.
   */
  lemma RemovalOutcome(s: Session, p: Packet, base: int, n: int, o: int)
    requires s.rcvNxt == SeqOf(base, n) && p.seq_ == SeqOf(base, o)
    requires p.payload != [] ==> Fresh(o, |p.payload|, n)
    ensures var r := SessionStep(s, p);
            && (r.next.None? <==> p.rst || Opposes(s, p, base, n, o)
                                  || (TakesData(s, p) && Ends(p, n, o) && !Hands(s, p, base, n, o)))
            && (!p.rst && !TakesData(s, p) ==> r.next == Some(s))
  {
    if TakesData(s, p) && p.payload != [] {
      DataOutcome(s.(state := Established), base, n, o, p.payload, p.memory);
      Opened(s, base, n, o, p.payload, p.memory);
    }
  }

  /**
    A packet that counts and leaves the session moves the expected offset by the bytes handed
    over, and by one for FIN, which leaves the session closing; any other leaves it open.
   */
  lemma SessionOutcome(s: Session, p: Packet, base: int, n: int, o: int)
    requires s.rcvNxt == SeqOf(base, n) && p.seq_ == SeqOf(base, o) && TakesData(s, p)
    requires p.payload != [] ==> Fresh(o, |p.payload|, n)
    requires SessionStep(s, p).next.Some?
    ensures var r := SessionStep(s, p);
            && r.next.value.state == (if Ends(p, n, o) then Closing else Established)
            && r.next.value.rcvNxt == SeqOf(base, n + |r.report.payload| + if Ends(p, n, o) then 1 else 0)
            && r.next.value.outOfOrder == if p.payload == [] then s.outOfOrder
                                          else Counter(s, base, n, o, p.payload, p.memory)
  {
    NumberAfter(s, p, base, n, o);
    FinPlus(base, n, |SessionStep(s, p).report.payload|);
    if p.payload != [] {
      DataOutcome(s.(state := Established), base, n, o, p.payload, p.memory);
      Opened(s, base, n, o, p.payload, p.memory);
    }
  }
}
