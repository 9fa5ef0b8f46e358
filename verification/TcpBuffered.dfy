/**
  Buffered bytes under contradictory segments: they last exactly as long as all bytes are compared.
 */
module TcpBuffered {
  import opened Common
  import opened CyclicBitmap
  import opened TcpSeq
  import opened TcpSession
  import opened TcpStream
  import opened Runs

  /** A store that was not refused leaves a filled position alone, if its byte was among those compared. */
  lemma StoreKeeps(b: Buffers, start: nat, data: seq<uint8>, q: Position)
    requires q in b.bits && !Conflicts(b, start, data)
    requires Ahead(start, q) < |data| ==> Ahead(start, q) < CHECKED
    ensures Store(b, start, data).ring[q] == b.ring[q]
  {
    var i := Ahead(start, q);
    if i < |data| {
      assert q in Range(start, |data|);
      var checked := if |data| < CHECKED then |data| else CHECKED;
      ReadAt(b.ring, start, checked, q);
      assert RingRead(b.ring, start, checked)[i] == data[..checked][i];
    }
  }

  /** A store that was not refused changes a filled byte exactly when a different byte falls on it uncompared. */
  lemma StoreChanges(b: Buffers, start: nat, data: seq<uint8>, q: Position)
    requires q in b.bits && !Conflicts(b, start, data)
    ensures Store(b, start, data).ring[q] != b.ring[q]
            <==> CHECKED <= Ahead(start, q) < |data| && data[Ahead(start, q)] != b.ring[q]
  {
    if Ahead(start, q) < |data| ==> Ahead(start, q) < CHECKED {
      StoreKeeps(b, start, data, q);
    }
  }

  /** A filled byte is still there, or has been handed over unchanged. */
  ghost predicate Keeps(s: Session, q: Position, next: Session, payload: seq<uint8>)
    requires q in Bits(s)
  {
    || (q in Bits(next) && next.buffers.value.ring[q] == s.buffers.value.ring[q])
    || (Ahead(s.rcvNxt, q) < |payload| && payload[Ahead(s.rcvNxt, q)] == s.buffers.value.ring[q])
  }

  ghost function PayloadOf(v: Verdict): seq<uint8> {
    if v.Delivered? then v.payload else []
  }

  lemma ReadAt(ring: Ring, start: nat, len: nat, q: Position)
    ensures q in Range(start, len) <==> Ahead(start, q) < len
    ensures Ahead(start, q) < len ==> RingRead(ring, start, len)[Ahead(start, q)] == ring[q]
  {
    assert (start + Ahead(start, q)) % 65536 == q;
  }

  lemma DrainKeeps(s: Session, b: Buffers, q: Position)
    requires q in Bits(s) && q in b.bits && b.ring[q] == s.buffers.value.ring[q]
    ensures var r := Drain(s, b); Keeps(s, q, r.session, PayloadOf(r.verdict))
  {
    ReadAt(b.ring, s.rcvNxt, RunLength(b.bits, s.rcvNxt, WINDOW), q);
  }

  lemma PlaceKeeps(s: Session, start: uint32, data: seq<uint8>, memory: Memory, q: Position)
    requires q in Bits(s) && |data| <= CHECKED
    ensures var r := Place(s, start, data, memory);
            r.verdict.Conflict? || Keeps(s, q, r.session, PayloadOf(r.verdict))
  {
    if !(start == s.rcvNxt && s.outOfOrder == 0) {
      var b := s.buffers.value;
      if !Conflicts(b, start, data) {
        StoreKeeps(b, start, data, q);
        if !Gt(start, s.rcvNxt) {
          DrainKeeps(s, Store(b, start, data), q);
        }
      }
    }
  }

  lemma DataKeeps(s: Session, p: Packet, q: Position)
    requires q in Bits(s) && 0 < |p.payload| <= CHECKED
    ensures var r := ReceiveData(s, p.seq_, p.payload, p.memory);
            r.verdict.Conflict? || Keeps(s, q, r.session, PayloadOf(r.verdict))
  {
    var start, cut := DataPlaced(s, p.seq_, p.payload, p.memory);
    if cut < |p.payload| {
      PlaceKeeps(s, start, p.payload[cut..], p.memory, q);
    }
  }

  lemma RespondKeeps(s: Session, d: DataResult, fin: bool, q: Position)
    requires q in Bits(s) && (d.verdict.Conflict? || Keeps(s, q, d.session, PayloadOf(d.verdict)))
    ensures var r := Respond(d, fin); r.next.Some? ==> Keeps(s, q, r.next.value, r.report.payload)
  {
  }

  /** A packet of at most 1500 payload bytes does not change a filled byte, whatever it contains. */
  lemma StepKeeps(s: Session, p: Packet, q: Position)
    requires q in Bits(s) && |p.payload| <= CHECKED
    ensures var r := SessionStep(s, p); r.next.Some? ==> Keeps(s, q, r.next.value, r.report.payload)
  {
    if !p.rst && !p.syn && (s.state == Established || (s.state == SynSent && p.ack)) && p.payload != [] {
      var s' := s.(state := Established);
      DataKeeps(s', p, q);
      RespondKeeps(s', ReceiveData(s', p.seq_, p.payload, p.memory), p.fin, q);
    }
  }

  /**
    The fate of the byte `v` at position `q`: it stays until the run ends or the session is
    removed, or some packet hands it over.
   */
  ghost predicate Fate(s: Session, ps: seq<Packet>, q: Position, v: uint8)
    decreases |ps|
  {
    if ps == [] then q in Bits(s) && s.buffers.value.ring[q] == v
    else
      var r := SessionStep(s, ps[0]);
      || r.next.None?
      || Fate(r.next.value, ps[1..], q, v)
      || (Ahead(s.rcvNxt, q) < |r.report.payload| && r.report.payload[Ahead(s.rcvNxt, q)] == v)
  }

  /** Over any run of arbitrary, possibly contradictory packets of at most 1500 bytes. */
  lemma {:induction false} ByteFate(s: Session, ps: seq<Packet>, q: Position)
    requires q in Bits(s) && forall i | 0 <= i < |ps| :: |ps[i].payload| <= CHECKED
    ensures Fate(s, ps, q, s.buffers.value.ring[q])
    decreases |ps|
  {
    if ps != [] {
      StepKeeps(s, ps[0], q);
      var r := SessionStep(s, ps[0]);
      if r.next.Some? && q in Bits(r.next.value) && r.next.value.buffers.value.ring[q] == s.buffers.value.ring[q] {
        ByteFate(r.next.value, ps[1..], q);
      }
    }
  }

  // ---------- Longer segments

  ghost function PacketStep(s: Session, p: Packet): Step<Session, uint8> {
    var r := SessionStep(s, p);
    Step(r.next, r.report.payload)
  }

  /** `s` is reached by a run of packets with at most `n` bytes each. */
  ghost predicate ReachedBy(isn: uint32, ps: seq<Packet>, n: nat, s: Session) {
    && (forall i | 0 <= i < |ps| :: |ps[i].payload| <= n)
    && Run(PacketStep, NewSession(isn), ps).last == Some(s)
  }

  /** Packet `p` leaves the session, and the filled byte at `q` was kept or handed over. */
  ghost predicate KeptBy(s: Session, p: Packet, q: Position) {
    var r := SessionStep(s, p);
    q in Bits(s) && r.next.Some? ==> Keeps(s, q, r.next.value, r.report.payload)
  }

  ghost function Zeros(n: nat): (z: seq<uint8>)
    ensures |z| == n && forall i | 0 <= i < n :: z[i] == 0
  {
    seq(n, _ => 0)
  }

  /** A packet with the ACK flag only. */
  ghost function AckPacket(seq_: uint32, payload: Payload): Packet {
    Packet(false, true, false, false, seq_, payload, Some(Zeros(WINDOW)))
  }

  /** One byte is buffered at position 1500. */
  lemma ByteBuffered() returns (s: Session)
    ensures PacketStep(NewSession(0xFFFF_FFFE), AckPacket(1500, [0])) == Step(Some(s), [])
    ensures s.state == Established && s.rcvNxt == 0xFFFF_FFFF && s.outOfOrder == 1
    ensures s.buffers.Some? && s.buffers.value.bits == {1500}
    ensures forall q: Position :: s.buffers.value.ring[q] == 0
  {
    SingleRange(1500);
    StoresAhead(Session(Established, 0xFFFF_FFFF, 0, None), 1500, [0], Some(Zeros(WINDOW)), Buffers({}, Zeros(WINDOW)));
    var b := Store(Buffers({}, Zeros(WINDOW)), 1500, [0]);
    s := Session(Established, 0xFFFF_FFFF, 1, Some(b));
  }

  /** A segment of 1501 bytes from position 0 on overwrites it: its last byte is not compared. */
  lemma Overwritten(s: Session)
    requires s.state == Established && s.rcvNxt == 0xFFFF_FFFF && s.outOfOrder == 1
    requires s.buffers.Some? && s.buffers.value.bits == {1500}
    requires forall q: Position :: s.buffers.value.ring[q] == 0
    ensures !KeptBy(s, AckPacket(0, Zeros(1500) + [1]), 1500)
  {
    var b, data := s.buffers.value, Zeros(1500) + [1];
    assert RingRead(b.ring, 0, 1500) == data[..1500];
    StoresAhead(s, 0, data, Some(Zeros(WINDOW)), b);
    assert Store(b, 0, data).ring[1500] == 1;
  }

  lemma LongSegmentOverwrites() returns (ps: seq<Packet>, s: Session, p: Packet)
    ensures ReachedBy(0xFFFF_FFFE, ps, 1, s) && |p.payload| == CHECKED + 1 && !KeptBy(s, p, 1500)
  {
    s := ByteBuffered();
    ps, p := [AckPacket(1500, [0])], AckPacket(0, Zeros(1500) + [1]);
    RunOne(PacketStep, NewSession(0xFFFF_FFFE), ps[0]);
    Overwritten(s);
  }

  /**
    Packets of at most `n` bytes keep or hand over every filled byte, in every session that
    such packets lead to and that survives, exactly when `n` is at most 1500.
   */
  lemma KeepsExactly(n: nat)
    ensures (forall isn: uint32, ps: seq<Packet>, s: Session, p: Packet, q: Position |
               ReachedBy(isn, ps, n, s) && |p.payload| <= n :: KeptBy(s, p, q))
            <==> n <= CHECKED
  {
    if n <= CHECKED {
      forall isn: uint32, ps: seq<Packet>, s: Session, p: Packet, q: Position |
        ReachedBy(isn, ps, n, s) && |p.payload| <= n
        ensures KeptBy(s, p, q)
      {
        if q in Bits(s) {
          StepKeeps(s, p, q);
        }
      }
    } else {
      var ps, s, p := LongSegmentOverwrites();
      assert ReachedBy(0xFFFF_FFFE, ps, n, s) && !KeptBy(s, p, 1500);
    }
  }
}
