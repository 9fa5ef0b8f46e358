/**
  One TCP session of the reassembly engine, as a value, and what a packet does to it.

  A session holds the next expected sequence number, a counter of out-of-order segments and,
  once one has arrived, a ring of 65536 bytes and the set of ring positions that are filled.
  `SessionStep` follows the packet path of the engine branch by branch.
 */
module TcpSession {
  import opened Common
  import opened CyclicBitmap
  import opened TcpSeq

  datatype TcpState = Closed | SynSent | Established | Closing

  type Ring = r: seq<uint8> | |r| == WINDOW ghost witness seq(WINDOW, _ => 0)

  /** What the allocator returns for a ring: nothing, or 65536 bytes of any contents. */
  type Memory = m: Option<seq<uint8>> | m.Some? ==> |m.value| == WINDOW witness None

  /** `bits` are the filled ring positions; the other bytes of `ring` are left-overs. */
  datatype Buffers = Buffers(bits: set<Position>, ring: Ring)

  datatype Session = Session(state: TcpState, rcvNxt: uint32, outOfOrder: uint16, buffers: Option<Buffers>)

  ghost function Bits(s: Session): set<Position> {
    if s.buffers.Some? then s.buffers.value.bits else {}
  }

  // ---------- Ring and buffers

  ghost function RingWrite(ring: Ring, start: nat, data: seq<uint8>): Ring
  {
    seq(WINDOW, p requires 0 <= p < WINDOW => if Ahead(start, p) < |data| then data[Ahead(start, p)] else ring[p])
  }

  ghost function RingRead(ring: Ring, start: nat, len: nat): (r: seq<uint8>)
    ensures |r| == len
  {
    seq(len, i requires 0 <= i < len => ring[(start + i) % 65536])
  }

  const CHECKED: nat := 1500

  /** A filled position in the range, and a difference in the first 1500 bytes. */
  ghost predicate Conflicts(b: Buffers, start: nat, data: seq<uint8>)
  {
    var checked := if |data| < CHECKED then |data| else CHECKED;
    !(b.bits !! Range(start, |data|)) && RingRead(b.ring, start, checked) != data[..checked]
  }

  ghost function Store(b: Buffers, start: nat, data: seq<uint8>): (r: Buffers)
  {
    Buffers(b.bits + Range(start, |data|), RingWrite(b.ring, start, data))
  }

  /** Length of the run of filled positions from `start`, at most `bound`. */
  ghost function RunLength(bits: set<Position>, start: nat, bound: nat): (n: nat)
    ensures n <= bound
    decreases bound
  {
    if bound == 0 || start % 65536 !in bits then 0 else 1 + RunLength(bits, start + 1, bound - 1)
  }

  /** The session's buffers, allocated on first need; `memory` is what the allocator returns. */
  ghost function Ready(s: Session, memory: Memory): (b: Option<Buffers>)
    ensures b.Some? ==> b.value.bits == Bits(s)
  {
    if s.buffers.Some? then s.buffers
    else if memory.Some? then Some(Buffers({}, memory.value))
    else None
  }

  // ---------- A data segment

  datatype Verdict =
    | Ignored                          // outside the window
    | Stale                            // ends at the next expected byte: acknowledged again
    | Unstored                         // no memory for the buffers
    | Buffered
    | Delivered(payload: seq<uint8>)
    | Conflict                         // contradicts a buffered byte: the session is removed

  datatype DataResult = DataResult(session: Session, verdict: Verdict)

  ghost function ReceiveData(s: Session, seq_: uint32, payload: Payload, memory: Memory): (r: DataResult)
    requires payload != []
  {
    if !InWindow(seq_, |payload|, s.rcvNxt) then
      DataResult(s, Ignored)
    else if Lte(Plus(seq_, |payload|), s.rcvNxt) then
      DataResult(s, Stale)
    else if Lt(seq_, s.rcvNxt) then
      var trim := Diff(s.rcvNxt, seq_);
      TrimIsShorter(seq_, |payload|, s.rcvNxt);
      Place(s, s.rcvNxt, payload[trim..], memory)
    else
      Place(s, seq_, payload, memory)
  }

  /** What happens to a segment that passed the window test and was trimmed. */
  ghost function Place(s: Session, seq_: uint32, data: seq<uint8>, memory: Memory): (r: DataResult)
  {
    if seq_ == s.rcvNxt && s.outOfOrder == 0 then
      DataResult(s.(rcvNxt := Plus(s.rcvNxt, |data|)), Delivered(data))
    else
      var ready := Ready(s, memory);
      if ready.None? then DataResult(s, Unstored)
      else if Conflicts(ready.value, seq_, data) then
        DataResult(s.(buffers := ready), Conflict)
      else
        var b := Store(ready.value, seq_, data);
        if Gt(seq_, s.rcvNxt) then
          DataResult(s.(buffers := Some(b), outOfOrder := (s.outOfOrder + 1) % TWO16), Buffered)
        else
          Drain(s, b)
  }

  /** Hands over every consecutive byte from the next expected one on. */
  ghost function Drain(s: Session, b: Buffers): (r: DataResult)
  {
    var n := RunLength(b.bits, s.rcvNxt, WINDOW);
    if n == 0 then DataResult(s.(buffers := Some(b)), Buffered)
    else
      DataResult(
        s.(buffers := Some(b.(bits := b.bits - Range(s.rcvNxt, n))),
           rcvNxt := Plus(s.rcvNxt, n),
           outOfOrder := if s.outOfOrder > 0 then s.outOfOrder - 1 else 0),
        Delivered(RingRead(b.ring, s.rcvNxt, n)))
  }

  /** Every data segment is ignored, acknowledged again, or placed at or after the next expected byte. */
  lemma DataPlaced(s: Session, seq_: uint32, data: Payload, memory: Memory) returns (start: uint32, cut: nat)
    requires data != []
    ensures cut <= |data|
    ensures cut == |data| ==> ReceiveData(s, seq_, data, memory).session == s
    ensures cut < |data| ==>
              && InWindow(seq_, |data|, s.rcvNxt) && (start == s.rcvNxt ==> Lte(seq_, s.rcvNxt))
              && Diff(start, s.rcvNxt) + (|data| - cut) == Diff(Plus(seq_, |data|), s.rcvNxt) <= WINDOW
              && (start == s.rcvNxt || Gt(start, s.rcvNxt))
              && ReceiveData(s, seq_, data, memory) == Place(s, start, data[cut..], memory)
  {
    start, cut := seq_, |data|;
    if InWindow(seq_, |data|, s.rcvNxt) && !Lte(Plus(seq_, |data|), s.rcvNxt) {
      if Lt(seq_, s.rcvNxt) {
        TrimIsShorter(seq_, |data|, s.rcvNxt);
        start, cut := s.rcvNxt, Diff(s.rcvNxt, seq_);
      } else {
        AheadIsInside(seq_, |data|, s.rcvNxt);
        cut := 0;
        assert data[0..] == data;
      }
    }
  }

  /** A segment ahead of the next expected byte that meets no conflict is stored and counted. */
  lemma StoresAhead(s: Session, seq_: uint32, data: Payload, memory: Memory, b: Buffers)
    requires data != [] && 0 < Diff(seq_, s.rcvNxt) && Diff(seq_, s.rcvNxt) + |data| <= WINDOW
    requires Ready(s, memory) == Some(b) && !Conflicts(b, seq_, data)
    ensures ReceiveData(s, seq_, data, memory)
         == DataResult(s.(buffers := Some(Store(b, seq_, data)), outOfOrder := (s.outOfOrder + 1) % TWO16), Buffered)
  {
    SegmentAhead(seq_, |data|, s.rcvNxt);
  }

  /** With a positive counter, a segment at the next expected byte that meets no conflict is stored and drained. */
  lemma FillsGap(s: Session, data: Payload, memory: Memory, b: Buffers)
    requires data != [] && s.outOfOrder > 0 && Ready(s, memory) == Some(b) && !Conflicts(b, s.rcvNxt, data)
    ensures ReceiveData(s, s.rcvNxt, data, memory) == Drain(s, Store(b, s.rcvNxt, data))
  {
    SegmentAt(s.rcvNxt, |data|);
  }

  // ---------- A packet of the session

  datatype Packet = Packet(
    syn: bool, ack: bool, fin: bool, rst: bool,
    seq_: uint32, payload: Payload, memory: Memory)

  /** What the engine reports for a packet (`TcpAssemblyResult`). */
  datatype Report = Report(isReady: bool, isSyn: bool, isClosed: bool, needAck: bool, payload: seq<uint8>)

  const NOTHING: Report := Report(false, false, false, false, [])

  /** `next` is `None` when the packet removes the session. */
  datatype StepResult = StepResult(next: Option<Session>, report: Report)

  /** A new session for a SYN with sequence number `isn`. */
  ghost function NewSession(isn: uint32): (s: Session)
  {
    Session(SynSent, Plus(isn, 1), 0, None)
  }

  ghost function SessionStep(s: Session, p: Packet): (r: StepResult)
  {
    if p.rst then StepResult(None, NOTHING.(isClosed := true))
    else if p.syn then StepResult(Some(s), NOTHING.(isSyn := true))
    else if s.state == SynSent && !p.ack then StepResult(Some(s), NOTHING)
    else
      var s := if s.state == SynSent then s.(state := Established) else s;
      if s.state != Established then StepResult(Some(s), NOTHING)
      else if p.payload == [] then Finish(s, p.fin, NOTHING)
      else Respond(ReceiveData(s, p.seq_, p.payload, p.memory), p.fin)
  }

  /** What follows the treatment of a data segment. */
  ghost function Respond(d: DataResult, fin: bool): StepResult {
    match d.verdict
    case Ignored => StepResult(Some(d.session), NOTHING)
    case Stale => StepResult(Some(d.session), NOTHING.(needAck := true))
    case Conflict => StepResult(None, NOTHING.(isClosed := true))
    case Delivered(bytes) => Finish(d.session, fin, NOTHING.(isReady := true, payload := bytes))
    case _ => Finish(d.session, fin, NOTHING)
  }

  /** FIN takes one sequence number; without payload to hand over the session is removed at once. */
  ghost function Finish(s: Session, fin: bool, report: Report): (r: StepResult)
  {
    if !fin then StepResult(Some(s), report)
    else
      StepResult(
        if report.payload == [] then None else Some(s.(rcvNxt := Plus(s.rcvNxt, 1), state := Closing)),
        report.(isClosed := true))
  }

  // ---------- Runs and ranges

  lemma {:induction false} RunIsRun(bits: set<Position>, start: nat, bound: nat)
    requires bound <= WINDOW
    ensures IsRun(bits, start, RunLength(bits, start, bound), bound)
    decreases bound
  {
    if bound == 0 || start % 65536 !in bits {
      assert Range(start, 0) == {};
    } else {
      RunIsRun(bits, start + 1, bound - 1);
      var n := RunLength(bits, start + 1, bound - 1);
      ExtendRange(start, 1, n);
      RangeWrap(start + 1, n);
      SingleRange(start);
      assert start + (1 + n) == start + 1 + n;
    }
  }

  /** A run of at most 65536 positions is determined by the set. */
  lemma RunUnique(bits: set<Position>, start: nat, m: nat, n: nat, bound: nat)
    requires bound <= WINDOW
    requires IsRun(bits, start, m, bound) && IsRun(bits, start, n, bound)
    ensures m == n
  {
    RangeAt(start, m, n);
    RangeAt(start, n, m);
  }

  lemma RunIsLength(bits: set<Position>, start: nat, n: nat)
    requires IsRun(bits, start, n, WINDOW)
    ensures n == RunLength(bits, start, WINDOW)
  {
    RunIsRun(bits, start, WINDOW);
    RunUnique(bits, start, n, RunLength(bits, start, WINDOW), WINDOW);
  }
}
