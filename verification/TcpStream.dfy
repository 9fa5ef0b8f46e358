/**
  Reassembly over whole runs: the bytes a session hands over are a prefix of the stream
  that its segments were cut from, in whatever order, duplication and overlap they arrive.
 */
module TcpStream {
  import opened Common
  import opened CyclicBitmap
  import opened TcpSeq
  import opened TcpSession
  import opened Runs

  /** The stream offset in `w .. w + 65536` whose byte belongs at ring position `p`. */
  ghost function OffsetAt(base: int, w: nat, p: int): nat {
    w + Ahead(base + w, p)
  }

  /** Where the window of a session that expects offset `n` starts: short streams never leave their first window. */
  ghost function Start(short: bool, n: nat): nat {
    if short then 0 else n
  }

  /** Every filled position holds the stream's byte for the offset it stands for in the window from `w`. */
  ghost predicate Backed(b: Buffers, stream: seq<uint8>, base: int, w: nat)
  {
    forall p {:trigger p in b.bits} :: p in b.bits ==> OffsetAt(base, w, p) < |stream| && b.ring[p] == stream[OffsetAt(base, w, p)]
  }

  // ---------- Positions of sequence numbers

  lemma AheadOfSeq(base: int, o: int, p: int)
    ensures Ahead(SeqOf(base, o), p) == Ahead(base + o, p)
  {
  }

  lemma OffsetFrom(base: int, w: nat, o: nat, p: int)
    requires w <= o && o + Ahead(base + o, p) < w + WINDOW
    ensures OffsetAt(base, w, p) == o + Ahead(base + o, p)
  {
  }

  lemma PositionOfSeq(base: int, o: int, i: nat)
    ensures (SeqOf(base, o) + i) % 65536 == (base + o + i) % 65536
  {
  }

  lemma OffsetOfPosition(base: int, w: nat, q: nat)
    requires w <= q < w + WINDOW
    ensures OffsetAt(base, w, (base + q) % 65536) == q
  {
  }

  lemma OffsetOfSeq(base: int, w: nat, o: nat, i: nat)
    requires w <= o && o + i < w + WINDOW
    ensures OffsetAt(base, w, (SeqOf(base, o) + i) % 65536) == o + i
  {
    PositionOfSeq(base, o, i);
    assert base + (o + i) == base + o + i;
    OffsetOfPosition(base, w, o + i);
  }

  // ---------- Storing and draining

  /** Storing a piece of the stream keeps every filled position right. */
  lemma StoreBacked(b: Buffers, stream: seq<uint8>, base: int, w: nat, o: nat, len: nat)
    requires Backed(b, stream, base, w)
    requires w <= o && o + len <= w + WINDOW && o + len <= |stream|
    ensures Backed(Store(b, SeqOf(base, o), stream[o..o + len]), stream, base, w)
  {
    var seq_ := SeqOf(base, o);
    var b' := Store(b, seq_, stream[o..o + len]);
    forall p | p in b'.bits
      ensures OffsetAt(base, w, p) < |stream| && b'.ring[p] == stream[OffsetAt(base, w, p)]
    {
      AheadOfSeq(base, o, p);
      if Ahead(seq_, p) < len {
        OffsetFrom(base, w, o, p);
      }
    }
  }

  lemma RunByte(b: Buffers, stream: seq<uint8>, base: int, w: nat, n: nat, run: nat, i: nat)
    requires Backed(b, stream, base, w)
    requires Range(SeqOf(base, n), run) <= b.bits
    requires i < run <= WINDOW && w <= n && n + i < w + WINDOW
    ensures n + i < |stream| && b.ring[(SeqOf(base, n) + i) % 65536] == stream[n + i]
  {
    var p := (SeqOf(base, n) + i) % 65536;
    RangeAt(SeqOf(base, n), i, run);
    OffsetOfSeq(base, w, n, i);
    assert p in b.bits;
  }

  /** The stream ends inside the window from `w`, or with it, and then the window's first position is empty. */
  ghost predicate Bounded(bits: set<Position>, stream: seq<uint8>, base: int, w: nat) {
    |stream| <= w + WINDOW && (|stream| == w + WINDOW ==> (base + w) % 65536 !in bits)
  }

  /** A run does not go past the end of the stream. */
  lemma RunEnds(b: Buffers, stream: seq<uint8>, base: int, w: nat, n: nat, run: nat)
    requires Backed(b, stream, base, w)
    requires Range(SeqOf(base, n), run) <= b.bits && run <= WINDOW
    requires w <= n <= |stream| && (w == n || Bounded(b.bits, stream, base, w))
    ensures n + run <= |stream|
  {
    if n + run > |stream| {
      var i := |stream| - n;
      if n + i < w + WINDOW {
        RunByte(b, stream, base, w, n, run, i);
      } else {
        RangeAt(SeqOf(base, n), i, run);
        PositionOfSeq(base, n, i);
        WholeWindow(base, w, n, i);
      }
    }
  }

  lemma WholeWindow(base: int, w: nat, n: nat, i: nat)
    requires n + i == w + WINDOW
    ensures (base + n + i) % 65536 == (base + w) % 65536
  {
  }

  /** The run from the next expected byte is the next piece of the stream. */
  lemma RunIsStream(b: Buffers, stream: seq<uint8>, base: int, w: nat, n: nat, run: nat)
    requires Backed(b, stream, base, w)
    requires Range(SeqOf(base, n), run) <= b.bits && run <= WINDOW
    requires w <= n <= |stream| && (w == n || Bounded(b.bits, stream, base, w))
    ensures n + run <= |stream|
    ensures RingRead(b.ring, SeqOf(base, n), run) == stream[n..n + run]
  {
    RunEnds(b, stream, base, w, n, run);
    var read := RingRead(b.ring, SeqOf(base, n), run);
    forall i | 0 <= i < run
      ensures read[i] == stream[n..n + run][i]
    {
      RunByte(b, stream, base, w, n, run, i);
    }
  }

  lemma LaterWindow(base: int, n: nat, run: nat, p: int)
    requires run <= Ahead(base + n, p)
    ensures OffsetAt(base, n + run, p) == OffsetAt(base, n, p)
  {
  }

  /** What a drain leaves behind belongs to the window that starts after it. */
  lemma DrainBacked(b: Buffers, stream: seq<uint8>, base: int, n: nat, run: nat, short: bool)
    requires Backed(b, stream, base, Start(short, n))
    requires run <= WINDOW
    ensures Backed(b.(bits := b.bits - Range(SeqOf(base, n), run)), stream, base, Start(short, n + run))
  {
    if !short {
      forall p | p in b.bits - Range(SeqOf(base, n), run)
        ensures OffsetAt(base, n + run, p) == OffsetAt(base, n, p)
      {
        AheadOfSeq(base, n, p);
        LaterWindow(base, n, run, p);
      }
    }
  }

  // ---------- One step

  /** The session has handed over exactly `stream[..n]`, and what it buffers is from the stream. */
  ghost predicate Follows(s: Session, stream: seq<uint8>, base: int, n: nat, short: bool) {
    && n <= |stream| && (short ==> |stream| <= WINDOW && base % 65536 !in Bits(s))
    && s.rcvNxt == SeqOf(base, if s.state == Closing then n + 1 else n)
    && (s.buffers.Some? ==> Backed(s.buffers.value, stream, base, Start(short, n)))
  }

  /** A count of zero means that nothing is buffered, while the session still takes data. */
  ghost predicate CountIsHonest(s: Session) {
    s.state != Closing && s.outOfOrder == 0 ==> Bits(s) == {}
  }

  /**
    With a zero count, an in-order segment is handed over without a look at the bitmap. This
    one, from stream offset `o` on, does not pass over a filled position that way.
   */
  ghost predicate PassesNone(s: Session, n: nat, o: nat, len: nat) {
    s.state != Closing && s.outOfOrder == 0 && o <= n < o + len ==> Bits(s) !! Range(s.rcvNxt, o + len - n)
  }

  /** What a data segment may do to a session that follows the stream. */
  ghost predicate Extends(r: DataResult, stream: seq<uint8>, base: int, n: nat, short: bool) {
    match r.verdict
    case Delivered(bytes) =>
      && n + |bytes| <= |stream| && bytes == stream[n..n + |bytes|]
      && Follows(r.session, stream, base, n + |bytes|, short)
    case _ => Follows(r.session, stream, base, n, short)
  }

  /** The first position of the stream is taken out by the drain that starts there. */
  lemma FirstDrained(bits: set<Position>, base: int, n: nat, run: nat)
    requires n > 0 ==> base % 65536 !in bits
    requires IsRun(bits, SeqOf(base, n), run, WINDOW)
    ensures base % 65536 !in bits - Range(SeqOf(base, n), run)
  {
    if n == 0 {
      PositionOfSeq(base, 0, 0);
      RangeAt(SeqOf(base, 0), 0, run);
    }
  }

  /** A session whose first `run` buffered bytes were taken out. */
  lemma DrainedFollows(s: Session, b: Buffers, stream: seq<uint8>, base: int, n: nat, run: nat, short: bool, t: Session)
    requires s.state == Established && s.rcvNxt == SeqOf(base, n) && n + run <= |stream| && run <= WINDOW
    requires short ==> |stream| <= WINDOW && base % 65536 !in b.bits - Range(s.rcvNxt, run)
    requires Backed(b, stream, base, Start(short, n))
    requires t.state == Established && t.rcvNxt == Plus(s.rcvNxt, run)
    requires t.buffers == Some(b.(bits := b.bits - Range(s.rcvNxt, run)))
    ensures Follows(t, stream, base, n + run, short)
  {
    PlusOf(base, n, run);
    DrainBacked(b, stream, base, n, run, short);
  }

  lemma DeliveredExtends(r: DataResult, bytes: seq<uint8>, stream: seq<uint8>, base: int, n: nat, run: nat, short: bool)
    requires r.verdict == Delivered(bytes) && |bytes| == run && n + run <= |stream| && bytes == stream[n..n + run]
    requires Follows(r.session, stream, base, n + run, short)
    ensures Extends(r, stream, base, n, short)
  {
  }

  /** A drain of `run` bytes, when they are the next piece of the stream. */
  lemma DrainFollows(s: Session, b: Buffers, stream: seq<uint8>, base: int, n: nat, run: nat, short: bool)
    requires s.state == Established && s.rcvNxt == SeqOf(base, n) && n + run <= |stream|
    requires short ==> |stream| <= WINDOW && base % 65536 !in b.bits - Range(s.rcvNxt, run)
    requires Backed(b, stream, base, Start(short, n)) && 0 < run == RunLength(b.bits, s.rcvNxt, WINDOW) <= WINDOW
    requires RingRead(b.ring, s.rcvNxt, run) == stream[n..n + run]
    ensures Extends(Drain(s, b), stream, base, n, short)
    ensures Drain(s, b).session.state == Established
  {
    var bytes, r := RingRead(b.ring, s.rcvNxt, run), Drain(s, b);
    DrainedFollows(s, b, stream, base, n, run, short, r.session);
    DeliveredExtends(r, bytes, stream, base, n, run, short);
  }

  /** A drain without a byte to hand over. */
  lemma NoDrainFollows(s: Session, b: Buffers, stream: seq<uint8>, base: int, n: nat, short: bool)
    requires s.state == Established && s.rcvNxt == SeqOf(base, n) && n <= |stream|
    requires short ==> |stream| <= WINDOW && base % 65536 !in b.bits
    requires Backed(b, stream, base, Start(short, n)) && RunLength(b.bits, s.rcvNxt, WINDOW) == 0
    ensures Extends(Drain(s, b), stream, base, n, short)
    ensures Drain(s, b).session.state == Established
  {
  }

  lemma DrainExtends(s: Session, b: Buffers, stream: seq<uint8>, base: int, n: nat, short: bool)
    requires s.state == Established && s.rcvNxt == SeqOf(base, n) && n <= |stream|
    requires short ==> |stream| <= WINDOW && (n > 0 ==> base % 65536 !in b.bits)
    requires Backed(b, stream, base, Start(short, n))
    ensures Extends(Drain(s, b), stream, base, n, short)
    ensures Drain(s, b).session.state == Established
  {
    var run := RunLength(b.bits, s.rcvNxt, WINDOW);
    RunIsRun(b.bits, s.rcvNxt, WINDOW);
    RunIsStream(b, stream, base, Start(short, n), n, run);
    if short {
      FirstDrained(b.bits, base, n, run);
    }
    if run > 0 {
      DrainFollows(s, b, stream, base, n, run, short);
    } else {
      assert b.bits - Range(s.rcvNxt, 0) == b.bits;
      NoDrainFollows(s, b, stream, base, n, short);
    }
  }

  /** The fast path hands over the segment as it is. */
  lemma FastExtends(s: Session, stream: seq<uint8>, base: int, n: nat, short: bool, data: seq<uint8>, memory: Memory)
    requires Follows(s, stream, base, n, short) && s.state == Established && s.outOfOrder == 0
    requires short || Bits(s) !! Range(s.rcvNxt, |data|)
    requires |data| <= WINDOW && n + |data| <= |stream| && data == stream[n..n + |data|]
    ensures var r := Place(s, SeqOf(base, n), data, memory);
            Extends(r, stream, base, n, short) && r.session.state == Established
  {
    PlusOf(base, n, |data|);
    if !short && s.buffers.Some? {
      DrainBacked(s.buffers.value, stream, base, n, |data|, short);
      assert s.buffers.value.bits - Range(s.rcvNxt, |data|) == s.buffers.value.bits;
    }
  }

  /** Only a segment at the start of the stream covers its first position. */
  lemma FirstStored(base: int, o: nat, len: nat)
    requires 0 < o && o + len <= WINDOW
    ensures base % 65536 !in Range(SeqOf(base, o), len)
  {
    AheadOfSeq(base, o, base % 65536);
    OffsetOfPosition(base, o, WINDOW);
    WholeWindow(base, 0, 0, WINDOW);
  }

  /** A stored piece of the stream leaves the session in step. */
  lemma StoreExtends(s: Session, b: Buffers, stream: seq<uint8>, base: int, n: nat, short: bool, o: nat, data: seq<uint8>, count: uint16)
    requires Follows(s, stream, base, n, short) && s.state == Established
    requires b.bits == Bits(s) && Backed(b, stream, base, Start(short, n))
    requires n < o && o + |data| <= n + WINDOW && o + |data| <= |stream| && data == stream[o..o + |data|]
    ensures Follows(s.(buffers := Some(Store(b, SeqOf(base, o), data)), outOfOrder := count), stream, base, n, short)
  {
    StoreBacked(b, stream, base, Start(short, n), o, |data|);
    if short {
      FirstStored(base, o, |data|);
    }
  }

  /** A segment that fills the gap. */
  lemma FillExtends(s: Session, b: Buffers, stream: seq<uint8>, base: int, n: nat, short: bool, data: seq<uint8>)
    requires Follows(s, stream, base, n, short) && s.state == Established
    requires b.bits == Bits(s) && Backed(b, stream, base, Start(short, n))
    requires |data| <= WINDOW && n + |data| <= |stream| && data == stream[n..n + |data|]
    ensures var r := Drain(s, Store(b, SeqOf(base, n), data));
            Extends(r, stream, base, n, short) && r.session.state == Established
  {
    StoreBacked(b, stream, base, Start(short, n), n, |data|);
    if short && n > 0 {
      FirstStored(base, n, |data|);
    }
    DrainExtends(s, Store(b, SeqOf(base, n), data), stream, base, n, short);
  }

  lemma PlaceExtends(s: Session, stream: seq<uint8>, base: int, n: nat, short: bool, o: nat, data: seq<uint8>, memory: Memory)
    requires Follows(s, stream, base, n, short) && s.state == Established
    requires short || PassesNone(s, n, o, |data|)
    requires n <= o && o + |data| <= n + WINDOW && o + |data| <= |stream| && data == stream[o..o + |data|]
    ensures var r := Place(s, SeqOf(base, o), data, memory);
            Extends(r, stream, base, n, short) && r.session.state == Established
  {
    SignedDiff(base, o, n);
    if o == n && s.outOfOrder == 0 {
      FastExtends(s, stream, base, n, short, data, memory);
    } else {
      var ready := Ready(s, memory);
      if ready.Some? && !Conflicts(ready.value, SeqOf(base, o), data) {
        if o == n {
          FillExtends(s, ready.value, stream, base, n, short, data);
        } else {
          StoreExtends(s, ready.value, stream, base, n, short, o, data, (s.outOfOrder + 1) % TWO16);
        }
      }
    }
  }

  ghost function Max(a: nat, b: nat): nat {
    if a < b then b else a
  }

  /** The wrapping tests decide about a segment what the offsets decide. */
  lemma DataCases(s: Session, base: int, n: nat, o: nat, data: Payload, memory: Memory)
    requires s.rcvNxt == SeqOf(base, n) && data != [] && Fresh(o, |data|, n)
    ensures var end := o + |data|;
            ReceiveData(s, SeqOf(base, o), data, memory) ==
            if !(n <= end <= n + WINDOW) then DataResult(s, Ignored)
            else if end == n then DataResult(s, Stale)
            else Place(s, SeqOf(base, Max(o, n)), data[Max(o, n) - o..], memory)
  {
    WindowTest(base, o, |data|, n);
    if n <= o + |data| <= n + WINDOW {
      Classification(base, o, |data|, n);
    }
  }

  lemma RestExtends(s: Session, stream: seq<uint8>, base: int, n: nat, short: bool, o: nat, data: seq<uint8>, memory: Memory)
    requires Follows(s, stream, base, n, short) && s.state == Established
    requires short || PassesNone(s, n, o, |data|)
    requires n < o + |data| <= n + WINDOW && o + |data| <= |stream| && data == stream[o..o + |data|]
    ensures var r := Place(s, SeqOf(base, Max(o, n)), data[Max(o, n) - o..], memory);
            Extends(r, stream, base, n, short) && r.session.state == Established
  {
    var m := Max(o, n);
    assert data[m - o..] == stream[m..o + |data|];
    PlaceExtends(s, stream, base, n, short, m, data[m - o..], memory);
  }

  lemma DataExtends(s: Session, stream: seq<uint8>, base: int, n: nat, short: bool, o: nat, data: Payload, memory: Memory)
    requires Follows(s, stream, base, n, short) && s.state == Established
    requires short || PassesNone(s, n, o, |data|)
    requires data != [] && Fresh(o, |data|, n)
    requires o + |data| <= |stream| && data == stream[o..o + |data|]
    ensures var r := ReceiveData(s, SeqOf(base, o), data, memory);
            Extends(r, stream, base, n, short) && r.session.state == Established
  {
    DataCases(s, base, n, o, data, memory);
    if n < o + |data| <= n + WINDOW {
      RestExtends(s, stream, base, n, short, o, data, memory);
    }
  }

  // ---------- Conflicts of honest segments

  /** Among the compared bytes is one whose position is not filled and holds something else. */
  ghost predicate LeftOverDiffers(b: Buffers, start: nat, data: seq<uint8>) {
    exists i :: 0 <= i < |data| && i < CHECKED && DiffersAt(b, start, data, i)
  }

  ghost predicate DiffersAt(b: Buffers, start: nat, data: seq<uint8>, i: nat)
    requires i < |data|
  {
    (start + i) % 65536 !in b.bits && b.ring[(start + i) % 65536] != data[i]
  }

  /** Filled positions agree with a segment of the stream, so only left-over bytes can contradict it. */
  lemma ConflictIsLeftOver(b: Buffers, stream: seq<uint8>, base: int, w: nat, o: nat, data: seq<uint8>)
    requires Backed(b, stream, base, w) && w <= o && o + |data| <= w + WINDOW
    requires o + |data| <= |stream| && data == stream[o..o + |data|]
    ensures Conflicts(b, SeqOf(base, o), data)
            <==> !(b.bits !! Range(SeqOf(base, o), |data|)) && LeftOverDiffers(b, SeqOf(base, o), data)
  {
    var start := SeqOf(base, o);
    var checked := if |data| < CHECKED then |data| else CHECKED;
    var read := RingRead(b.ring, start, checked);
    forall i | 0 <= i < checked
      ensures DiffersAt(b, start, data, i) <==> read[i] != data[..checked][i]
    {
      OffsetOfSeq(base, w, o, i);
      assert (start + i) % 65536 in b.bits ==> b.ring[(start + i) % 65536] == stream[o + i];
    }
    if read != data[..checked] {
      var i :| 0 <= i < checked && read[i] != data[..checked][i];
      assert DiffersAt(b, start, data, i);
    }
  }

  lemma PlaceConflict(s: Session, stream: seq<uint8>, base: int, n: nat, short: bool, m: nat, data: seq<uint8>, memory: Memory)
    requires Follows(s, stream, base, n, short) && s.state == Established
    requires n <= m && m + |data| <= n + WINDOW && m + |data| <= |stream| && data == stream[m..m + |data|]
    ensures Place(s, SeqOf(base, m), data, memory).verdict == Conflict <==>
            && !(m == n && s.outOfOrder == 0) && s.buffers.Some?
            && !(s.buffers.value.bits !! Range(SeqOf(base, m), |data|))
            && LeftOverDiffers(s.buffers.value, SeqOf(base, m), data)
  {
    SignedDiff(base, m, n);
    if s.buffers.Some? {
      ConflictIsLeftOver(s.buffers.value, stream, base, Start(short, n), m, data);
    }
  }

  /**
    When an honest segment closes the session: it is placed beside the fast path, overlaps a
    filled position, and a left-over byte among its first 1500 differs from it.
   */
  lemma HonestConflict(s: Session, stream: seq<uint8>, base: int, n: nat, short: bool, o: nat, data: Payload, memory: Memory)
    requires Follows(s, stream, base, n, short) && s.state == Established
    requires data != [] && Fresh(o, |data|, n)
    requires o + |data| <= |stream| && data == stream[o..o + |data|]
    ensures ReceiveData(s, SeqOf(base, o), data, memory).verdict == Conflict <==>
            && n < o + |data| <= n + WINDOW
            && var m := Max(o, n);
               var rest := data[m - o..];
               && !(m == n && s.outOfOrder == 0) && s.buffers.Some?
               && !(s.buffers.value.bits !! Range(SeqOf(base, m), |rest|))
               && LeftOverDiffers(s.buffers.value, SeqOf(base, m), rest)
  {
    DataCases(s, base, n, o, data, memory);
    if n < o + |data| <= n + WINDOW {
      var m := Max(o, n);
      PlaceConflict(s, stream, base, n, short, m, data[m - o..], memory);
    }
  }

  /** What a packet may do to a session that follows the stream. */
  ghost predicate Goes(r: StepResult, stream: seq<uint8>, base: int, n: nat, short: bool) {
    && n + |r.report.payload| <= |stream|
    && r.report.payload == stream[n..n + |r.report.payload|]
    && (r.next.Some? ==> Follows(r.next.value, stream, base, n + |r.report.payload|, short))
  }

  lemma FinishGoes(s: Session, fin: bool, report: Report, stream: seq<uint8>, base: int, n: nat, short: bool)
    requires n + |report.payload| <= |stream| && report.payload == stream[n..n + |report.payload|]
    requires Follows(s, stream, base, n + |report.payload|, short) && s.state == Established
    ensures Goes(Finish(s, fin, report), stream, base, n, short)
  {
    PlusOf(base, n + |report.payload|, 1);
  }

  lemma RespondGoes(d: DataResult, fin: bool, stream: seq<uint8>, base: int, n: nat, short: bool)
    requires n <= |stream| && Extends(d, stream, base, n, short) && d.session.state == Established
    ensures Goes(Respond(d, fin), stream, base, n, short)
  {
    match d.verdict
    case Delivered(bytes) => FinishGoes(d.session, fin, NOTHING.(isReady := true, payload := bytes), stream, base, n, short);
    case _ => FinishGoes(d.session, fin, NOTHING, stream, base, n, short);
  }

  // ---------- Runs

  /** A packet and the stream offset that its payload, if any, was cut at. */
  datatype Sent = Sent(packet: Packet, offset: nat)

  ghost predicate CutFrom(m: Sent, stream: seq<uint8>, base: int) {
    m.packet.payload != [] ==>
      && m.offset + |m.packet.payload| <= |stream|
      && m.packet.seq_ == SeqOf(base, m.offset)
      && m.packet.payload == stream[m.offset..m.offset + |m.packet.payload|]
  }

  ghost predicate FreshSent(m: Sent, n: nat) {
    m.packet.payload != [] ==> Fresh(m.offset, |m.packet.payload|, n)
  }

  lemma StepFollows(s: Session, m: Sent, stream: seq<uint8>, base: int, n: nat, short: bool)
    requires Follows(s, stream, base, n, short) && CutFrom(m, stream, base) && FreshSent(m, n)
    requires short || PassesNone(s, n, m.offset, |m.packet.payload|)
    ensures Goes(SessionStep(s, m.packet), stream, base, n, short)
  {
    var p := m.packet;
    if !p.rst && !p.syn && (s.state == Established || (s.state == SynSent && p.ack)) {
      var s := s.(state := Established);
      if p.payload == [] {
        FinishGoes(s, p.fin, NOTHING, stream, base, n, short);
      } else {
        DataExtends(s, stream, base, n, short, m.offset, p.payload, p.memory);
        RespondGoes(ReceiveData(s, p.seq_, p.payload, p.memory), p.fin, stream, base, n, short);
      }
    }
  }

  ghost function SentStep(s: Session, m: Sent): Step<Session, uint8> {
    var r := SessionStep(s, m.packet);
    Step(r.next, r.report.payload)
  }

  ghost function Inv(stream: seq<uint8>, base: int, short: bool): (Session, nat) -> bool {
    (s: Session, n: nat) => Follows(s, stream, base, n, short)
  }

  /** Segments of a stream of less than 2^32 - 65536 bytes are always fresh. */
  ghost predicate NoAlias(m: Sent, n: nat, stream: seq<uint8>) {
    |stream| <= TWO32 - WINDOW || FreshSent(m, n)
  }

  /** The segment is cut from the stream; past the first window it must also be fresh, and pass over no filled position. */
  ghost function Fine(stream: seq<uint8>, base: int, short: bool): (Session, Sent, nat) -> bool {
    (s: Session, m: Sent, n: nat) => CutFrom(m, stream, base) && (short || (PassesNone(s, n, m.offset, |m.packet.payload|) && NoAlias(m, n, stream)))
  }

  lemma GoesAlong(r: StepResult, stream: seq<uint8>, base: int, n: nat, short: bool)
    requires Goes(r, stream, base, n, short)
    ensures Along(Step(r.next, r.report.payload), stream, n, Inv(stream, base, short))
  {
  }

  lemma FineStep(stream: seq<uint8>, base: int, short: bool, s: Session, m: Sent, n: nat)
    requires Follows(s, stream, base, n, short) && CutFrom(m, stream, base)
    requires short || (PassesNone(s, n, m.offset, |m.packet.payload|) && NoAlias(m, n, stream))
    ensures Along(SentStep(s, m), stream, n, Inv(stream, base, short))
  {
    assert FreshSent(m, n);
    StepFollows(s, m, stream, base, n, short);
    GoesAlong(SessionStep(s, m.packet), stream, base, n, short);
  }

  /** The sequence number that the session must expect after handing over `n` bytes. */
  ghost function Expected(s: Session, base: int, n: nat): uint32 {
    SeqOf(base, if s.state == Closing then n + 1 else n)
  }

  lemma RunFollows(isn: uint32, ms: seq<Sent>, stream: seq<uint8>, short: bool)
    requires short ==> |stream| <= WINDOW
    requires Always(SentStep, Fine(stream, isn + 1, short), NewSession(isn), ms, 0)
    ensures var r := Run(SentStep, NewSession(isn), ms);
            && r.output <= stream
            && (r.last.Some? ==> r.last.value.rcvNxt == Expected(r.last.value, isn + 1, |r.output|))
  {
    var inv, fine := Inv(stream, isn + 1, short), Fine(stream, isn + 1, short);
    forall s, m, n: nat | inv(s, n) && fine(s, m, n)
      ensures Along(SentStep(s, m), stream, n, inv)
    {
      FineStep(stream, isn + 1, short, s, m, n);
    }
    RunAlong(SentStep, fine, inv, stream, NewSession(isn), ms, 0);
  }

  /**
    For streams of at most 65536 bytes the bytes handed over in a session's life are the
    prefix of the stream that ends at the next expected sequence number, in every run.
   */
  lemma ShortStream(isn: uint32, ms: seq<Sent>, stream: seq<uint8>)
    requires |stream| <= WINDOW
    requires forall i | 0 <= i < |ms| :: CutFrom(ms[i], stream, isn + 1)
    ensures var r := Run(SentStep, NewSession(isn), ms);
            && r.output <= stream
            && (r.last.Some? ==> r.last.value.rcvNxt == Expected(r.last.value, isn + 1, |r.output|))
  {
    AlwaysEach(SentStep, Fine(stream, isn + 1, true), NewSession(isn), ms, 0);
    RunFollows(isn, ms, stream, true);
  }

  /** For streams of any length the same holds along runs whose segments are fresh and pass over no filled position. */
  lemma LongStream(isn: uint32, ms: seq<Sent>, stream: seq<uint8>)
    requires Always(SentStep, Fine(stream, isn + 1, false), NewSession(isn), ms, 0)
    ensures var r := Run(SentStep, NewSession(isn), ms);
            && r.output <= stream
            && (r.last.Some? ==> r.last.value.rcvNxt == Expected(r.last.value, isn + 1, |r.output|))
  {
    RunFollows(isn, ms, stream, false);
  }
}
