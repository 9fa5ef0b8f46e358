/**
  What becomes of the accepted bytes: when the bytes handed over and the bitmap account for
  exactly the bytes accepted, and when nothing that could be handed over stays behind.
 */
module TcpComplete {
  import opened Common
  import opened CyclicBitmap
  import opened TcpSeq
  import opened TcpSession
  import opened TcpStream
  import opened TcpCount
  import opened TcpBuffered
  import opened TcpExact
  import opened Runs

  /** A session, the number of bytes it has handed over, and the stream offsets of its accepted segments. */
  datatype Tracked = Tracked(session: Session, n: nat, covered: set<nat>)

  ghost function Offsets(o: nat, len: nat): (r: set<nat>)
    ensures forall i: nat :: i in r <==> o <= i < o + len
  {
    if len == 0 then {} else Offsets(o, len - 1) + {o + len - 1}
  }

  /** The session takes the data of the segment. */
  ghost predicate Accepts(s: Session, p: Packet) {
    && p.payload != [] && !p.rst && !p.syn && (s.state == Established || (s.state == SynSent && p.ack))
    && Taken(ReceiveData(s.(state := Established), p.seq_, p.payload, p.memory).verdict)
  }

  ghost function CoveredAfter(t: Tracked, m: Sent): set<nat> {
    t.covered + if Accepts(t.session, m.packet) then Offsets(m.offset, |m.packet.payload|) else {}
  }

  ghost function Track(n: nat, r: StepResult, covered: set<nat>): Step<Tracked, uint8> {
    Step(if r.next.None? then None else Some(Tracked(r.next.value, n + |r.report.payload|, covered)), r.report.payload)
  }

  ghost function TrackStep(t: Tracked, m: Sent): Step<Tracked, uint8> {
    Track(t.n, SessionStep(t.session, m.packet), CoveredAfter(t, m))
  }

  ghost predicate Filled(bits: set<Position>, base: int, o: nat) {
    (base + o) % 65536 in bits
  }

  /** The offsets below `n`, and those of the window from `n` whose positions are filled. */
  ghost function CoveredBy(bits: set<Position>, base: int, n: nat): set<nat> {
    Offsets(0, n) + set o: nat | n <= o < n + WINDOW && Filled(bits, base, o)
  }

  /** The covered offsets are those handed over and those buffered; if `strict`, the next one is missing. */
  ghost predicate Exact(bits: set<Position>, base: int, n: nat, covered: set<nat>, strict: bool) {
    covered == CoveredBy(bits, base, n) && (strict ==> !Filled(bits, base, n))
  }

  /** None of the `len` positions from `start` on is filled; if `strict`, nor is the one behind them. */
  ghost predicate Free(bits: set<Position>, start: nat, len: nat, strict: bool) {
    bits !! Range(start, len) && (strict ==> (start + len) % 65536 !in bits)
  }

  // ---------- Storing and draining

  lemma PositionInRange(base: int, o: nat, len: nat, x: nat)
    requires o <= x < o + WINDOW
    ensures (base + x) % 65536 in Range(SeqOf(base, o), len) <==> x < o + len
  {
    AheadOfSeq(base, o, (base + x) % 65536);
    OffsetOfPosition(base, o, x);
  }

  lemma PositionBehind(base: int, o: nat, len: nat, n: nat, x: nat)
    requires n <= x < o && o + len <= n + WINDOW
    ensures (base + x) % 65536 !in Range(SeqOf(base, o), len)
  {
    SamePosition(base, x);
    PositionInRange(base, o, len, x + WINDOW);
  }

  /** Offsets one window apart share their position. */
  lemma SamePosition(base: int, x: nat)
    ensures (base + (x + WINDOW)) % 65536 == (base + x) % 65536
  {
  }

  lemma StoreExact(bits: set<Position>, base: int, n: nat, o: nat, len: nat, strict: bool)
    requires (strict ==> !Filled(bits, base, n)) && n < o && o + len <= n + WINDOW
    ensures Exact(bits + Range(SeqOf(base, o), len), base, n, CoveredBy(bits, base, n) + Offsets(o, len), strict)
  {
    var filled := bits + Range(SeqOf(base, o), len);
    forall x: nat | n <= x < n + WINDOW
      ensures Filled(filled, base, x) <==> Filled(bits, base, x) || x in Offsets(o, len)
    {
      if x < o {
        PositionBehind(base, o, len, n, x);
      } else {
        PositionInRange(base, o, len, x);
      }
    }
  }

  lemma DrainExact(bits: set<Position>, base: int, n: nat, covered: set<nat>, len: nat, run: nat, left: set<Position>)
    requires covered == CoveredBy(bits, base, n) && len <= WINDOW
    requires IsRun(bits + Range(SeqOf(base, n), len), SeqOf(base, n), run, WINDOW)
    requires left == bits + Range(SeqOf(base, n), len) - Range(SeqOf(base, n), run)
    ensures Exact(left, base, n + run, covered + Offsets(n, len), true)
  {
    var filled := bits + Range(SeqOf(base, n), len);
    forall x: nat | n <= x < n + WINDOW
      ensures Filled(filled, base, x) <==> Filled(bits, base, x) || x in Offsets(n, len)
      ensures x < n + run ==> Filled(filled, base, x)
      ensures Filled(left, base, x) <==> n + run <= x && Filled(filled, base, x)
    {
      PositionInRange(base, n, len, x);
      PositionInRange(base, n, run, x);
    }
    forall x: nat | n + WINDOW <= x < n + run + WINDOW
      ensures !Filled(left, base, x)
    {
      SamePosition(base, x - WINDOW);
      PositionInRange(base, n, run, x - WINDOW);
    }
    DrainedNext(filled, SeqOf(base, n), run);
    PositionOfSeq(base, n, run);
    assert base + n + run == base + (n + run);
  }

  lemma OffsetOfFilled(bits: set<Position>, base: int, n: nat, len: nat, p: Position) returns (x: nat)
    requires p in bits && p in Range(SeqOf(base, n), len)
    ensures n <= x < n + len && Filled(bits, base, x)
  {
    AheadOfSeq(base, n, p);
    x := n + Ahead(base + n, p);
    SameResidue(base + n, p);
    assert base + x == base + n + Ahead(base + n, p);
  }

  /** The positions that the fast path passes over, as offsets. */
  lemma FreeOffsets(bits: set<Position>, base: int, n: nat, len: nat)
    requires len < WINDOW
    ensures bits !! Range(SeqOf(base, n), len) <==> forall x: nat | n <= x < n + len :: !Filled(bits, base, x)
  {
    if x: nat :| n <= x < n + len && Filled(bits, base, x) {
      PositionInRange(base, n, len, x);
    } else if p :| p in bits && p in Range(SeqOf(base, n), len) {
      var x := OffsetOfFilled(bits, base, n, len, p);
    }
  }

  lemma PositionBeyond(base: int, n: nat, len: nat)
    ensures (SeqOf(base, n) + len) % 65536 == (base + (n + len)) % 65536
  {
    PositionOfSeq(base, n, len);
    assert base + n + len == base + (n + len);
  }

  lemma SameResidue(start: int, p: Position)
    ensures (start + Ahead(start, p)) % 65536 == p
  {
  }

  /**
    The fast path keeps the account exactly when it passes over no filled position. A passed
    position would stand for a byte one window later.
   */
  lemma FastExact(bits: set<Position>, base: int, n: nat, covered: set<nat>, len: nat, strict: bool)
    requires Exact(bits, base, n, covered, strict) && 0 < len < WINDOW
    ensures Exact(bits, base, n + len, covered + Offsets(n, len), strict) <==> Free(bits, SeqOf(base, n), len, strict)
  {
    FreeOffsets(bits, base, n, len);
    PositionBeyond(base, n, len);
    forall x: nat
      ensures Filled(bits, base, x + WINDOW) <==> Filled(bits, base, x)
    {
      SamePosition(base, x);
    }
    var after := covered + Offsets(n, len);
    if x: nat :| n <= x < n + len && Filled(bits, base, x) {
      assert x + WINDOW in CoveredBy(bits, base, n + len) && x + WINDOW !in after;
    } else {
      PassedNone(bits, base, n, len);
    }
  }

  lemma PassedNone(bits: set<Position>, base: int, n: nat, len: nat)
    requires len < WINDOW
    requires forall x: nat | n <= x < n + len :: !Filled(bits, base, x)
    requires forall x: nat :: Filled(bits, base, x + WINDOW) <==> Filled(bits, base, x)
    ensures CoveredBy(bits, base, n + len) == CoveredBy(bits, base, n) + Offsets(n, len)
  {
    forall x: nat | n + WINDOW <= x < n + len + WINDOW
      ensures !Filled(bits, base, x)
    {
      assert Filled(bits, base, x - WINDOW + WINDOW) <==> Filled(bits, base, x - WINDOW);
    }
  }

  // ---------- One step

  lemma DrainBits(s: Session, b: Buffers) returns (run: nat)
    ensures IsRun(b.bits, s.rcvNxt, run, WINDOW)
    ensures var r := Drain(s, b);
            Bits(r.session) == b.bits - Range(s.rcvNxt, run) && |PayloadOf(r.verdict)| == run
  {
    run := RunLength(b.bits, s.rcvNxt, WINDOW);
    RunIsRun(b.bits, s.rcvNxt, WINDOW);
    assert run == 0 ==> b.bits - Range(s.rcvNxt, run) == b.bits;
  }

  lemma AfterDrain(r: DataResult, base: int, n: nat, run: nat, covered: set<nat>, strict: bool)
    requires Exact(Bits(r.session), base, n + run, covered, true) && |PayloadOf(r.verdict)| == run
    ensures ExactAfter(r, base, n, covered, strict)
  {
  }

  lemma FillExact(s: Session, b: Buffers, base: int, n: nat, covered: set<nat>, len: nat, strict: bool)
    requires s.rcvNxt == SeqOf(base, n) && Exact(Bits(s), base, n, covered, strict) && len <= WINDOW
    requires b.bits == Bits(s) + Range(s.rcvNxt, len)
    ensures ExactAfter(Drain(s, b), base, n, covered + Offsets(n, len), strict)
  {
    var run := DrainBits(s, b);
    var r := Drain(s, b);
    DrainExact(Bits(s), base, n, covered, len, run, Bits(r.session));
    AfterDrain(r, base, n, run, covered + Offsets(n, len), strict);
  }

  ghost predicate Taken(v: Verdict) {
    v.Buffered? || v.Delivered?
  }

  ghost predicate ExactAfter(r: DataResult, base: int, n: nat, covered: set<nat>, strict: bool) {
    Exact(Bits(r.session), base, n + |PayloadOf(r.verdict)|, covered, strict)
  }

  /** The fast path. */
  lemma FastPlaced(s: Session, base: int, n: nat, covered: set<nat>, data: seq<uint8>, memory: Memory, strict: bool)
    requires s.rcvNxt == SeqOf(base, n) && s.outOfOrder == 0 && Exact(Bits(s), base, n, covered, strict)
    requires 0 < |data| < WINDOW
    ensures ExactAfter(Place(s, SeqOf(base, n), data, memory), base, n, covered + Offsets(n, |data|), strict)
            <==> Free(Bits(s), s.rcvNxt, |data|, strict)
  {
    FastExact(Bits(s), base, n, covered, |data|, strict);
    assert Place(s, SeqOf(base, n), data, memory) == DataResult(s.(rcvNxt := Plus(s.rcvNxt, |data|)), Delivered(data));
  }

  lemma PlaceFills(s: Session, data: seq<uint8>, memory: Memory) returns (b: Buffers)
    requires s.outOfOrder != 0 && Taken(Place(s, s.rcvNxt, data, memory).verdict)
    ensures Place(s, s.rcvNxt, data, memory) == Drain(s, b) && b.bits == Bits(s) + Range(s.rcvNxt, |data|)
  {
    b := Store(Ready(s, memory).value, s.rcvNxt, data);
  }

  lemma FillPlaced(s: Session, base: int, n: nat, covered: set<nat>, data: seq<uint8>, memory: Memory, strict: bool)
    requires s.rcvNxt == SeqOf(base, n) && s.outOfOrder != 0 && Exact(Bits(s), base, n, covered, strict)
    requires |data| <= WINDOW && Taken(Place(s, SeqOf(base, n), data, memory).verdict)
    ensures ExactAfter(Place(s, SeqOf(base, n), data, memory), base, n, covered + Offsets(n, |data|), strict)
  {
    var b := PlaceFills(s, data, memory);
    FillExact(s, b, base, n, covered, |data|, strict);
  }

  lemma PlaceStores(s: Session, base: int, n: nat, o: nat, data: seq<uint8>, memory: Memory)
    requires s.rcvNxt == SeqOf(base, n)
    requires n < o && o + |data| <= n + WINDOW && Taken(Place(s, SeqOf(base, o), data, memory).verdict)
    ensures var r := Place(s, SeqOf(base, o), data, memory);
            r.verdict == Buffered && Bits(r.session) == Bits(s) + Range(SeqOf(base, o), |data|)
  {
    SignedDiff(base, o, n);
  }

  lemma StorePlaced(s: Session, base: int, n: nat, covered: set<nat>, o: nat, data: seq<uint8>, memory: Memory, strict: bool)
    requires s.rcvNxt == SeqOf(base, n) && Exact(Bits(s), base, n, covered, strict)
    requires n < o && o + |data| <= n + WINDOW && Taken(Place(s, SeqOf(base, o), data, memory).verdict)
    ensures ExactAfter(Place(s, SeqOf(base, o), data, memory), base, n, covered + Offsets(o, |data|), strict)
  {
    PlaceStores(s, base, n, o, data, memory);
    StoreExact(Bits(s), base, n, o, |data|, strict);
  }

  /** An accepted segment from offset `o` on is not one that the fast path takes over filled positions. */
  ghost predicate PassesFree(s: Session, n: nat, o: nat, len: nat, strict: bool) {
    s.outOfOrder == 0 && o <= n < o + len ==> Free(Bits(s), s.rcvNxt, o + len - n, strict)
  }

  lemma PlaceExact(s: Session, base: int, n: nat, covered: set<nat>, o: nat, data: seq<uint8>, memory: Memory, strict: bool)
    requires s.rcvNxt == SeqOf(base, n) && Exact(Bits(s), base, n, covered, strict)
    requires n <= o && o + |data| <= n + WINDOW && 0 < |data| < WINDOW
    requires Taken(Place(s, SeqOf(base, o), data, memory).verdict)
    ensures ExactAfter(Place(s, SeqOf(base, o), data, memory), base, n, covered + Offsets(o, |data|), strict)
            <==> PassesFree(s, n, o, |data|, strict)
  {
    if o > n {
      StorePlaced(s, base, n, covered, o, data, memory, strict);
    } else if s.outOfOrder == 0 {
      FastPlaced(s, base, n, covered, data, memory, strict);
    } else {
      FillPlaced(s, base, n, covered, data, memory, strict);
    }
  }

  /** Bytes already handed over add nothing. */
  lemma TrimmedOffsets(bits: set<Position>, base: int, n: nat, covered: set<nat>, o: nat, len: nat, strict: bool)
    requires Exact(bits, base, n, covered, strict) && n < o + len
    ensures covered + Offsets(Max(o, n), o + len - Max(o, n)) == covered + Offsets(o, len)
  {
  }

  lemma TrimmedExact(s: Session, base: int, n: nat, covered: set<nat>, m: nat, rest: seq<uint8>, memory: Memory, after: set<nat>, strict: bool)
    requires s.rcvNxt == SeqOf(base, n) && Exact(Bits(s), base, n, covered, strict)
    requires n <= m && m + |rest| <= n + WINDOW && 0 < |rest| < WINDOW && after == covered + Offsets(m, |rest|)
    requires Taken(Place(s, SeqOf(base, m), rest, memory).verdict)
    ensures ExactAfter(Place(s, SeqOf(base, m), rest, memory), base, n, after, strict) <==> PassesFree(s, n, m, |rest|, strict)
  {
    PlaceExact(s, base, n, covered, m, rest, memory, strict);
  }

  lemma SamePass(s: Session, n: nat, o: nat, len: nat, strict: bool)
    requires n < o + len
    ensures PassesFree(s, n, Max(o, n), o + len - Max(o, n), strict) <==> PassesFree(s, n, o, len, strict)
  {
  }

  lemma RestExact(s: Session, base: int, n: nat, covered: set<nat>, o: nat, len: nat, m: nat, rest: seq<uint8>, memory: Memory, r: DataResult, strict: bool)
    requires s.rcvNxt == SeqOf(base, n) && Exact(Bits(s), base, n, covered, strict)
    requires n < o + len <= n + WINDOW && m == Max(o, n) && 0 < |rest| == o + len - m < WINDOW
    requires r == Place(s, SeqOf(base, m), rest, memory) && Taken(r.verdict)
    ensures ExactAfter(r, base, n, covered + Offsets(o, len), strict) <==> PassesFree(s, n, o, len, strict)
  {
    TrimmedOffsets(Bits(s), base, n, covered, o, len, strict);
    SamePass(s, n, o, len, strict);
    TrimmedExact(s, base, n, covered, m, rest, memory, covered + Offsets(o, len), strict);
  }

  lemma DataExact(s: Session, base: int, n: nat, covered: set<nat>, o: nat, data: Payload, memory: Memory, strict: bool)
    requires s.rcvNxt == SeqOf(base, n) && Exact(Bits(s), base, n, covered, strict)
    requires data != [] && Fresh(o, |data|, n) && Taken(ReceiveData(s, SeqOf(base, o), data, memory).verdict)
    ensures ExactAfter(ReceiveData(s, SeqOf(base, o), data, memory), base, n, covered + Offsets(o, |data|), strict)
            <==> PassesFree(s, n, o, |data|, strict)
  {
    DataCases(s, base, n, o, data, memory);
    var m := Max(o, n);
    RestExact(s, base, n, covered, o, |data|, m, data[m - o..], memory, ReceiveData(s, SeqOf(base, o), data, memory), strict);
  }

  ghost predicate Moves(s: Session, r: DataResult) {
    && r.session.state == s.state && r.session.rcvNxt == Plus(s.rcvNxt, |PayloadOf(r.verdict)|)
    && (!Taken(r.verdict) ==> Bits(r.session) == Bits(s) && PayloadOf(r.verdict) == [])
  }

  lemma DrainMoves(s: Session, b: Buffers)
    ensures Moves(s, Drain(s, b)) && Taken(Drain(s, b).verdict)
  {
  }

  lemma StaysPut(s: Session, t: Session, v: Verdict)
    requires t.state == s.state && t.rcvNxt == s.rcvNxt && !v.Delivered? && (Bits(t) == Bits(s) || Taken(v))
    ensures Moves(s, DataResult(t, v))
  {
  }

  lemma PlaceMoves(s: Session, start: uint32, data: seq<uint8>, memory: Memory)
    ensures Moves(s, Place(s, start, data, memory))
  {
    if !(start == s.rcvNxt && s.outOfOrder == 0) {
      var r, ready := Place(s, start, data, memory), Ready(s, memory);
      if ready.Some? && !Conflicts(ready.value, start, data) && !Gt(start, s.rcvNxt) {
        DrainMoves(s, Store(ready.value, start, data));
      } else {
        StaysPut(s, r.session, r.verdict);
      }
    }
  }

  /** The next expected byte moves by what is handed over; without being taken, a segment changes no bit. */
  lemma DataMoves(s: Session, seq_: uint32, data: Payload, memory: Memory)
    requires data != []
    ensures Moves(s, ReceiveData(s, seq_, data, memory))
  {
    if InWindow(seq_, |data|, s.rcvNxt) && !Lte(Plus(seq_, |data|), s.rcvNxt) {
      if Lt(seq_, s.rcvNxt) {
        TrimIsShorter(seq_, |data|, s.rcvNxt);
        PlaceMoves(s, s.rcvNxt, data[Diff(s.rcvNxt, seq_)..], memory);
      } else {
        PlaceMoves(s, seq_, data, memory);
      }
    }
  }

  /** The account is right, and so is the next expected sequence number. */
  ghost predicate Sound(t: Tracked, base: int, strict: bool) {
    Exact(Bits(t.session), base, t.n, t.covered, strict) && t.session.rcvNxt == Expected(t.session, base, t.n)
  }

  /** A step after which the account is right, if the session is still there. */
  ghost predicate Goes(r: StepResult, base: int, n: nat, covered: set<nat>, strict: bool) {
    r.next.Some? ==>
      && Exact(Bits(r.next.value), base, n + |r.report.payload|, covered, strict)
      && r.next.value.rcvNxt == Expected(r.next.value, base, n + |r.report.payload|)
  }

  lemma FinishExact(s: Session, fin: bool, report: Report, base: int, n: nat, covered: set<nat>, strict: bool)
    requires s.state == Established && s.rcvNxt == SeqOf(base, n + |report.payload|)
    requires Exact(Bits(s), base, n + |report.payload|, covered, strict)
    ensures Goes(Finish(s, fin, report), base, n, covered, strict)
  {
    PlusOf(base, n + |report.payload|, 1);
  }

  lemma RespondExact(d: DataResult, fin: bool, base: int, n: nat, covered: set<nat>, strict: bool)
    requires d.session.state == Established && d.session.rcvNxt == SeqOf(base, n + |PayloadOf(d.verdict)|)
    requires ExactAfter(d, base, n, covered, strict)
    ensures Goes(Respond(d, fin), base, n, covered, strict)
  {
    match d.verdict
    case Delivered(bytes) =>
      FinishExact(d.session, fin, NOTHING.(isReady := true, payload := bytes), base, n, covered, strict);
    case Buffered => FinishExact(d.session, fin, NOTHING, base, n, covered, strict);
    case Unstored => FinishExact(d.session, fin, NOTHING, base, n, covered, strict);
    case _ =>
  }

  /** Bytes that were handed over keep the session, so what is wrong stays visible. */
  lemma RespondWrong(d: DataResult, fin: bool, base: int, n: nat, covered: set<nat>, strict: bool)
    requires d.verdict.Delivered? && d.verdict.payload != [] && !ExactAfter(d, base, n, covered, strict)
    ensures !Goes(Respond(d, fin), base, n, covered, strict)
  {
  }

  lemma DataMovesTo(s: Session, p: Packet, base: int, n: nat, d: DataResult)
    requires s.state == Established && s.rcvNxt == SeqOf(base, n)
    requires p.payload != [] && d == ReceiveData(s, p.seq_, p.payload, p.memory)
    ensures d.session.state == Established && d.session.rcvNxt == SeqOf(base, n + |PayloadOf(d.verdict)|)
  {
    DataMoves(s, p.seq_, p.payload, p.memory);
    PlusOf(base, n, |PayloadOf(d.verdict)|);
  }

  /** The fast path hands over the segment, or what is left of it. */
  lemma FastDelivers(s: Session, base: int, n: nat, o: nat, data: Payload, memory: Memory)
    requires s.rcvNxt == SeqOf(base, n) && data != [] && Fresh(o, |data|, n)
    requires s.outOfOrder == 0 && o <= n < o + |data| && Taken(ReceiveData(s, SeqOf(base, o), data, memory).verdict)
    ensures var v := ReceiveData(s, SeqOf(base, o), data, memory).verdict; v.Delivered? && v.payload != []
  {
    DataCases(s, base, n, o, data, memory);
  }

  lemma TakenExact(s: Session, p: Packet, o: nat, base: int, n: nat, covered: set<nat>, d: DataResult, strict: bool)
    requires s.state == Established && s.rcvNxt == SeqOf(base, n) && Exact(Bits(s), base, n, covered, strict)
    requires p.payload != [] && p.seq_ == SeqOf(base, o) && Fresh(o, |p.payload|, n)
    requires d == ReceiveData(s, p.seq_, p.payload, p.memory) && Taken(d.verdict)
    ensures Goes(Respond(d, p.fin), base, n, covered + Offsets(o, |p.payload|), strict)
            <==> PassesFree(s, n, o, |p.payload|, strict)
  {
    DataExact(s, base, n, covered, o, p.payload, p.memory, strict);
    if PassesFree(s, n, o, |p.payload|, strict) {
      DataMovesTo(s, p, base, n, d);
      RespondExact(d, p.fin, base, n, covered + Offsets(o, |p.payload|), strict);
    } else {
      FastDelivers(s, base, n, o, p.payload, p.memory);
      RespondWrong(d, p.fin, base, n, covered + Offsets(o, |p.payload|), strict);
    }
  }

  lemma LeftExact(s: Session, p: Packet, base: int, n: nat, covered: set<nat>, d: DataResult, strict: bool)
    requires s.state == Established && s.rcvNxt == SeqOf(base, n) && Exact(Bits(s), base, n, covered, strict)
    requires p.payload != [] && d == ReceiveData(s, p.seq_, p.payload, p.memory) && !Taken(d.verdict)
    ensures Goes(Respond(d, p.fin), base, n, covered, strict)
  {
    DataMoves(s, p.seq_, p.payload, p.memory);
    PlusOf(base, n, 0);
    RespondExact(d, p.fin, base, n, covered, strict);
  }

  /** Segments carry the sequence numbers of their offsets and are not older than 2^32 bytes. */
  ghost function Honest(base: int): (Tracked, Sent, nat) -> bool {
    (t: Tracked, m: Sent, k: nat) =>
      (m.packet.payload != [] ==> m.packet.seq_ == SeqOf(base, m.offset)) && FreshSent(m, t.n)
  }

  /** If the packet is one that the fast path takes, it passes over no filled position (and, if `strict`, does not end at one). */
  ghost predicate Clean(t: Tracked, m: Sent, strict: bool) {
    Accepts(t.session, m.packet) ==> PassesFree(t.session, t.n, m.offset, |m.packet.payload|, strict)
  }

  lemma StepExact(t: Tracked, m: Sent, base: int, k: nat, strict: bool)
    requires Sound(t, base, strict) && Honest(base)(t, m, k)
    ensures Goes(SessionStep(t.session, m.packet), base, t.n, CoveredAfter(t, m), strict) <==> Clean(t, m, strict)
  {
    var s, p := t.session, m.packet;
    assert t.covered + {} == t.covered;
    if !p.rst && !p.syn && (s.state == Established || (s.state == SynSent && p.ack)) {
      var s := s.(state := Established);
      if p.payload == [] {
        FinishExact(s, p.fin, NOTHING, base, t.n, t.covered, strict);
      } else {
        var d := ReceiveData(s, p.seq_, p.payload, p.memory);
        if Taken(d.verdict) {
          TakenExact(s, p, m.offset, base, t.n, t.covered, d, strict);
        } else {
          LeftExact(s, p, base, t.n, t.covered, d, strict);
        }
      }
    }
  }

  ghost predicate Continues(r: Step<Tracked, uint8>, base: int, strict: bool) {
    r.next.Some? ==> Sound(r.next.value, base, strict)
  }

  lemma GoesContinues(r: StepResult, base: int, n: nat, covered: set<nat>, strict: bool)
    ensures Continues(Track(n, r, covered), base, strict) <==> Goes(r, base, n, covered, strict)
  {
  }

  /** One packet keeps the account right exactly when it is clean. */
  lemma StepSound(t: Tracked, m: Sent, base: int, k: nat, strict: bool)
    requires Sound(t, base, strict) && Honest(base)(t, m, k)
    ensures Continues(TrackStep(t, m), base, strict) <==> Clean(t, m, strict)
  {
    StepExact(t, m, base, k, strict);
    GoesContinues(SessionStep(t.session, m.packet), base, t.n, CoveredAfter(t, m), strict);
  }

  // ---------- Whole runs

  /** `n` counts what was handed over, and tracking changes nothing. */
  lemma {:induction false} TrackedRun(t: Tracked, ms: seq<Sent>)
    ensures var r, q := Run(TrackStep, t, ms), Run(SentStep, t.session, ms);
            && r.output == q.output && (r.last.Some? <==> q.last.Some?)
            && (r.last.Some? ==> r.last.value.session == q.last.value && r.last.value.n == t.n + |r.output|)
    decreases |ms|
  {
    if ms != [] && TrackStep(t, ms[0]).next.Some? {
      TrackedRun(TrackStep(t, ms[0]).next.value, ms[1..]);
    }
  }

  ghost function NewTracked(isn: uint32): Tracked {
    Tracked(NewSession(isn), 0, {})
  }

  lemma NewSound(isn: uint32, strict: bool)
    ensures Sound(NewTracked(isn), isn + 1, strict)
  {
  }

  ghost function SoundAt(base: int, strict: bool): Tracked -> bool {
    (t: Tracked) => Sound(t, base, strict)
  }

  ghost function CleanAt(strict: bool): (Tracked, Sent, nat) -> bool {
    (t: Tracked, m: Sent, k: nat) => Clean(t, m, strict)
  }

  ghost function SoundAfter(base: int, strict: bool): (Tracked, Sent, nat) -> bool {
    (t: Tracked, m: Sent, k: nat) => Continues(TrackStep(t, m), base, strict)
  }

  /**
    In every run of honest segments: the bytes handed over and the bitmap account for exactly
    the accepted bytes in every state (and, if `strict`, the next expected byte is missing in
    every state) exactly when every packet is clean.
   */
  lemma AccountExact(isn: uint32, ms: seq<Sent>, strict: bool)
    requires Always(TrackStep, Honest(isn + 1), NewTracked(isn), ms, 0)
    ensures Always(TrackStep, SoundAfter(isn + 1, strict), NewTracked(isn), ms, 0)
            <==> Always(TrackStep, CleanAt(strict), NewTracked(isn), ms, 0)
  {
    var fine, a, b, inv := Honest(isn + 1), SoundAfter(isn + 1, strict), CleanAt(strict), SoundAt(isn + 1, strict);
    forall t, m, k: nat | inv(t) && fine(t, m, k)
      ensures a(t, m, k) == b(t, m, k)
    {
      StepSound(t, m, isn + 1, k, strict);
    }
    NewSound(isn, strict);
    AlwaysSame(TrackStep, fine, a, b, inv, NewTracked(isn), ms, 0);
  }

  ghost function HonestAndClean(base: int, strict: bool): (Tracked, Sent, nat) -> bool {
    (t: Tracked, m: Sent, k: nat) => Honest(base)(t, m, k) && Clean(t, m, strict)
  }

  lemma RunSound(isn: uint32, ms: seq<Sent>, strict: bool)
    requires Always(TrackStep, HonestAndClean(isn + 1, strict), NewTracked(isn), ms, 0)
    ensures var r := Run(TrackStep, NewTracked(isn), ms); r.last.Some? ==> Sound(r.last.value, isn + 1, strict)
  {
    var fine, inv := HonestAndClean(isn + 1, strict), SoundAt(isn + 1, strict);
    forall t, m, k: nat | inv(t) && fine(t, m, k)
      ensures TrackStep(t, m).next.Some? ==> inv(TrackStep(t, m).next.value)
    {
      StepSound(t, m, isn + 1, k, strict);
    }
    NewSound(isn, strict);
    AlwaysStronger(TrackStep, fine, fine, inv, NewTracked(isn), ms, 0);
  }

  lemma ExactPrefix(bits: set<Position>, base: int, n: nat, covered: set<nat>)
    requires Exact(bits, base, n, covered, true)
    ensures n !in covered && forall o: nat | o < n :: o in covered
  {
  }

  /**
    In every such clean run the session has handed over exactly the longest prefix that its
    accepted segments cover: every byte below the next expected one was accepted, and that
    one was not.
   */
  lemma DeliversAll(isn: uint32, ms: seq<Sent>)
    requires Always(TrackStep, HonestAndClean(isn + 1, true), NewTracked(isn), ms, 0)
    ensures var r := Run(TrackStep, NewTracked(isn), ms);
            r.last.Some? ==>
              && r.output == Run(SentStep, NewSession(isn), ms).output
              && (forall o: nat | o < |r.output| :: o in r.last.value.covered)
              && |r.output| !in r.last.value.covered
  {
    RunSound(isn, ms, true);
    TrackedRun(NewTracked(isn), ms);
    var r := Run(TrackStep, NewTracked(isn), ms);
    if r.last.Some? {
      var t := r.last.value;
      ExactPrefix(Bits(t.session), isn + 1, t.n, t.covered);
    }
  }

  // ---------- Segments that do not overlap

  ghost function OffsetsOf(m: Sent): set<nat> {
    Offsets(m.offset, |m.packet.payload|)
  }

  /** A segment of bytes that were not accepted before passes over no filled position. */
  lemma NewBytesPass(t: Tracked, m: Sent, base: int)
    requires Sound(t, base, false) && OffsetsOf(m) !! t.covered
    ensures PassesNone(t.session, t.n, m.offset, |m.packet.payload|) && Clean(t, m, false)
  {
    var o, len := m.offset, |m.packet.payload|;
    if t.session.state != Closing && o <= t.n < o + len {
      FreeOffsets(Bits(t.session), base, t.n, o + len - t.n);
      forall x: nat | t.n <= x < o + len
        ensures !Filled(Bits(t.session), base, x)
      {
        assert x in OffsetsOf(m);
      }
    }
  }

  ghost predicate Tidy(t: Tracked, stream: seq<uint8>, base: int, n: nat) {
    t.n == n && Follows(t.session, stream, base, n, false) && Sound(t, base, false)
  }

  ghost function TidyAt(stream: seq<uint8>, base: int): (Tracked, nat) -> bool {
    (t: Tracked, n: nat) => Tidy(t, stream, base, n)
  }

  /** Segments of the stream, fresh and of bytes not accepted before. */
  ghost function NewBytes(stream: seq<uint8>, base: int): (Tracked, Sent, nat) -> bool {
    (t: Tracked, m: Sent, n: nat) => CutFrom(m, stream, base) && NoAlias(m, n, stream) && OffsetsOf(m) !! t.covered
  }

  lemma TidyAlong(r: StepResult, covered: set<nat>, stream: seq<uint8>, base: int, n: nat)
    requires TcpStream.Goes(r, stream, base, n, false) && Continues(Track(n, r, covered), base, false)
    ensures Along(Track(n, r, covered), stream, n, TidyAt(stream, base))
  {
  }

  lemma NewBytesStep(t: Tracked, m: Sent, stream: seq<uint8>, base: int, n: nat)
    requires Tidy(t, stream, base, n) && NewBytes(stream, base)(t, m, n)
    ensures Along(TrackStep(t, m), stream, n, TidyAt(stream, base))
  {
    NewBytesPass(t, m, base);
    assert FreshSent(m, n);
    StepFollows(t.session, m, stream, base, n, false);
    StepSound(t, m, base, n, false);
    TidyAlong(SessionStep(t.session, m.packet), CoveredAfter(t, m), stream, base, n);
  }

  /** No byte of the stream is in both segments. */
  ghost predicate Apart(a: Sent, b: Sent) {
    OffsetsOf(a) !! OffsetsOf(b)
  }

  lemma {:induction false} ApartRun(t: Tracked, ms: seq<Sent>, stream: seq<uint8>, base: int, n: nat)
    requires |stream| <= TWO32 - WINDOW
    requires forall i | 0 <= i < |ms| :: CutFrom(ms[i], stream, base) && OffsetsOf(ms[i]) !! t.covered
    requires forall i, j | 0 <= i < j < |ms| :: Apart(ms[i], ms[j])
    ensures Always(TrackStep, NewBytes(stream, base), t, ms, n)
    decreases |ms|
  {
    if ms != [] {
      var r := TrackStep(t, ms[0]);
      if r.next.Some? {
        forall i | 0 <= i < |ms[1..]|
          ensures CutFrom(ms[1..][i], stream, base) && OffsetsOf(ms[1..][i]) !! r.next.value.covered
        {
          assert ms[1..][i] == ms[i + 1] && Apart(ms[0], ms[i + 1]);
        }
        ApartRun(r.next.value, ms[1..], stream, base, n + |r.output|);
      }
    }
  }

  /**
    A stream of up to 2^32 - 65536 bytes, cut into segments that do not overlap, comes out as
    its prefix in whatever order they arrive: a wrong byte needs a byte that was sent twice.
   */
  lemma DisjointStream(isn: uint32, ms: seq<Sent>, stream: seq<uint8>)
    requires |stream| <= TWO32 - WINDOW
    requires forall i | 0 <= i < |ms| :: CutFrom(ms[i], stream, isn + 1)
    requires forall i, j | 0 <= i < j < |ms| :: Apart(ms[i], ms[j])
    ensures Run(SentStep, NewSession(isn), ms).output <= stream
  {
    var base := isn + 1;
    var fine, inv := NewBytes(stream, base), TidyAt(stream, base);
    forall t, m, n: nat | inv(t, n) && fine(t, m, n)
      ensures Along(TrackStep(t, m), stream, n, inv)
    {
      NewBytesStep(t, m, stream, base, n);
    }
    NewSound(isn, false);
    ApartRun(NewTracked(isn), ms, stream, base, 0);
    RunAlong(TrackStep, fine, inv, stream, NewTracked(isn), ms, 0);
    TrackedRun(NewTracked(isn), ms);
  }

  // ---------- A run that is not clean

  /** A plain data packet was accepted if it had any effect on the bitmap or the output. */
  lemma TrackAccepted(t: Tracked, m: Sent, next: Session, out: seq<uint8>)
    requires SentStep(t.session, m) == Step(Some(next), out) && (out != [] || Bits(next) != Bits(t.session))
    requires m.packet.payload != [] && m.packet.ack && !m.packet.rst && !m.packet.syn && !m.packet.fin
    requires t.session.state == SynSent || t.session.state == Established
    ensures TrackStep(t, m)
            == Step(Some(Tracked(next, t.n + |out|, t.covered + Offsets(m.offset, |m.packet.payload|))), out)
  {
    var p := m.packet;
    DataMoves(t.session.(state := Established), p.seq_, p.payload, p.memory);
  }

  lemma ThreeAccepted(stream: seq<uint8>) returns (t: Tracked, out: seq<uint8>)
    requires |stream| == 3 && stream[2] == 0
    ensures Run(TrackStep, NewTracked(ISN), [Piece(stream, 2, 1)] + [Piece(stream, 0, 1)] + [Piece(stream, 1, 1)]) == Result(Some(t), out)
    ensures |out| == 2 && t.covered == {} + Offsets(2, 1) + Offsets(0, 1) + Offsets(1, 1)
  {
    var m1, m2, m3 := Piece(stream, 2, 1), Piece(stream, 0, 1), Piece(stream, 1, 1);
    var s1 := BufferFirst(stream, 2);
    var s2, first := ShortFill(s1, stream);
    FastStep(s2, stream, 1, 2, 1);
    var t1 := Tracked(s1, 0, {} + Offsets(2, 1));
    var t2 := Tracked(s2, 1, t1.covered + Offsets(0, 1));
    t := Tracked(s2.(rcvNxt := 2), 2, t2.covered + Offsets(1, 1));
    TrackAccepted(NewTracked(ISN), m1, s1, []);
    TrackAccepted(t1, m2, s2, first);
    TrackAccepted(t2, m3, s2.(rcvNxt := 2), stream[1..2]);
    RunOne(TrackStep, NewTracked(ISN), m1);
    RunMore(TrackStep, NewTracked(ISN), [m1], t1, [], m2, t2, first);
    RunMore(TrackStep, NewTracked(ISN), [m1] + [m2], t2, [] + first, m3, t, stream[1..2]);
    out := [] + first + stream[1..2];
  }

  /** Otherwise a received byte can stay behind, even in a stream of three bytes. */
  lemma LeftBehind() returns (stream: seq<uint8>, ms: seq<Sent>)
    ensures |stream| == 3 && CutRun(ISN, stream, ms, 1)
    ensures var r := Run(TrackStep, NewTracked(ISN), ms);
            r.last.Some? && |r.output| == 2 && r.last.value.covered == {0, 1, 2}
  {
    stream := Marked(3, 2);
    ms := [Piece(stream, 2, 1)] + [Piece(stream, 0, 1)] + [Piece(stream, 1, 1)];
    PieceIsCut(stream, 2, 1);
    PieceIsCut(stream, 0, 1);
    PieceIsCut(stream, 1, 1);
    var t, out := ThreeAccepted(stream);
    assert t.covered == {0, 1, 2};
  }
}
