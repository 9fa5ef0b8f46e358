/**
  Where the stream property ends: sessions that hand over a wrong byte, or are closed,
  although every segment was cut from one stream.
 */
module TcpExact {
  import opened Common
  import opened CyclicBitmap
  import opened TcpSeq
  import opened TcpSession
  import opened TcpStream
  import opened TcpBuffered
  import opened Runs

  /** The sequence number before 0, so that offsets are sequence numbers. */
  const ISN: uint32 := 0xFFFF_FFFF

  /** Zeros, except for a one at offset 65536 + p. */
  ghost function Marked(len: nat, p: nat): (stream: seq<uint8>)
    ensures |stream| == len
    ensures forall i | 0 <= i < len :: stream[i] == if i == 65536 + p then 1 else 0
  {
    seq(len, i => if i == 65536 + p then 1 else 0)
  }

  ghost function Piece(stream: seq<uint8>, o: nat, len: nat): Sent
    requires o + len <= |stream| && o < TWO32 && len < TWO16
  {
    Sent(Packet(false, true, false, false, o, stream[o..o + len], Some(Zeros(WINDOW))), o)
  }

  lemma PieceIsCut(stream: seq<uint8>, o: nat, len: nat)
    requires o + len <= |stream| && o < TWO32 && len < TWO16
    ensures CutFrom(Piece(stream, o, len), stream, ISN + 1)
  {
  }

  /** All segments are cut from the stream and have at most `cap` bytes. */
  ghost predicate CutRun(isn: uint32, stream: seq<uint8>, ms: seq<Sent>, cap: nat) {
    forall i | 0 <= i < |ms| :: CutFrom(ms[i], stream, isn + 1) && |ms[i].packet.payload| <= cap
  }

  lemma CutConcat(isn: uint32, stream: seq<uint8>, a: seq<Sent>, b: seq<Sent>, cap: nat)
    requires CutRun(isn, stream, a, cap) && CutRun(isn, stream, b, cap)
    ensures CutRun(isn, stream, a + b, cap)
  {
  }

  /** The session waits for byte `n` with `count` segments out of order; position `p` is filled, with a zero. */
  ghost predicate Stuck(s: Session, n: nat, p: Position, count: nat) {
    && s.state == Established && s.rcvNxt == n && s.outOfOrder == count
    && s.buffers.Some? && s.buffers.value.bits == {p} && s.buffers.value.ring[p] == 0
  }

  // ---------- A filled position that the fast path passes over

  lemma Single(p: Position)
    ensures Range(p, 1) == {p}
  {
    SingleRange(p);
  }

  /** One byte ahead of the next expected one is buffered. */
  lemma BufferFirst(stream: seq<uint8>, p: Position) returns (s: Session)
    requires 0 < p < |stream| && stream[p] == 0
    ensures SentStep(NewSession(ISN), Piece(stream, p, 1)) == Step(Some(s), []) && Stuck(s, 0, p, 1)
  {
    Single(p);
    var b, data := Buffers({}, Zeros(WINDOW)), stream[p..p + 1];
    StoresAhead(Session(Established, 0, 0, None), p, data, Some(Zeros(WINDOW)), b);
    s := Session(Established, 0, 1, Some(Store(b, p, data)));
  }

  /** A repeated byte is counted again. */
  lemma BufferAgain(s: Session, stream: seq<uint8>, p: Position, count: nat) returns (t: Session)
    requires 0 < p < |stream| && stream[p] == 0 && Stuck(s, 0, p, count)
    ensures SentStep(s, Piece(stream, p, 1)) == Step(Some(t), []) && Stuck(t, 0, p, (count + 1) % TWO16)
  {
    Single(p);
    var b := s.buffers.value;
    assert RingRead(b.ring, p, 1) == stream[p..p + 1];
    StoresAhead(s, p, stream[p..p + 1], Some(Zeros(WINDOW)), b);
    t := s.(buffers := Some(Store(b, p, stream[p..p + 1])), outOfOrder := (s.outOfOrder + 1) % TWO16);
  }

  ghost function Repeat(m: Sent, n: nat): seq<Sent> {
    seq(n, _ => m)
  }

  lemma NextCount(k: nat)
    ensures (k % TWO16 + 1) % TWO16 == (k + 1) % TWO16
  {
  }

  /** With 65536 repetitions the counter is back at zero. */
  lemma Duplicates(stream: seq<uint8>, n: nat) returns (s: Session)
    requires |stream| > 1 && stream[1] == 0 && n > 0
    ensures Run(SentStep, NewSession(ISN), Repeat(Piece(stream, 1, 1), n)) == Result(Some(s), [])
    ensures Stuck(s, 0, 1, n % TWO16)
  {
    var inv := (s: Session, k: nat) => Stuck(s, 0, 1, k % TWO16);
    var first := BufferFirst(stream, 1);
    forall s, k: nat | inv(s, k)
      ensures Silent(SentStep(s, Piece(stream, 1, 1)), inv, k + 1)
    {
      NextCount(k);
      var t := BufferAgain(s, stream, 1, k % TWO16);
    }
    s := RunRepeat(SentStep, NewSession(ISN), Piece(stream, 1, 1), n, inv);
  }

  /** A segment that stops short of the buffered byte brings the counter back to zero too. */
  lemma ShortFill(s: Session, stream: seq<uint8>) returns (t: Session, out: seq<uint8>)
    requires |stream| > 2 && Stuck(s, 0, 2, 1)
    ensures SentStep(s, Piece(stream, 0, 1)) == Step(Some(t), out) && |out| == 1 && Stuck(t, 1, 2, 0)
  {
    Single(0);
    FillsGap(s, stream[0..1], Some(Zeros(WINDOW)), s.buffers.value);
    var b := Store(s.buffers.value, 0, stream[0..1]);
    assert IsRun(b.bits, 0, 1, WINDOW);
    RunIsLength(b.bits, 0, 1);
    var r := Drain(s, b);
    t, out := r.session, r.verdict.payload;
    assert Bits(t) == {2};
  }

  // ---------- To the end of the first window

  lemma FastStep(s: Session, stream: seq<uint8>, n: nat, p: Position, len: nat)
    requires Stuck(s, n, p, 0) && 0 < len < TWO16 && n + len <= 65536 && n + len <= |stream|
    ensures SentStep(s, Piece(stream, n, len)) == Step(Some(s.(rcvNxt := n + len)), stream[n..n + len])
  {
  }

  ghost function Least(a: nat, b: nat): nat {
    if a < b then a else b
  }

  /** The stream from `n` to `end` in segments of at most `cap` bytes. */
  ghost function InOrder(stream: seq<uint8>, n: nat, end: nat, cap: nat): seq<Sent>
    requires n <= end <= |stream| && end <= 65536 && 0 < cap < TWO16
    decreases end - n
  {
    if n == end then []
    else
      var len := Least(cap, end - n);
      [Piece(stream, n, len)] + InOrder(stream, n + len, end, cap)
  }

  lemma {:induction false} InOrderIsCut(stream: seq<uint8>, n: nat, end: nat, cap: nat)
    requires n <= end <= |stream| && end <= 65536 && 0 < cap < TWO16
    ensures CutRun(ISN, stream, InOrder(stream, n, end, cap), cap)
    decreases end - n
  {
    if n != end {
      var len := Least(cap, end - n);
      InOrderIsCut(stream, n + len, end, cap);
      PieceIsCut(stream, n, len);
      CutConcat(ISN, stream, [Piece(stream, n, len)], InOrder(stream, n + len, end, cap), cap);
    }
  }

  /** A step that hands over in-order segments as they are, and leaves the filled position alone. */
  ghost predicate HandsOver(step: (Session, Sent) -> Step<Session, uint8>, stream: seq<uint8>, p: Position) {
    forall s, n: nat, len: nat {:trigger step(s, Piece(stream, n, len))} |
      Stuck(s, n, p, 0) && 0 < len < TWO16 && n + len <= 65536 && n + len <= |stream| ::
      step(s, Piece(stream, n, len)) == Step(Some(s.(rcvNxt := n + len)), stream[n..n + len])
  }

  lemma SliceJoin(s: seq<uint8>, a: nat, b: nat, c: nat)
    requires a <= b <= c <= |s|
    ensures s[a..b] + s[b..c] == s[a..c]
  {
  }

  lemma {:induction false} HandedOver(step: (Session, Sent) -> Step<Session, uint8>, s: Session, stream: seq<uint8>, n: nat, end: nat,
                                      p: Position, cap: nat)
    requires HandsOver(step, stream, p) && Stuck(s, n, p, 0)
    requires n <= end <= |stream| && end <= 65536 && 0 < cap < TWO16
    ensures Run(step, s, InOrder(stream, n, end, cap)) == Result(Some(s.(rcvNxt := end)), stream[n..end])
    decreases end - n
  {
    if n != end {
      var len := Least(cap, end - n);
      var t, last := s.(rcvNxt := n + len), s.(rcvNxt := end);
      HandedOver(step, t, stream, n + len, end, p, cap);
      SliceJoin(stream, n, n + len, end);
      var first, rest := Piece(stream, n, len), InOrder(stream, n + len, end, cap);
      assert step(s, first) == Step(Some(t), stream[n..n + len]);
      RunBefore(step, s, first, t, stream[n..n + len], rest, last, stream[n + len..end]);
    }
  }

  /** The fast path leaves the filled position alone. */
  lemma InOrderRun(s: Session, stream: seq<uint8>, n: nat, end: nat, p: Position, cap: nat)
      returns (t: Session, out: seq<uint8>)
    requires Stuck(s, n, p, 0) && n <= end <= |stream| && end <= 65536 && 0 < cap < TWO16
    ensures Run(SentStep, s, InOrder(stream, n, end, cap)) == Result(Some(t), out)
    ensures |out| == end - n && Stuck(t, end, p, 0)
  {
    forall s, n: nat, len: nat | Stuck(s, n, p, 0) && 0 < len < TWO16 && n + len <= 65536 && n + len <= |stream|
      ensures SentStep(s, Piece(stream, n, len)) == Step(Some(s.(rcvNxt := n + len)), stream[n..n + len])
    {
      FastStep(s, stream, n, p, len);
    }
    HandedOver(SentStep, s, stream, n, end, p, cap);
    t, out := s.(rcvNxt := end), stream[n..end];
  }

  lemma NotPrefix(out: seq<uint8>, stream: seq<uint8>, k: nat)
    requires k < |out| && out[k] == 0 && (k < |stream| ==> stream[k] == 1)
    ensures !(out <= stream)
  {
  }

  // ---------- A wrong byte after the counter has wrapped

  /** The last byte of the window is buffered. */
  lemma LastByte(s: Session, stream: seq<uint8>, p: Position) returns (t: Session)
    requires Stuck(s, 65534, p, 0) && 0 < p < 65534 && |stream| > 65535
    ensures SentStep(s, Piece(stream, 65535, 1)) == Step(Some(t), [])
    ensures t.state == Established && t.rcvNxt == 65534 && t.outOfOrder == 1 && t.buffers.Some?
    ensures t.buffers.value.bits == {p, 65535}
    ensures t.buffers.value.ring[p] == 0 && t.buffers.value.ring[65535] == stream[65535]
  {
    Single(65535);
    StoresAhead(s, 65535, stream[65535..65536], Some(Zeros(WINDOW)), s.buffers.value);
    var b := Store(s.buffers.value, 65535, stream[65535..65536]);
    t := s.(buffers := Some(b), outOfOrder := 1);
  }

  /** The last byte comes again, and is counted again. */
  lemma LastByteAgain(s: Session, stream: seq<uint8>, p: Position) returns (t: Session)
    requires s.state == Established && s.rcvNxt == 65534 && s.outOfOrder == 1 && s.buffers.Some?
    requires 0 < p < 65534 && |stream| > 65535 && s.buffers.value.bits == {p, 65535}
    requires s.buffers.value.ring[p] == 0 && s.buffers.value.ring[65535] == stream[65535]
    ensures SentStep(s, Piece(stream, 65535, 1)) == Step(Some(t), [])
    ensures t.state == Established && t.rcvNxt == 65534 && t.outOfOrder == 2 && t.buffers.Some?
    ensures t.buffers.value.bits == {p, 65535} && t.buffers.value.ring[p] == 0
  {
    Single(65535);
    var b := s.buffers.value;
    assert RingRead(b.ring, 65535, 1) == stream[65535..65536];
    StoresAhead(s, 65535, stream[65535..65536], Some(Zeros(WINDOW)), b);
    t := s.(buffers := Some(Store(b, 65535, stream[65535..65536])), outOfOrder := 2);
  }

  /** The gap before it is filled: the first window is complete and the counter is 1. */
  lemma EndWindow(s: Session, stream: seq<uint8>, p: Position) returns (t: Session, out: seq<uint8>)
    requires s.state == Established && s.rcvNxt == 65534 && s.outOfOrder == 2 && s.buffers.Some?
    requires 0 < p < 65534 && |stream| > 65535
    requires s.buffers.value.bits == {p, 65535} && s.buffers.value.ring[p] == 0
    ensures SentStep(s, Piece(stream, 65534, 1)) == Step(Some(t), out) && |out| == 2 && Stuck(t, 65536, p, 1)
  {
    Single(65534);
    FillsGap(s, stream[65534..65535], Some(Zeros(WINDOW)), s.buffers.value);
    var b := Store(s.buffers.value, 65534, stream[65534..65535]);
    assert IsRun(b.bits, 65534, 2, WINDOW);
    RunIsLength(b.bits, 65534, 2);
    var r := Drain(s, b);
    t, out := r.session, r.verdict.payload;
    assert Bits(t) == {p};
  }

  /** The first byte of the second window arrives, and the stale byte is handed over behind it. */
  lemma StaleDrain(s: Session, stream: seq<uint8>) returns (t: Session, out: seq<uint8>)
    requires Stuck(s, 65536, 1, 1) && |stream| > 65536
    ensures SentStep(s, Piece(stream, 65536, 1)) == Step(Some(t), out) && |out| > 1 && out[1] == 0
  {
    Single(0);
    RangeWrap(65536, 1);
    FillsGap(s, stream[65536..65537], Some(Zeros(WINDOW)), s.buffers.value);
    var b := Store(s.buffers.value, 65536, stream[65536..65537]);
    var run := RunLength(b.bits, 65536, WINDOW);
    RunIsRun(b.bits, 65536, WINDOW);
    assert run > 1 by {
      assert (65536 + run) % 65536 !in b.bits || run == WINDOW;
    }
    var r := Drain(s, b);
    t, out := r.session, r.verdict.payload;
  }

  ghost function Ending(stream: seq<uint8>): seq<Sent>
    requires |stream| > 65536
  {
    [Piece(stream, 65535, 1)] + [Piece(stream, 65535, 1)] + [Piece(stream, 65534, 1)] + [Piece(stream, 65536, 1)]
  }

  lemma EndingIsCut(stream: seq<uint8>)
    requires |stream| > 65536
    ensures CutRun(ISN, stream, Ending(stream), 1)
  {
    PieceIsCut(stream, 65535, 1);
    PieceIsCut(stream, 65534, 1);
    PieceIsCut(stream, 65536, 1);
  }

  lemma EndingRun(s: Session, stream: seq<uint8>) returns (out: seq<uint8>)
    requires Stuck(s, 65534, 1, 0) && |stream| > 65536
    ensures Run(SentStep, s, Ending(stream)).output == out && |out| > 3 && out[3] == 0
  {
    var t1 := LastByte(s, stream, 1);
    var t2 := LastByteAgain(t1, stream, 1);
    var t3, two := EndWindow(t2, stream, 1);
    var t4, bad := StaleDrain(t3, stream);
    var m1, m3, m4 := Piece(stream, 65535, 1), Piece(stream, 65534, 1), Piece(stream, 65536, 1);
    RunOne(SentStep, s, m1);
    RunMore(SentStep, s, [m1], t1, [], m1, t2, []);
    RunMore(SentStep, s, [m1] + [m1], t2, [], m3, t3, two);
    RunMore(SentStep, s, [m1] + [m1] + [m3], t3, two, m4, t4, bad);
    out := two + bad;
  }

  ghost function Wrapping(stream: seq<uint8>): seq<Sent>
    requires |stream| > 65536
  {
    Repeat(Piece(stream, 1, 1), 65536) + InOrder(stream, 0, 65534, 1) + Ending(stream)
  }

  lemma WrappingIsCut(stream: seq<uint8>)
    requires |stream| > 65536
    ensures CutRun(ISN, stream, Wrapping(stream), 1)
  {
    PieceIsCut(stream, 1, 1);
    InOrderIsCut(stream, 0, 65534, 1);
    EndingIsCut(stream);
    var start := Repeat(Piece(stream, 1, 1), 65536);
    CutConcat(ISN, stream, start, InOrder(stream, 0, 65534, 1), 1);
    CutConcat(ISN, stream, start + InOrder(stream, 0, 65534, 1), Ending(stream), 1);
  }

  lemma WrappingRun(stream: seq<uint8>) returns (out: seq<uint8>)
    requires |stream| > 65536 && stream[1] == 0
    ensures Run(SentStep, NewSession(ISN), Wrapping(stream)).output == out && |out| > 65537 && out[65537] == 0
  {
    var start, middle := Repeat(Piece(stream, 1, 1), 65536), InOrder(stream, 0, 65534, 1);
    var s := Duplicates(stream, 65536);
    var t, most := InOrderRun(s, stream, 0, 65534, 1, 1);
    var last := EndingRun(t, stream);
    RunConcat(SentStep, NewSession(ISN), start, middle);
    RunConcat(SentStep, NewSession(ISN), start + middle, Ending(stream));
    out := [] + most + last;
    assert out[65537] == last[3];
  }

  /**
    For every longer stream length there is a run with a wrong byte, and one-byte segments are
    enough: 65536 repetitions of an early byte wrap the counter.
   */
  lemma WrappedCounter(len: nat) returns (stream: seq<uint8>, ms: seq<Sent>)
    requires len > WINDOW
    ensures |stream| == len && CutRun(ISN, stream, ms, 1)
    ensures !(Run(SentStep, NewSession(ISN), ms).output <= stream)
  {
    stream := Marked(len, 1);
    ms := Wrapping(stream);
    WrappingIsCut(stream);
    var out := WrappingRun(stream);
    NotPrefix(out, stream, 65537);
  }

  // ---------- A wrong byte without a segment sent twice

  /** A byte of the second window is buffered ahead. */
  lemma BufferBeyond(s: Session, stream: seq<uint8>) returns (t: Session)
    requires Stuck(s, 65536, 2, 0) && |stream| > 65537
    ensures SentStep(s, Piece(stream, 65537, 1)) == Step(Some(t), [])
    ensures t.state == Established && t.rcvNxt == 65536 && t.outOfOrder == 1 && t.buffers.Some?
    ensures t.buffers.value.bits == {1, 2} && t.buffers.value.ring[2] == 0
  {
    Single(1);
    RangeWrap(65537, 1);
    StoresAhead(s, 65537, stream[65537..65538], Some(Zeros(WINDOW)), s.buffers.value);
    var b := Store(s.buffers.value, 65537, stream[65537..65538]);
    t := s.(buffers := Some(b), outOfOrder := 1);
  }

  /** The gap before it is filled, and the stale byte is handed over behind it. */
  lemma FillBeyond(s: Session, stream: seq<uint8>) returns (t: Session, out: seq<uint8>)
    requires s.state == Established && s.rcvNxt == 65536 && s.outOfOrder == 1 && s.buffers.Some?
    requires s.buffers.value.bits == {1, 2} && s.buffers.value.ring[2] == 0 && |stream| > 65537
    ensures SentStep(s, Piece(stream, 65536, 1)) == Step(Some(t), out) && |out| > 2 && out[2] == 0
  {
    Single(0);
    RangeWrap(65536, 1);
    FillsGap(s, stream[65536..65537], Some(Zeros(WINDOW)), s.buffers.value);
    var b := Store(s.buffers.value, 65536, stream[65536..65537]);
    var run := RunLength(b.bits, 65536, WINDOW);
    RunIsRun(b.bits, 65536, WINDOW);
    assert run > 2 by {
      assert (65536 + run) % 65536 !in b.bits || run == WINDOW;
    }
    var r := Drain(s, b);
    t, out := r.session, r.verdict.payload;
  }

  ghost function Beginning(stream: seq<uint8>): seq<Sent>
    requires |stream| > 65537
  {
    [Piece(stream, 2, 1)] + [Piece(stream, 0, 1)]
  }

  ghost function Beyond(stream: seq<uint8>): seq<Sent>
    requires |stream| > 65537
  {
    [Piece(stream, 65537, 1)] + [Piece(stream, 65536, 1)]
  }

  ghost function Stale(stream: seq<uint8>, cap: nat): seq<Sent>
    requires |stream| > 65537 && 0 < cap < TWO16
  {
    Beginning(stream) + InOrder(stream, 1, 65536, cap) + Beyond(stream)
  }

  lemma StaleIsCut(stream: seq<uint8>, cap: nat)
    requires |stream| > 65537 && 0 < cap < TWO16
    ensures CutRun(ISN, stream, Stale(stream, cap), cap)
  {
    PieceIsCut(stream, 2, 1);
    PieceIsCut(stream, 0, 1);
    PieceIsCut(stream, 65537, 1);
    PieceIsCut(stream, 65536, 1);
    InOrderIsCut(stream, 1, 65536, cap);
    CutConcat(ISN, stream, Beginning(stream), InOrder(stream, 1, 65536, cap), cap);
    CutConcat(ISN, stream, Beginning(stream) + InOrder(stream, 1, 65536, cap), Beyond(stream), cap);
  }

  lemma BeginningRun(stream: seq<uint8>) returns (s: Session, out: seq<uint8>)
    requires |stream| > 65537 && stream[2] == 0
    ensures Run(SentStep, NewSession(ISN), Beginning(stream)) == Result(Some(s), out) && |out| == 1 && Stuck(s, 1, 2, 0)
  {
    var s1 := BufferFirst(stream, 2);
    s, out := ShortFill(s1, stream);
    RunOne(SentStep, NewSession(ISN), Piece(stream, 2, 1));
    RunMore(SentStep, NewSession(ISN), [Piece(stream, 2, 1)], s1, [], Piece(stream, 0, 1), s, out);
  }

  lemma BeyondRun(s: Session, stream: seq<uint8>) returns (out: seq<uint8>)
    requires Stuck(s, 65536, 2, 0) && |stream| > 65537
    ensures Run(SentStep, s, Beyond(stream)).output == out && |out| > 2 && out[2] == 0
  {
    var t := BufferBeyond(s, stream);
    var u, bad := FillBeyond(t, stream);
    RunOne(SentStep, s, Piece(stream, 65537, 1));
    RunMore(SentStep, s, [Piece(stream, 65537, 1)], t, [], Piece(stream, 65536, 1), u, bad);
    out := [] + bad;
  }

  lemma StaleRun(stream: seq<uint8>, cap: nat) returns (out: seq<uint8>)
    requires |stream| > 65537 && stream[2] == 0 && 0 < cap < TWO16
    ensures Run(SentStep, NewSession(ISN), Stale(stream, cap)).output == out && |out| > 65538 && out[65538] == 0
  {
    var s, first := BeginningRun(stream);
    var t, most := InOrderRun(s, stream, 1, 65536, 2, cap);
    var last := BeyondRun(t, stream);
    RunConcat(SentStep, NewSession(ISN), Beginning(stream), InOrder(stream, 1, 65536, cap));
    RunConcat(SentStep, NewSession(ISN), Beginning(stream) + InOrder(stream, 1, 65536, cap), Beyond(stream));
    out := first + most + last;
    assert out[65538] == last[2];
  }

  /** The offsets of the in-order segments go up from `n`, by at least two bytes after the first. */
  lemma {:induction false} InOrderOffsets(stream: seq<uint8>, n: nat, end: nat, cap: nat)
    requires n <= end <= |stream| && end <= 65536 && 1 < cap < TWO16
    ensures var ms := InOrder(stream, n, end, cap);
            && 2 * |ms| <= end - n + 1
            && (forall i | 0 <= i < |ms| :: n <= ms[i].offset < end && (i > 0 ==> n + 2 <= ms[i].offset))
            && (forall i, j | 0 <= i < j < |ms| :: ms[i].offset < ms[j].offset)
    decreases end - n
  {
    if n != end {
      var len := Least(cap, end - n);
      InOrderOffsets(stream, n + len, end, cap);
    }
  }

  /** No two segments start at the same offset. */
  ghost predicate AllDifferent(ms: seq<Sent>) {
    forall i, j | 0 <= i < j < |ms| :: ms[i].offset != ms[j].offset
  }

  lemma StaleDiffer(stream: seq<uint8>, cap: nat)
    requires |stream| > 65537 && 1 < cap < TWO16
    ensures AllDifferent(Stale(stream, cap)) && |Stale(stream, cap)| < TWO16
  {
    InOrderOffsets(stream, 1, 65536, cap);
  }

  /**
    From 65538 bytes on no segment needs to be sent twice and the counter, which counts at most
    one for each segment, does not wrap: a segment that stops short of a buffered byte brings it
    to zero, and the byte is handed over again in the next window.
   */
  lemma StaleBytes(len: nat, cap: nat) returns (stream: seq<uint8>, ms: seq<Sent>)
    requires len > WINDOW + 1 && 1 < cap < TWO16
    ensures |stream| == len && CutRun(ISN, stream, ms, cap) && AllDifferent(ms) && |ms| < TWO16
    ensures !(Run(SentStep, NewSession(ISN), ms).output <= stream)
  {
    stream := Marked(len, 2);
    ms := Stale(stream, cap);
    StaleIsCut(stream, cap);
    StaleDiffer(stream, cap);
    var out := StaleRun(stream, cap);
    NotPrefix(out, stream, 65538);
  }

  ghost predicate Right(isn: uint32, stream: seq<uint8>, ms: seq<Sent>) {
    Run(SentStep, NewSession(isn), ms).output <= stream
  }

  /**
    Every run over every stream of a given length hands over a prefix of the stream exactly
    when the stream fits in one window, whatever the greatest segment size.
   */
  lemma StreamExact(len: nat, cap: nat)
    requires cap > 0
    ensures (forall isn: uint32, stream: seq<uint8>, ms: seq<Sent> |
               |stream| == len && CutRun(isn, stream, ms, cap) :: Right(isn, stream, ms))
            <==> len <= WINDOW
  {
    if len <= WINDOW {
      forall isn: uint32, stream: seq<uint8>, ms: seq<Sent> | |stream| == len && CutRun(isn, stream, ms, cap)
        ensures Right(isn, stream, ms)
      {
        ShortStream(isn, ms, stream);
      }
    } else {
      var stream, ms := WrappedCounter(len);
      assert CutRun(ISN, stream, ms, cap) && !Right(ISN, stream, ms);
    }
  }

  // ---------- Closed without a contradiction

  /** Two segments of one stream, without FIN or RST, that close the session: a left-over byte was compared. */
  lemma HonestSessionCloses() returns (stream: seq<uint8>, ms: seq<Sent>)
    ensures CutRun(ISN, stream, ms, 7)
    ensures forall i | 0 <= i < |ms| :: !ms[i].packet.fin && !ms[i].packet.rst
    ensures Run(SentStep, NewSession(ISN), ms) == Result(None, [])
  {
    stream := seq(12, _ => 7);
    var m1, m2 := Piece(stream, 10, 2), Piece(stream, 5, 7);
    PieceIsCut(stream, 10, 2);
    PieceIsCut(stream, 5, 7);
    ms := [m1] + [m2];
    StoresAhead(Session(Established, 0, 0, None), 10, stream[10..12], Some(Zeros(WINDOW)), Buffers({}, Zeros(WINDOW)));
    var b := Store(Buffers({}, Zeros(WINDOW)), 10, stream[10..12]);
    var s := Session(Established, 0, 1, Some(b));
    assert Gt(5, 0);
    assert SentStep(NewSession(ISN), m1) == Step(Some(s), []);
    assert 10 in b.bits && 10 in Range(5, 7);
    assert RingRead(b.ring, 5, 7)[0] == 0 && stream[5..12][..7][0] == 7;
    assert SentStep(s, m2) == Step(None, []);
    RunOne(SentStep, NewSession(ISN), m1);
    RunOne(SentStep, s, m2);
    RunConcat(SentStep, NewSession(ISN), [m1], [m2]);
  }
}
