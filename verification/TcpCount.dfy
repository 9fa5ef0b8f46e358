/**
  The counter of out-of-order segments. It grows by one with every buffered segment and
  shrinks by one with every drain, however much the drain takes out. It bounds the number of
  buffered runs as long as every segment that fills the gap reaches the next buffered run.
 */
module TcpCount {
  import opened Common
  import opened CyclicBitmap
  import opened TcpSeq
  import opened TcpSession
  import opened TcpStream
  import opened Runs

  ghost function Before(p: Position): Position {
    (p + 65535) % 65536
  }

  /** A maximal run of filled positions starts at `p`. */
  ghost predicate IsStart(bits: set<Position>, p: Position) {
    p in bits && Before(p) !in bits
  }

  /** Number of maximal runs that start below `k`. */
  ghost function RunsBelow(bits: set<Position>, k: nat): nat
    requires k <= WINDOW
  {
    if k == 0 then 0 else RunsBelow(bits, k - 1) + if IsStart(bits, k - 1) then 1 else 0
  }

  /** Number of maximal runs of filled positions. */
  ghost function RunCount(bits: set<Position>): nat {
    RunsBelow(bits, WINDOW)
  }

  /** The next expected byte is missing and the count is at least the number of buffered runs. */
  ghost predicate Counted(s: Session) {
    s.state != Closing ==> s.rcvNxt % 65536 !in Bits(s) && RunCount(Bits(s)) <= s.outOfOrder
  }

  // ---------- Comparing numbers of runs

  lemma {:induction false} NoMoreRuns(a: set<Position>, b: set<Position>, k: nat)
    requires k <= WINDOW && forall p: Position | p < k :: IsStart(a, p) ==> IsStart(b, p)
    ensures RunsBelow(a, k) <= RunsBelow(b, k)
  {
    if k != 0 {
      NoMoreRuns(a, b, k - 1);
    }
  }

  lemma {:induction false} FewerRuns(a: set<Position>, b: set<Position>, k: nat, lost: Position)
    requires k <= WINDOW && forall p: Position | p < k :: IsStart(a, p) ==> IsStart(b, p)
    requires lost < k && IsStart(b, lost) && !IsStart(a, lost)
    ensures RunsBelow(a, k) < RunsBelow(b, k)
  {
    if lost == k - 1 {
      NoMoreRuns(a, b, k - 1);
    } else {
      FewerRuns(a, b, k - 1, lost);
    }
  }

  lemma {:induction false} OneMoreRun(a: set<Position>, b: set<Position>, k: nat, gained: Position)
    requires k <= WINDOW && forall p: Position | p < k && p != gained :: IsStart(a, p) ==> IsStart(b, p)
    ensures RunsBelow(a, k) <= RunsBelow(b, k) + 1
  {
    if k == 0 {
    } else if gained == k - 1 {
      NoMoreRuns(a, b, k - 1);
    } else {
      OneMoreRun(a, b, k - 1, gained);
    }
  }

  lemma {:induction false} StartIsCounted(bits: set<Position>, k: nat, p: Position)
    requires p < k <= WINDOW && IsStart(bits, p)
    ensures RunsBelow(bits, k) > 0
  {
    if p != k - 1 {
      StartIsCounted(bits, k - 1, p);
    }
  }

  /** Going back from a filled position to an empty one passes the start of a run. */
  lemma {:induction false} StartBehind(bits: set<Position>, p: Position, back: nat) returns (q: Position)
    requires p in bits && (p - back) % 65536 !in bits
    ensures IsStart(bits, q)
    decreases back
  {
    if Before(p) in bits {
      assert back != 0;
      assert (Before(p) - (back - 1)) % 65536 == (p - back) % 65536;
      q := StartBehind(bits, Before(p), back - 1);
    } else {
      q := p;
    }
  }

  /** A count of zero means an empty buffer. */
  lemma CountedIsHonest(s: Session)
    requires Counted(s)
    ensures CountIsHonest(s)
  {
    var bits := Bits(s);
    if s.state != Closing && bits != {} {
      var p :| p in bits;
      var back := (p - s.rcvNxt) % 65536;
      assert (p - back) % 65536 == s.rcvNxt % 65536;
      var q := StartBehind(bits, p, back);
      StartIsCounted(bits, WINDOW, q);
    }
  }

  // ---------- Storing a range

  /** The position before a member of a range is a member too, except for the first. */
  lemma Predecessor(start: nat, len: nat, p: Position)
    requires p in Range(start, len)
    ensures p == start % 65536 || Before(p) in Range(start, len)
  {
    assert Ahead(start, Before(p)) == (Ahead(start, p) - 1) % 65536;
  }

  /** The only position after a range that is not in it is the one that follows its last member. */
  lemma Successor(start: nat, len: nat, p: Position)
    requires p !in Range(start, len) && Before(p) in Range(start, len)
    ensures p == (start + len) % 65536
  {
  }

  /** Storing a range starts at most one run that was not there. */
  lemma StoredRuns(bits: set<Position>, start: nat, len: nat)
    ensures RunCount(bits + Range(start, len)) <= RunCount(bits) + 1
  {
    var filled := bits + Range(start, len);
    forall p: Position | p != start % 65536 && IsStart(filled, p)
      ensures IsStart(bits, p)
    {
      if p in Range(start, len) {
        Predecessor(start, len, p);
      }
    }
    OneMoreRun(filled, bits, WINDOW, start % 65536);
  }

  // ---------- Draining

  lemma RunAtLeast(bits: set<Position>, start: nat, len: nat, run: nat)
    requires len < WINDOW && IsRun(bits + Range(start, len), start, run, WINDOW)
    ensures len <= run
  {
    if run < len {
      RangeAt(start, run, len);
    }
  }

  /** A drain leaves only run starts that were there before the gap was filled. */
  lemma LeftStart(bits: set<Position>, start: nat, len: nat, run: nat, p: Position)
    requires len <= run && IsRun(bits + Range(start, len), start, run, WINDOW)
    requires IsStart(bits + Range(start, len) - Range(start, run), p)
    ensures IsStart(bits, p)
  {
    assert p !in Range(start, len);
    if Before(p) in bits {
      Successor(start, run, p);
    }
  }

  ghost function At(start: nat, d: nat): Position {
    (start + d) % 65536
  }

  /** A segment of `len` bytes from `start` touches a filled position or ends right before one. */
  ghost predicate Reaches(bits: set<Position>, start: nat, len: nat) {
    exists d :: 0 <= d <= len && At(start, d) in bits
  }

  lemma {:induction false} FirstReached(bits: set<Position>, start: nat, d: nat) returns (e: nat)
    requires At(start, 0) !in bits && At(start, d) in bits
    ensures 0 < e <= d && IsStart(bits, At(start, e))
  {
    assert d != 0 ==> Before(At(start, d)) == At(start, d - 1);
    if At(start, d - 1) !in bits {
      e := d;
    } else {
      e := FirstReached(bits, start, d - 1);
    }
  }

  /** A drain that reaches a buffered run takes out its start. */
  lemma TakenStart(bits: set<Position>, start: nat, len: nat, run: nat) returns (p: Position)
    requires start % 65536 !in bits && len < WINDOW && Reaches(bits, start, len)
    requires IsRun(bits + Range(start, len), start, run, WINDOW)
    ensures IsStart(bits, p) && p in Range(start, run)
  {
    var d :| 0 <= d <= len && At(start, d) in bits;
    var e := FirstReached(bits, start, d);
    p := At(start, e);
    RunAtLeast(bits, start, len, run);
    assert e != run;
    RangeAt(start, e, run);
  }

  /** Filling the gap up to the next buffered run takes at least one run out. */
  lemma DrainedRuns(bits: set<Position>, start: nat, len: nat, run: nat)
    requires start % 65536 !in bits && len < WINDOW
    requires bits != {} ==> Reaches(bits, start, len)
    requires IsRun(bits + Range(start, len), start, run, WINDOW)
    ensures var n := RunCount(bits + Range(start, len) - Range(start, run));
            n == 0 || n < RunCount(bits)
  {
    RunAtLeast(bits, start, len, run);
    var left := bits + Range(start, len) - Range(start, run);
    forall p: Position | IsStart(left, p)
      ensures IsStart(bits, p)
    {
      LeftStart(bits, start, len, run, p);
    }
    if bits == {} {
      NoMoreRuns(left, bits, WINDOW);
      NoRuns(WINDOW);
    } else {
      var p := TakenStart(bits, start, len, run);
      FewerRuns(left, bits, WINDOW, p);
    }
  }

  lemma {:induction false} NoRuns(k: nat)
    requires k <= WINDOW
    ensures RunsBelow({}, k) == 0
  {
    if k != 0 {
      NoRuns(k - 1);
    }
  }

  /** After a drain the next expected position is empty. */
  lemma DrainedNext(filled: set<Position>, start: nat, run: nat)
    requires IsRun(filled, start, run, WINDOW)
    ensures (start + run) % 65536 !in filled - Range(start, run)
  {
    if run == WINDOW {
      assert (start + run) % 65536 in Range(start, run);
    }
  }

  // ---------- Steps and runs

  /** A segment that fills the gap reaches the next buffered run, if there is one. */
  ghost predicate GapReaches(s: Session, seq_: uint32, data: seq<uint8>) {
    seq_ == s.rcvNxt && Bits(s) != {} ==> Reaches(Bits(s), s.rcvNxt, |data|)
  }

  lemma PlusPosition(a: uint32, n: nat)
    ensures Plus(a, n) % 65536 == (a + n) % 65536
  {
    var q := (a + n) / TWO32;
    assert Plus(a, n) == a + n - 65536 * (65536 * q);
    LessWindows(a + n, 65536 * q);
  }

  lemma LessWindows(x: int, k: int)
    ensures (x - 65536 * k) % 65536 == x % 65536
  {
  }

  lemma CountedAfter(s: Session, len: nat, run: nat, r: Session)
    requires s.state == Established && Counted(s) && s.outOfOrder > 0 && len < WINDOW
    requires Bits(s) != {} ==> Reaches(Bits(s), s.rcvNxt, len)
    requires IsRun(Bits(s) + Range(s.rcvNxt, len), s.rcvNxt, run, WINDOW)
    requires r.rcvNxt == Plus(s.rcvNxt, run) && r.outOfOrder == s.outOfOrder - 1
    requires Bits(r) == Bits(s) + Range(s.rcvNxt, len) - Range(s.rcvNxt, run)
    ensures Counted(r)
  {
    DrainedRuns(Bits(s), s.rcvNxt, len, run);
    DrainedNext(Bits(s) + Range(s.rcvNxt, len), s.rcvNxt, run);
    PlusPosition(s.rcvNxt, run);
  }

  lemma DrainCounted(s: Session, b: Buffers, data: seq<uint8>)
    requires s.state == Established && Counted(s) && s.outOfOrder > 0 && 0 < |data| < WINDOW
    requires GapReaches(s, s.rcvNxt, data)
    requires b.bits == Bits(s) + Range(s.rcvNxt, |data|)
    ensures Counted(Drain(s, b).session)
  {
    var run := RunLength(b.bits, s.rcvNxt, WINDOW);
    RunIsRun(b.bits, s.rcvNxt, WINDOW);
    RunAtLeast(Bits(s), s.rcvNxt, |data|, run);
    CountedAfter(s, |data|, run, Drain(s, b).session);
  }

  lemma FastCounted(s: Session, len: nat)
    requires s.state == Established && Counted(s) && s.outOfOrder == 0
    ensures Counted(s.(rcvNxt := Plus(s.rcvNxt, len)))
  {
    CountedIsHonest(s);
    NoRuns(WINDOW);
  }

  /** A segment that starts ahead of `next` and ends inside its window does not cover `next`. */
  lemma NextOutside(start: uint32, next: uint32, len: nat)
    requires 0 < Diff(start, next) <= WINDOW - len
    ensures next % 65536 !in Range(start, len)
  {
    assert Ahead(start, next % 65536) == (65536 - Diff(start, next)) % 65536;
  }

  lemma StoredCounted(s: Session, start: uint32, len: nat, b: Buffers)
    requires s.state == Established && Counted(s) && s.outOfOrder < 65535
    requires 0 < len && 0 < Diff(start, s.rcvNxt) <= WINDOW - len
    requires b.bits == Bits(s) + Range(start, len)
    ensures Counted(s.(buffers := Some(b), outOfOrder := (s.outOfOrder + 1) % TWO16))
  {
    StoredRuns(Bits(s), start, len);
    NextOutside(start, s.rcvNxt, len);
  }

  lemma PlaceCounted(s: Session, start: uint32, data: seq<uint8>, memory: Memory)
    requires s.state == Established && Counted(s) && s.outOfOrder < 65535
    requires 0 < |data| < WINDOW && Diff(start, s.rcvNxt) + |data| <= WINDOW
    requires start == s.rcvNxt || Gt(start, s.rcvNxt)
    requires GapReaches(s, start, data)
    ensures Counted(Place(s, start, data, memory).session)
  {
    if start == s.rcvNxt && s.outOfOrder == 0 {
      FastCounted(s, |data|);
    } else {
      var ready := Ready(s, memory);
      if ready.Some? && !Conflicts(ready.value, start, data) {
        var b := Store(ready.value, start, data);
        if Gt(start, s.rcvNxt) {
          StoredCounted(s, start, |data|, b);
        } else {
          DrainCounted(s, b, data);
        }
      }
    }
  }

  /** A packet whose payload covers the next expected byte reaches the next buffered run, if there is one. */
  ghost predicate PacketReaches(s: Session, p: Packet) {
    && p.payload != []
    && Bits(s) != {}
    && InWindow(p.seq_, |p.payload|, s.rcvNxt)
    && Lte(p.seq_, s.rcvNxt)
    ==> Reaches(Bits(s), s.rcvNxt, Diff(Plus(p.seq_, |p.payload|), s.rcvNxt))
  }

  lemma PacketFillsGap(s: Session, p: Packet, start: uint32, rest: seq<uint8>)
    requires p.payload != [] && PacketReaches(s, p) && InWindow(p.seq_, |p.payload|, s.rcvNxt)
    requires start == s.rcvNxt ==> Lte(p.seq_, s.rcvNxt)
    requires Diff(start, s.rcvNxt) + |rest| == Diff(Plus(p.seq_, |p.payload|), s.rcvNxt)
    ensures GapReaches(s, start, rest)
  {
    assert Diff(s.rcvNxt, s.rcvNxt) == 0;
  }

  lemma DataCounted(s: Session, p: Packet)
    requires s.state == Established && Counted(s) && s.outOfOrder < 65535
    requires p.payload != [] && PacketReaches(s, p)
    ensures Counted(ReceiveData(s, p.seq_, p.payload, p.memory).session)
  {
    var start, cut := DataPlaced(s, p.seq_, p.payload, p.memory);
    if cut < |p.payload| {
      PacketFillsGap(s, p, start, p.payload[cut..]);
      PlaceCounted(s, start, p.payload[cut..], p.memory);
    }
  }

  lemma RespondCounted(d: DataResult, fin: bool)
    requires Counted(d.session)
    ensures var r := Respond(d, fin); r.next.Some? ==> Counted(r.next.value)
  {
  }

  /** A packet that keeps the two side conditions keeps the count. */
  lemma StepCounted(s: Session, p: Packet)
    requires Counted(s) && s.outOfOrder < 65535 && PacketReaches(s, p)
    ensures var r := SessionStep(s, p); r.next.Some? ==> Counted(r.next.value)
  {
    if !p.rst && !p.syn && (s.state == Established || (s.state == SynSent && p.ack)) && p.payload != [] {
      var s := s.(state := Established);
      DataCounted(s, p);
      RespondCounted(ReceiveData(s, p.seq_, p.payload, p.memory), p.fin);
    }
  }

  /** Side conditions of a run: the 16-bit count has room, and gaps are filled up to the next buffered run. */
  ghost function Reaching(): (Session, Sent, nat) -> bool {
    (s: Session, m: Sent, n: nat) => s.outOfOrder < 65535 && PacketReaches(s, m.packet)
  }

  ghost function Counting(): (Session, Sent, nat) -> bool {
    (s: Session, m: Sent, n: nat) => Counted(s) && CountIsHonest(s)
  }

  /** In every such run, whatever the packets say, the count bounds the buffered runs in every state. */
  lemma CountRun(isn: uint32, ms: seq<Sent>)
    requires Always(SentStep, Reaching(), NewSession(isn), ms, 0)
    ensures Always(SentStep, Counting(), NewSession(isn), ms, 0)
    ensures var r := Run(SentStep, NewSession(isn), ms); r.last.Some? ==> Counted(r.last.value)
  {
    forall s, m, n: nat | Counted(s) && Reaching()(s, m, n)
      ensures Counting()(s, m, n)
      ensures SentStep(s, m).next.Some? ==> Counted(SentStep(s, m).next.value)
    {
      CountedIsHonest(s);
      StepCounted(s, m.packet);
    }
    NoRuns(WINDOW);
    AlwaysStronger(SentStep, Reaching(), Counting(), Counted, NewSession(isn), ms, 0);
  }

  ghost function ReachingFrom(stream: seq<uint8>, base: int): (Session, Sent, nat) -> bool {
    (s: Session, m: Sent, n: nat) => CutFrom(m, stream, base) && NoAlias(m, n, stream) &&
                                     s.outOfOrder < 65535 && PacketReaches(s, m.packet)
  }

  /** So streams of any length come out right in every run that fills its gaps that way. */
  lemma ReachingStream(isn: uint32, ms: seq<Sent>, stream: seq<uint8>)
    requires Always(SentStep, ReachingFrom(stream, isn + 1), NewSession(isn), ms, 0)
    ensures var r := Run(SentStep, NewSession(isn), ms);
            && r.output <= stream
            && (r.last.Some? ==> r.last.value.rcvNxt == Expected(r.last.value, isn + 1, |r.output|))
  {
    var fine, finer := ReachingFrom(stream, isn + 1), Fine(stream, isn + 1, false);
    forall s, m, n: nat | Counted(s) && fine(s, m, n)
      ensures finer(s, m, n)
      ensures SentStep(s, m).next.Some? ==> Counted(SentStep(s, m).next.value)
    {
      CountedIsHonest(s);
      StepCounted(s, m.packet);
    }
    NoRuns(WINDOW);
    AlwaysStronger(SentStep, fine, finer, Counted, NewSession(isn), ms, 0);
    LongStream(isn, ms, stream);
  }

  // ---------- The side condition is needed

  lemma NotReached(bits: set<Position>, start: nat, len: nat)
    requires len < WINDOW && !Reaches(bits, start, len)
    ensures bits !! Range(start, len)
    ensures IsRun(bits + Range(start, len), start, len, WINDOW)
  {
    forall p | p in Range(start, len)
      ensures p !in bits
    {
      assert p == At(start, Ahead(start, p));
    }
    RangeAt(start, len, len);
    assert At(start, len) !in bits;
  }

  lemma UnreachedDrain(s: Session, b: Buffers, len: nat)
    requires s.outOfOrder > 0 && 0 < len < WINDOW && !Reaches(Bits(s), s.rcvNxt, len)
    requires b.bits == Bits(s) + Range(s.rcvNxt, len)
    ensures Bits(Drain(s, b).session) == Bits(s) && Drain(s, b).session.outOfOrder == s.outOfOrder - 1
  {
    NotReached(Bits(s), s.rcvNxt, len);
    RunIsRun(b.bits, s.rcvNxt, WINDOW);
    RunUnique(b.bits, s.rcvNxt, RunLength(b.bits, s.rcvNxt, WINDOW), len, WINDOW);
    assert Bits(s) + Range(s.rcvNxt, len) - Range(s.rcvNxt, len) == Bits(s);
  }

  /**
    When the count is tight, a segment that fills the gap keeps it right exactly when the
    segment reaches the next buffered run.
   */
  lemma ReachIsNeeded(s: Session, b: Buffers, data: seq<uint8>)
    requires s.state == Established && Counted(s) && Bits(s) != {} && s.outOfOrder == RunCount(Bits(s))
    requires 0 < |data| < WINDOW && b.bits == Bits(s) + Range(s.rcvNxt, |data|)
    ensures Counted(Drain(s, b).session) <==> Reaches(Bits(s), s.rcvNxt, |data|)
  {
    CountedIsHonest(s);
    if Reaches(Bits(s), s.rcvNxt, |data|) {
      DrainCounted(s, b, data);
    } else {
      UnreachedDrain(s, b, |data|);
    }
  }
}
