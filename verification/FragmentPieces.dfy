/**
  Which fragments a reassembly session takes, what a taken fragment changes byte by byte,
  and the datagram that comes out when a sender cuts it into pieces of one size.
 */
module FragmentPieces {
  import opened Common
  import opened Fragments

  // ---------- Which fragments are taken

  /** A datagram that the fragment is cut from: zeros in front, and one byte more behind it unless it is the last. */
  lemma SomeDatagram(f: Fragment) returns (d: seq<uint8>)
    requires |f.payload| != 0 && f.offset % 8 == 0 && (f.more ==> |f.payload| % 8 == 0)
    requires (f.offset == 0 ==> |f.payload| >= 8) && f.offset + |f.payload| <= 65535
    ensures 8 <= |d| <= 65535 && CutFrom(f, d)
  {
    var zeros: seq<uint8> := seq(f.offset, _ => 0);
    d := zeros + f.payload + if f.more then [0] else [];
    assert d[f.offset..f.offset + |f.payload|] == f.payload;
  }

  /** A fragment is refused exactly for its offset, its length, its flag or the number of fragments before it. */
  lemma RefusedExactly(a: Assembly, f: Fragment)
    ensures AddFragment(a, f).None? <==>
              || |f.payload| == 0 || f.offset % 8 != 0 || (f.more && |f.payload| % 8 != 0)
              || (f.offset == 0 && |f.payload| < 8) || f.offset + |f.payload| > 65535 || a.count >= 64
  {
  }

  lemma CutIsTaken(a: Assembly, f: Fragment, d: seq<uint8>)
    requires |d| <= 65535 && CutFrom(f, d)
    ensures AddFragment(a, f).Some? <==> a.count < 64 && (|d| >= 8 || f.offset != 0)
  {
    RefusedExactly(a, f);
  }

  /**
    The fragments that can be taken are exactly those that can be cut from some datagram with
    room for a UDP header.
   */
  lemma TakenExactly(a: Assembly, f: Fragment)
    ensures AddFragment(a, f).Some? <==> a.count < 64 && exists d :: 8 <= |d| <= 65535 && CutFrom(f, d)
  {
    RefusedExactly(a, f);
    if AddFragment(a, f).Some? {
      var d := SomeDatagram(f);
    } else if d :| 8 <= |d| <= 65535 && CutFrom(f, d) {
      CutIsTaken(a, f, d);
    }
  }

  // ---------- What a taken fragment changes

  /** The fragment brings the byte at offset `i`: it has one, below `end`, and the byte's block is not written. */
  ghost predicate Brings(a: Assembly, f: Fragment, end: nat, i: nat) {
    f.offset <= i < f.offset + |f.payload| && i < end && i / 8 !in a.blocks
  }

  ghost function NewBytes(a: Assembly, f: Fragment, end: nat): set<nat> {
    set i: nat | i < f.offset + |f.payload| && Brings(a, f, end, i)
  }

  /** `r` is `a` with the bytes that `f` brings below `end`. */
  ghost predicate Gains(r: Assembly, a: Assembly, f: Fragment, end: nat)
    requires f.offset + |f.payload| <= MAX_DATAGRAM
  {
    && r.received == a.received + |NewBytes(a, f, end)|
    && (forall i: nat | i < MAX_DATAGRAM ::
          r.buffer[i] == if Brings(a, f, end, i) then f.payload[i - f.offset] else a.buffer[i])
  }

  ghost function BlockBytes(b: nat, n: nat): (r: set<nat>)
    ensures |r| == n && forall i: nat :: i in r <==> 8 * b <= i < 8 * b + n
  {
    if n == 0 then {} else BlockBytes(b, n - 1) + {8 * b + n - 1}
  }

  /** The bytes of one more block, if it is not written. */
  lemma MoreBytes(a: Assembly, f: Fragment, b: nat)
    requires f.offset <= 8 * b < f.offset + |f.payload|
    ensures NewBytes(a, f, 8 * (b + 1)) == NewBytes(a, f, 8 * b)
              + if b in a.blocks then {} else BlockBytes(b, Min(8, f.offset + |f.payload| - 8 * b))
  {
    forall i: nat
      ensures Brings(a, f, 8 * (b + 1), i) <==> Brings(a, f, 8 * b, i) || (i / 8 == b && i < f.offset + |f.payload| && b !in a.blocks)
    {
    }
  }

  lemma BlockCounts(x: Assembly, a: Assembly, f: Fragment, b: nat)
    requires f.offset <= 8 * b < f.offset + |f.payload| <= MAX_DATAGRAM && (b in x.blocks <==> b in a.blocks)
    requires x.received == a.received + |NewBytes(a, f, 8 * b)|
    ensures AddBlock(x, f, b).received == a.received + |NewBytes(a, f, 8 * (b + 1))|
  {
    MoreBytes(a, f, b);
    if b !in a.blocks {
      assert NewBytes(a, f, 8 * b) !! BlockBytes(b, Min(8, f.offset + |f.payload| - 8 * b));
    }
  }

  lemma BlockWrites(x: Assembly, a: Assembly, f: Fragment, b: nat, i: nat)
    requires f.offset <= 8 * b < f.offset + |f.payload| <= MAX_DATAGRAM && (b in x.blocks <==> b in a.blocks)
    requires i < MAX_DATAGRAM
    requires x.buffer[i] == if Brings(a, f, 8 * b, i) then f.payload[i - f.offset] else a.buffer[i]
    ensures AddBlock(x, f, b).buffer[i] == if Brings(a, f, 8 * (b + 1), i) then f.payload[i - f.offset] else a.buffer[i]
  {
  }

  lemma {:induction false} BlocksGain(a: Assembly, f: Fragment, start: nat, end: nat)
    requires f.offset == 8 * start && f.offset + |f.payload| <= MAX_DATAGRAM
    requires start <= end && (end > start ==> 8 * (end - 1) < f.offset + |f.payload|)
    ensures Gains(AddBlocks(a, f, start, end), a, f, 8 * end)
  {
    if end == start {
      assert NewBytes(a, f, 8 * end) == {};
    } else {
      var b := end - 1;
      var x := AddBlocks(a, f, start, b);
      BlocksGain(a, f, start, b);
      BlocksFrame(a, f, start, b);
      BlockCounts(x, a, f, b);
      forall i: nat | i < MAX_DATAGRAM
        ensures AddBlock(x, f, b).buffer[i] == if Brings(a, f, 8 * end, i) then f.payload[i - f.offset] else a.buffer[i]
      {
        BlockWrites(x, a, f, b, i);
      }
    }
  }

  /**
    The effect of a taken fragment, byte by byte: the first copy of a block stays, every other
    byte of the fragment is written at its offset and counted once, and the last fragment to
    end the datagram sets the expected length.
   */
  lemma FragmentEffect(a: Assembly, f: Fragment)
    requires AddFragment(a, f).Some?
    ensures var r, end := AddFragment(a, f).value, f.offset + |f.payload|;
            && r.count == a.count + 1 && r.hasLast == (a.hasLast || !f.more)
            && r.total == (if f.more then a.total else end)
            && (forall b: nat :: b in r.blocks <==> b in a.blocks || f.offset <= 8 * b < end)
            && Gains(r, a, f, end)
  {
    var last := (f.offset + |f.payload| + 7) / 8;
    BlockEnds(f);
    BlocksFrame(Noted(a, f), f, f.offset / 8, last);
    BlocksGain(Noted(a, f), f, f.offset / 8, last);
    AllBrought(a, f, 8 * last);
  }

  lemma AllBrought(a: Assembly, f: Fragment, end: nat)
    requires f.offset + |f.payload| <= end
    ensures NewBytes(Noted(a, f), f, end) == NewBytes(a, f, f.offset + |f.payload|)
    ensures forall i: nat :: Brings(Noted(a, f), f, end, i) == Brings(a, f, f.offset + |f.payload|, i)
  {
  }

  // ---------- Pieces of one size

  /** Number of pieces of `m` bytes, the last one perhaps shorter. */
  ghost function Count(len: nat, m: nat): nat
    requires m > 0
  {
    (len + m - 1) / m
  }

  /** Piece `k` of the datagram cut every `m` bytes. */
  ghost function Piece(d: seq<uint8>, m: nat, k: nat): Fragment
    requires 0 < m && k * m < |d| <= 65535
  {
    var end := Min(k * m + m, |d|);
    Fragment(k * m, d[k * m..end], end < |d|)
  }

  lemma PieceStarts(len: nat, m: nat, k: nat)
    requires m > 0
    ensures k < Count(len, m) <==> k * m < len
  {
    var c := Count(len, m);
    assert c * m <= len + m - 1 < c * m + m;
    if k < c {
      assert (k + 1) * m <= c * m;
    } else {
      assert k * m >= c * m;
    }
  }

  lemma MultipleOf8(m: nat, k: nat)
    requires m % 8 == 0
    ensures (k * m) % 8 == 0
  {
    assert m == 8 * (m / 8);
    assert k * m == 8 * (k * (m / 8));
  }

  lemma PieceIsCut(d: seq<uint8>, m: nat, k: nat)
    requires 0 < m && m % 8 == 0 && k * m < |d| <= 65535
    ensures CutFrom(Piece(d, m, k), d)
  {
    MultipleOf8(m, k);
  }

  /** Every byte is in the piece that its offset divided by `m` gives. */
  lemma PieceOfByte(d: seq<uint8>, m: nat, i: nat)
    requires 0 < m && i < |d| <= 65535
    ensures var k := i / m; k * m <= i < |d| && i < k * m + |Piece(d, m, k).payload|
  {
    assert (i / m) * m <= i < (i / m) * m + m;
  }

  /** The datagram cut every `m` bytes. */
  ghost function Pieces(d: seq<uint8>, m: nat): (r: seq<Fragment>)
    requires 0 < m && |d| <= 65535
    ensures |r| == Count(|d|, m)
  {
    seq(Count(|d|, m), k requires 0 <= k < Count(|d|, m) => PieceStarts(|d|, m, k); Piece(d, m, k))
  }

  lemma PiecesAreCut(d: seq<uint8>, m: nat, f: Fragment)
    requires 0 < m && m % 8 == 0 && |d| <= 65535 && f in Pieces(d, m)
    ensures CutFrom(f, d)
  {
    var k :| 0 <= k < Count(|d|, m) && f == Pieces(d, m)[k];
    PieceStarts(|d|, m, k);
    PieceIsCut(d, m, k);
  }

  lemma PiecesCover(d: seq<uint8>, m: nat, i: nat) returns (f: Fragment)
    requires 0 < m && i < |d| <= 65535
    ensures f in Pieces(d, m) && f.offset <= i < f.offset + |f.payload|
  {
    PieceOfByte(d, m, i);
    PieceStarts(|d|, m, i / m);
    f := Pieces(d, m)[i / m];
  }

  /**
    Every datagram of 8 to 65535 bytes cut every `m` bytes comes out of its pieces, in any order
    and with any repetitions, as long as at most 64 fragments arrive.
   */
  lemma PiecesComplete(fs: seq<Fragment>, d: seq<uint8>, m: nat)
    requires 8 <= |d| <= 65535 && 0 < m && m % 8 == 0 && |fs| <= 64
    requires forall f :: f in fs <==> f in Pieces(d, m)
    ensures AddAll(Empty(), fs).Some?
    ensures var a := AddAll(Empty(), fs).value;
            Complete(a.hasLast, a.received, a.total) && a.total == |d| && a.buffer[..a.total] == d
  {
    forall j | 0 <= j < |fs|
      ensures CutFrom(fs[j], d)
    {
      assert fs[j] in fs;
      PiecesAreCut(d, m, fs[j]);
    }
    forall i: nat | i < |d|
      ensures Covered(fs, i)
    {
      var f := PiecesCover(d, m, i);
      assert f in fs;
    }
    Reassembly(fs, d);
  }

  /** Each piece once, in any order: taken and complete whenever there are at most 64 pieces. */
  lemma AnyOrder(fs: seq<Fragment>, d: seq<uint8>, m: nat)
    requires 8 <= |d| <= 65535 && 0 < m && m % 8 == 0 && |d| <= 64 * m
    requires multiset(fs) == multiset(Pieces(d, m))
    ensures AddAll(Empty(), fs).Some?
    ensures var a := AddAll(Empty(), fs).value;
            Complete(a.hasLast, a.received, a.total) && a.total == |d| && a.buffer[..a.total] == d
  {
    assert |fs| == |multiset(fs)| == |Pieces(d, m)|;
    PieceStarts(|d|, m, 64);
    forall f
      ensures f in fs <==> f in Pieces(d, m)
    {
      assert f in fs <==> f in multiset(fs);
      assert f in Pieces(d, m) <==> f in multiset(Pieces(d, m));
    }
    PiecesComplete(fs, d, m);
  }
}
