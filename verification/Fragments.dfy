/**
  Reassembly of one fragmented IPv4 datagram (section 3.2 of RFC 791), as a value.

  Bytes are tracked in blocks of 8. A block is written once; later copies are skipped.
 */
module Fragments {
  import opened Common

  const MAX_DATAGRAM: nat := 65535
  const MAX_FRAGMENTS: nat := 64
  const BLOCKS: nat := 8192

  type Buffer = b: seq<uint8> | |b| == MAX_DATAGRAM ghost witness seq(MAX_DATAGRAM, _ => 0)

  /** `blocks` are the written blocks, `received` the bytes counted for them. */
  datatype Assembly = Assembly(
    total: nat, received: nat, count: nat, hasLast: bool, blocks: set<nat>, buffer: Buffer)

  datatype Fragment = Fragment(offset: uint16, payload: Payload, more: bool)

  ghost function Empty(): Assembly {
    Assembly(0, 0, 0, false, {}, seq(MAX_DATAGRAM, _ => 0))
  }

  predicate Complete(hasLast: bool, received: nat, total: nat) {
    hasLast && received >= total
  }

  /** The checks of a single fragment. */
  predicate WellFormed(f: Fragment) {
    && !(f.more && |f.payload| % 8 != 0)
    && |f.payload| != 0
    && f.offset % 8 == 0
    && !(f.offset == 0 && |f.payload| < 8)
  }

  function Min(a: nat, b: nat): nat {
    if a < b then a else b
  }

  /** `buffer` with `bytes` written at `at`. */
  ghost function Overwrite(buffer: Buffer, at: nat, bytes: seq<uint8>): Buffer {
    seq(MAX_DATAGRAM, i requires 0 <= i < MAX_DATAGRAM => if at <= i < at + |bytes| then bytes[i - at] else buffer[i])
  }

  /** Copies one block of a fragment unless the block is written. */
  ghost function AddBlock(a: Assembly, f: Fragment, b: nat): Assembly
    requires f.offset <= 8 * b < f.offset + |f.payload| <= MAX_DATAGRAM
  {
    if b in a.blocks then a
    else
      var from := 8 * b - f.offset;
      var n := Min(8, |f.payload| - from);
      a.(buffer := Overwrite(a.buffer, 8 * b, f.payload[from..from + n]),
         blocks := a.blocks + {b},
         received := a.received + n)
  }

  /** Copies the blocks of a fragment from its first block `start` to below block `end`. */
  ghost function AddBlocks(a: Assembly, f: Fragment, start: nat, end: nat): Assembly
    requires f.offset == 8 * start && f.offset + |f.payload| <= MAX_DATAGRAM
    requires start <= end && (end > start ==> 8 * (end - 1) < f.offset + |f.payload|)
  {
    if end == start then a else AddBlock(AddBlocks(a, f, start, end - 1), f, end - 1)
  }

  /** The fields set before any block is copied. */
  ghost function Noted(a: Assembly, f: Fragment): Assembly {
    var a := a.(count := a.count + 1);
    if f.more then a else a.(hasLast := true, total := f.offset + |f.payload|)
  }

  /** `None` when the fragment is refused; the session is then deleted. */
  ghost function AddFragment(a: Assembly, f: Fragment): Option<Assembly> {
    if !WellFormed(f) || f.offset + |f.payload| > MAX_DATAGRAM || a.count + 1 > MAX_FRAGMENTS then None
    else Some(AddBlocks(Noted(a, f), f, f.offset / 8, (f.offset + |f.payload| + 7) / 8))
  }

  // ---------- Fragments of one datagram

  /** `f` was cut from `d`: whole blocks, except that the last fragment ends where `d` ends. */
  ghost predicate CutFrom(f: Fragment, d: seq<uint8>) {
    && f.payload != [] && f.offset % 8 == 0 && (f.more ==> |f.payload| % 8 == 0)
    && f.offset + |f.payload| <= |d| && f.payload == d[f.offset..f.offset + |f.payload|]
    && (f.more <==> f.offset + |f.payload| < |d|)
  }

  ghost function BlockLength(d: seq<uint8>, b: nat): nat {
    if 8 * b >= |d| then 0 else Min(8, |d| - 8 * b)
  }

  /** Bytes of the written blocks below `k`. */
  ghost function Written(d: seq<uint8>, blocks: set<nat>, k: nat): nat {
    if k == 0 then 0 else Written(d, blocks, k - 1) + if k - 1 in blocks then BlockLength(d, k - 1) else 0
  }

  ghost predicate BlockRight(a: Assembly, d: seq<uint8>, b: nat)
    requires |d| <= MAX_DATAGRAM
  {
    8 * b < |d| && forall i | 8 * b <= i < 8 * b + BlockLength(d, b) :: a.buffer[i] == d[i]
  }

  /** What is written is right and counted once. */
  ghost predicate Partial(a: Assembly, d: seq<uint8>)
    requires |d| <= MAX_DATAGRAM
  {
    && (forall b | b in a.blocks :: BlockRight(a, d, b))
    && a.received == Written(d, a.blocks, BLOCKS)
  }

  lemma {:induction false} WrittenAdd(d: seq<uint8>, blocks: set<nat>, b: nat, k: nat)
    requires b !in blocks
    ensures Written(d, blocks + {b}, k) == Written(d, blocks, k) + if b < k then BlockLength(d, b) else 0
  {
    if k != 0 {
      WrittenAdd(d, blocks, b, k - 1);
    }
  }

  /** A block is right after the block `b` of `f` is written. */
  lemma StillRight(a: Assembly, f: Fragment, d: seq<uint8>, b: nat, c: nat)
    requires |d| <= MAX_DATAGRAM && CutFrom(f, d)
    requires f.offset <= 8 * b < f.offset + |f.payload| && b !in a.blocks
    requires c == b || BlockRight(a, d, c)
    ensures BlockRight(AddBlock(a, f, b), d, c)
  {
  }

  lemma BlockKeeps(a: Assembly, f: Fragment, d: seq<uint8>, b: nat)
    requires |d| <= MAX_DATAGRAM && CutFrom(f, d) && Partial(a, d)
    requires f.offset <= 8 * b < f.offset + |f.payload|
    ensures Partial(AddBlock(a, f, b), d)
  {
    if b !in a.blocks {
      WrittenAdd(d, a.blocks, b, BLOCKS);
      forall c | c in a.blocks + {b}
        ensures BlockRight(AddBlock(a, f, b), d, c)
      {
        StillRight(a, f, d, b, c);
      }
    }
  }

  lemma BlockFrame(a: Assembly, f: Fragment, b: nat)
    requires f.offset <= 8 * b < f.offset + |f.payload| <= MAX_DATAGRAM
    ensures var r := AddBlock(a, f, b);
            r == a.(blocks := a.blocks + {b}, buffer := r.buffer, received := r.received)
  {
    if b in a.blocks {
      assert a.blocks + {b} == a.blocks;
    }
  }

  ghost function BlockRange(lo: nat, hi: nat): (r: set<nat>)
    ensures forall b: nat :: b in r <==> lo <= b < hi
  {
    if hi <= lo then {} else BlockRange(lo, hi - 1) + {hi - 1}
  }

  lemma {:induction false} BlocksKeep(a: Assembly, f: Fragment, d: seq<uint8>, start: nat, end: nat)
    requires |d| <= MAX_DATAGRAM && CutFrom(f, d) && Partial(a, d) && f.offset == 8 * start
    requires start <= end && (end > start ==> 8 * (end - 1) < f.offset + |f.payload|)
    ensures Partial(AddBlocks(a, f, start, end), d)
  {
    if end != start {
      BlocksKeep(a, f, d, start, end - 1);
      BlockKeeps(AddBlocks(a, f, start, end - 1), f, d, end - 1);
    }
  }

  lemma {:induction false} BlocksFrame(a: Assembly, f: Fragment, start: nat, end: nat)
    requires f.offset == 8 * start && f.offset + |f.payload| <= MAX_DATAGRAM
    requires start <= end && (end > start ==> 8 * (end - 1) < f.offset + |f.payload|)
    ensures var r := AddBlocks(a, f, start, end);
            r == a.(blocks := a.blocks + BlockRange(start, end), buffer := r.buffer, received := r.received)
  {
    if end == start {
      assert a.blocks + BlockRange(start, end) == a.blocks;
    } else {
      BlocksFrame(a, f, start, end - 1);
      BlockFrame(AddBlocks(a, f, start, end - 1), f, end - 1);
      assert a.blocks + BlockRange(start, end - 1) + {end - 1} == a.blocks + BlockRange(start, end);
    }
  }

  // ---------- Runs

  ghost predicate Covered(fs: seq<Fragment>, i: nat) {
    exists j :: 0 <= j < |fs| && fs[j].offset <= i < fs[j].offset + |fs[j].payload|
  }

  /** The assembly stands for the fragments `fs` of the datagram `d`. */
  ghost predicate Tracks(a: Assembly, fs: seq<Fragment>, d: seq<uint8>)
    requires 8 <= |d| <= MAX_DATAGRAM
  {
    && Partial(a, d) && a.count == |fs|
    && (forall i: nat | i < |d| :: Covered(fs, i) <==> i / 8 in a.blocks)
    && (a.hasLast <==> (|d| - 1) / 8 in a.blocks)
    && (a.hasLast ==> a.total == |d|)
  }

  /** A fragment covers exactly the bytes of its blocks. */
  lemma CoversBlocks(f: Fragment, d: seq<uint8>, i: nat)
    requires CutFrom(f, d) && i < |d|
    ensures f.offset <= i < f.offset + |f.payload|
            <==> i / 8 in BlockRange(f.offset / 8, (f.offset + |f.payload| + 7) / 8)
  {
  }

  lemma CoveredMore(fs: seq<Fragment>, f: Fragment, i: nat)
    ensures Covered(fs + [f], i) <==> Covered(fs, i) || f.offset <= i < f.offset + |f.payload|
  {
    if Covered(fs, i) {
      var j :| 0 <= j < |fs| && fs[j].offset <= i < fs[j].offset + |fs[j].payload|;
      assert (fs + [f])[j] == fs[j];
    }
    assert (fs + [f])[|fs|] == f;
  }

  lemma FragmentTracks(a: Assembly, fs: seq<Fragment>, f: Fragment, d: seq<uint8>)
    requires 8 <= |d| <= MAX_DATAGRAM && CutFrom(f, d) && Tracks(a, fs, d) && |fs| < MAX_FRAGMENTS
    ensures AddFragment(a, f).Some? && Tracks(AddFragment(a, f).value, fs + [f], d)
  {
    var end := (f.offset + |f.payload| + 7) / 8;
    var a2 := Noted(a, f);
    BlocksKeep(a2, f, d, f.offset / 8, end);
    BlocksFrame(a2, f, f.offset / 8, end);
    var r := AddBlocks(a2, f, f.offset / 8, end);
    forall i: nat | i < |d|
      ensures Covered(fs + [f], i) <==> i / 8 in r.blocks
    {
      CoversBlocks(f, d, i);
      CoveredMore(fs, f, i);
    }
    CoversBlocks(f, d, |d| - 1);
  }

  ghost function AddAll(a: Assembly, fs: seq<Fragment>): Option<Assembly> {
    if fs == [] then Some(a)
    else
      var r := AddAll(a, fs[..|fs| - 1]);
      if r.None? then None else AddFragment(r.value, fs[|fs| - 1])
  }

  lemma {:induction false} WrittenNone(d: seq<uint8>, k: nat)
    ensures Written(d, {}, k) == 0
  {
    if k != 0 {
      WrittenNone(d, k - 1);
    }
  }

  lemma {:induction false} AllTrack(fs: seq<Fragment>, d: seq<uint8>)
    requires 8 <= |d| <= MAX_DATAGRAM && |fs| <= MAX_FRAGMENTS
    requires forall i | 0 <= i < |fs| :: CutFrom(fs[i], d)
    ensures var r := AddAll(Empty(), fs); r.Some? && Tracks(r.value, fs, d)
  {
    if fs == [] {
      WrittenNone(d, BLOCKS);
    } else {
      AllTrack(fs[..|fs| - 1], d);
      FragmentTracks(AddAll(Empty(), fs[..|fs| - 1]).value, fs[..|fs| - 1], fs[|fs| - 1], d);
      assert fs[..|fs| - 1] + [fs[|fs| - 1]] == fs;
    }
  }

  /** The written bytes below block `k` are all bytes below it exactly when no block is missing. */
  lemma {:induction false} WrittenBound(d: seq<uint8>, blocks: set<nat>, k: nat)
    ensures Written(d, blocks, k) <= Min(8 * k, |d|)
    ensures Written(d, blocks, k) == Min(8 * k, |d|) <==> forall b: nat | b < k && 8 * b < |d| :: b in blocks
  {
    if k != 0 {
      WrittenBound(d, blocks, k - 1);
    }
  }

  /** Complete exactly when every byte of the datagram is covered; then the buffer holds the datagram. */
  lemma CompleteIsCovered(a: Assembly, fs: seq<Fragment>, d: seq<uint8>)
    requires 8 <= |d| <= MAX_DATAGRAM && Tracks(a, fs, d)
    ensures Complete(a.hasLast, a.received, a.total) <==> forall i: nat | i < |d| :: Covered(fs, i)
    ensures Complete(a.hasLast, a.received, a.total) ==> a.total == |d| && a.buffer[..|d|] == d
  {
    WrittenBound(d, a.blocks, BLOCKS);
    var all := forall b: nat | b < BLOCKS && 8 * b < |d| :: b in a.blocks;
    if forall i: nat | i < |d| :: Covered(fs, i) {
      forall b: nat | b < BLOCKS && 8 * b < |d|
        ensures b in a.blocks
      {
        assert Covered(fs, 8 * b);
      }
      assert Covered(fs, |d| - 1);
    }
    if Complete(a.hasLast, a.received, a.total) {
      forall i: nat | i < |d|
        ensures Covered(fs, i) && a.buffer[i] == d[i]
      {
        assert i / 8 in a.blocks;
        assert BlockRight(a, d, i / 8);
      }
    }
  }

  /** The fragment after the 64th is refused, and nothing is kept. */
  lemma {:induction false} TooMany(fs: seq<Fragment>, d: seq<uint8>)
    requires 8 <= |d| <= MAX_DATAGRAM && |fs| > MAX_FRAGMENTS
    requires forall i | 0 <= i < |fs| :: CutFrom(fs[i], d)
    ensures AddAll(Empty(), fs).None?
  {
    var init := fs[..|fs| - 1];
    if |init| > MAX_FRAGMENTS {
      TooMany(init, d);
    } else {
      AllTrack(init, d);
    }
  }

  /**
    For any order, duplication and aligned overlap of fragments of one datagram: they are all
    taken exactly when there are at most 64; then the session is complete exactly when every
    byte is covered, and a complete session holds the datagram.
   */
  lemma Reassembly(fs: seq<Fragment>, d: seq<uint8>)
    requires 8 <= |d| <= MAX_DATAGRAM
    requires forall i | 0 <= i < |fs| :: CutFrom(fs[i], d)
    ensures AddAll(Empty(), fs).Some? <==> |fs| <= MAX_FRAGMENTS
    ensures |fs| <= MAX_FRAGMENTS ==>
              var a := AddAll(Empty(), fs).value;
              && (Complete(a.hasLast, a.received, a.total) <==> forall i: nat | i < |d| :: Covered(fs, i))
              && (Complete(a.hasLast, a.received, a.total) ==>
                    8 <= a.total == |d| && a.buffer[..a.total] == d && a.buffer[8..a.total] == d[8..])
  {
    if |fs| > MAX_FRAGMENTS {
      TooMany(fs, d);
    } else {
      AllTrack(fs, d);
      var a := AddAll(Empty(), fs).value;
      CompleteIsCovered(a, fs, d);
      if Complete(a.hasLast, a.received, a.total) {
        assert Covered(fs, 0);
        assert a.buffer[8..a.total] == a.buffer[..a.total][8..];
      }
    }
  }

  lemma BlockBounds(offset: nat, b: nat)
    requires offset == 8 * b
    ensures offset % 8 == 0 && offset / 8 == b && (offset + 15) / 8 == b + 1
  {
  }

  /** A fragment of one block. */
  lemma SingleBlock(a: Assembly, f: Fragment, b: nat)
    requires f.offset == 8 * b && b + 1 < BLOCKS && |f.payload| == 8 && a.count < MAX_FRAGMENTS
    ensures AddFragment(a, f) == Some(AddBlock(Noted(a, f), f, b))
  {
    BlockBounds(f.offset, b);
    assert AddBlocks(Noted(a, f), f, b, b) == Noted(a, f);
  }

  /**
    Fragments that are not of one datagram: bytes beyond the end are counted too, so a
    session is complete although its first 8 bytes never arrived.
   */
  lemma BeyondTheEnd(x: seq<uint8>, y: seq<uint8>)
    requires |x| == |y| == 8
    ensures var fs := [Fragment(8, x, false), Fragment(16, y, true)];
            var r := AddAll(Empty(), fs);
            && r.Some? && Complete(r.value.hasLast, r.value.received, r.value.total)
            && r.value.total == 16 && !Covered(fs, 0)
  {
    var f, g := Fragment(8, x, false), Fragment(16, y, true);
    var fs := [f, g];
    assert fs[..1] == [f] && [f][..0] == [];
    assert AddAll(Empty(), []) == Some(Empty());
    SingleBlock(Empty(), f, 1);
    SingleBlock(AddFragment(Empty(), f).value, g, 2);
  }

  // ---------- Fragments of any origin

  /** Bytes written per block, summed below block `k`. */
  ghost function Tally(written: map<nat, nat>, k: nat): nat {
    if k == 0 then 0 else Tally(written, k - 1) + if k - 1 in written then written[k - 1] else 0
  }

  /** The byte `v` at offset `i` is that of one of the fragments. */
  ghost predicate ByteOf(fs: seq<Fragment>, i: nat, v: uint8) {
    exists j :: 0 <= j < |fs| && fs[j].offset <= i < fs[j].offset + |fs[j].payload| && fs[j].payload[i - fs[j].offset] == v
  }

  /** The first `n` bytes of block `b` are bytes of the fragments, and lie before `end`. */
  ghost predicate BlockFrom(buffer: Buffer, fs: seq<Fragment>, end: nat, b: nat, n: nat) {
    && 1 <= n <= 8 && 8 * b + n <= end && 8 * b + n <= MAX_DATAGRAM
    && forall i: nat | 8 * b <= i < 8 * b + n :: ByteOf(fs, i, buffer[i])
  }

  /** Every counted byte is a byte of one of `fs` and lies before `end`. */
  ghost predicate Tallied(a: Assembly, fs: seq<Fragment>, end: nat, written: map<nat, nat>) {
    && written.Keys == a.blocks && a.received == Tally(written, BLOCKS)
    && forall b | b in written :: BlockFrom(a.buffer, fs, end, b, written[b])
  }

  lemma {:induction false} TallyMore(written: map<nat, nat>, b: nat, n: nat, k: nat)
    requires b !in written
    ensures Tally(written[b := n], k) == Tally(written, k) + if b < k then n else 0
  {
    if k != 0 {
      TallyMore(written, b, n, k - 1);
    }
  }

  /** A block just written holds the fragment's bytes. */
  lemma NewBlockFrom(a: Assembly, fs: seq<Fragment>, j: nat, b: nat, end: nat)
    requires j < |fs| && fs[j].offset <= 8 * b < fs[j].offset + |fs[j].payload| <= MAX_DATAGRAM && b !in a.blocks
    requires fs[j].offset + |fs[j].payload| <= end
    ensures BlockFrom(AddBlock(a, fs[j], b).buffer, fs, end, b, Min(8, fs[j].offset + |fs[j].payload| - 8 * b))
  {
    var n, buffer := Min(8, fs[j].offset + |fs[j].payload| - 8 * b), AddBlock(a, fs[j], b).buffer;
    forall i: nat | 8 * b <= i < 8 * b + n
      ensures ByteOf(fs, i, buffer[i])
    {
      assert buffer[i] == fs[j].payload[i - fs[j].offset];
    }
  }

  /** The other blocks are left alone. */
  lemma OldBlockFrom(a: Assembly, fs: seq<Fragment>, f: Fragment, b: nat, end: nat, c: nat, n: nat)
    requires f.offset <= 8 * b < f.offset + |f.payload| <= MAX_DATAGRAM && b != c
    requires BlockFrom(a.buffer, fs, end, c, n)
    ensures BlockFrom(AddBlock(a, f, b).buffer, fs, end, c, n)
  {
    var buffer := AddBlock(a, f, b).buffer;
    forall i: nat | 8 * c <= i < 8 * c + n
      ensures ByteOf(fs, i, buffer[i])
    {
      assert ByteOf(fs, i, a.buffer[i]) && buffer[i] == a.buffer[i];
    }
  }

  lemma BlockTallied(a: Assembly, fs: seq<Fragment>, j: nat, b: nat, end: nat, written: map<nat, nat>) returns (more: map<nat, nat>)
    requires Tallied(a, fs, end, written) && j < |fs|
    requires fs[j].offset <= 8 * b < fs[j].offset + |fs[j].payload| <= MAX_DATAGRAM
    requires fs[j].offset + |fs[j].payload| <= end
    ensures Tallied(AddBlock(a, fs[j], b), fs, end, more)
  {
    more := written;
    if b !in a.blocks {
      var n := Min(8, fs[j].offset + |fs[j].payload| - 8 * b);
      TallyMore(written, b, n, BLOCKS);
      more := written[b := n];
      NewBlockFrom(a, fs, j, b, end);
      forall c | c in written
        ensures BlockFrom(AddBlock(a, fs[j], b).buffer, fs, end, c, written[c])
      {
        OldBlockFrom(a, fs, fs[j], b, end, c, written[c]);
      }
    }
  }

  lemma {:induction false} BlocksTallied(a: Assembly, fs: seq<Fragment>, j: nat, first: nat, last: nat, end: nat, written: map<nat, nat>)
      returns (more: map<nat, nat>)
    requires Tallied(a, fs, end, written) && j < |fs| && fs[j].offset == 8 * first
    requires fs[j].offset + |fs[j].payload| <= MAX_DATAGRAM && fs[j].offset + |fs[j].payload| <= end
    requires first <= last && (last > first ==> 8 * (last - 1) < fs[j].offset + |fs[j].payload|)
    ensures Tallied(AddBlocks(a, fs[j], first, last), fs, end, more)
  {
    more := written;
    if last != first {
      more := BlocksTallied(a, fs, j, first, last - 1, end, written);
      more := BlockTallied(AddBlocks(a, fs[j], first, last - 1), fs, j, last - 1, end, more);
    }
  }

  lemma {:induction false} AllTallied(fs: seq<Fragment>, k: nat, end: nat) returns (written: map<nat, nat>)
    requires k <= |fs| && AddAll(Empty(), fs[..k]).Some?
    requires forall j | 0 <= j < |fs| :: fs[j].offset + |fs[j].payload| <= end
    ensures Tallied(AddAll(Empty(), fs[..k]).value, fs, end, written)
  {
    written := map[];
    if k == 0 {
      TallyNone(BLOCKS);
    } else {
      var f := fs[k - 1];
      assert fs[..k][..k - 1] == fs[..k - 1];
      written := AllTallied(fs, k - 1, end);
      var a := AddAll(Empty(), fs[..k - 1]).value;
      BlockEnds(f);
      written := BlocksTallied(Noted(a, f), fs, k - 1, f.offset / 8, (f.offset + |f.payload| + 7) / 8, end, written);
    }
  }

  lemma {:induction false} TallyNone(k: nat)
    ensures Tally(map[], k) == 0
  {
    if k != 0 {
      TallyNone(k - 1);
    }
  }

  lemma BlockEnds(f: Fragment)
    requires WellFormed(f)
    ensures f.offset == 8 * (f.offset / 8)
    ensures f.offset / 8 <= (f.offset + |f.payload| + 7) / 8
    ensures 8 * ((f.offset + |f.payload| + 7) / 8 - 1) < f.offset + |f.payload|
  {
  }

  /** As many bytes as fit before `end` can only be all of them. */
  lemma {:induction false} TallyBound(buffer: Buffer, fs: seq<Fragment>, end: nat, written: map<nat, nat>, k: nat)
    requires forall b | b in written :: BlockFrom(buffer, fs, end, b, written[b])
    ensures Tally(written, k) <= Min(8 * k, end)
    ensures Tally(written, k) == Min(8 * k, end) ==>
              forall b: nat | b < k && 8 * b < end :: b in written && written[b] == Min(8, end - 8 * b)
  {
    if k != 0 {
      TallyBound(buffer, fs, end, written, k - 1);
      assert k - 1 in written ==> BlockFrom(buffer, fs, end, k - 1, written[k - 1]);
    }
  }

  /**
    For accepted fragments of any origin: if none of them ends past the expected length, every
    byte of a complete session's datagram is a byte that some fragment has at that offset.
    `BeyondTheEnd` shows what happens otherwise.
   */
  lemma CompleteWithin(fs: seq<Fragment>)
    requires AddAll(Empty(), fs).Some?
    requires var a := AddAll(Empty(), fs).value;
             && Complete(a.hasLast, a.received, a.total)
             && forall j | 0 <= j < |fs| :: fs[j].offset + |fs[j].payload| <= a.total
    ensures var a := AddAll(Empty(), fs).value;
            a.total <= MAX_DATAGRAM && forall i: nat | i < a.total :: ByteOf(fs, i, a.buffer[i])
  {
    assert fs[..|fs|] == fs;
    var a := AddAll(Empty(), fs).value;
    var written := AllTallied(fs, |fs|, a.total);
    TallyBound(a.buffer, fs, a.total, written, BLOCKS);
    if a.total > 0 {
      var last := (a.total - 1) / 8;
      assert last in written && BlockFrom(a.buffer, fs, a.total, last, written[last]);
    }
    forall i: nat | i < a.total
      ensures ByteOf(fs, i, a.buffer[i])
    {
      var b := i / 8;
      assert b in written && BlockFrom(a.buffer, fs, a.total, b, written[b]);
    }
  }
}
