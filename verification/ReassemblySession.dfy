/** The session object of the fragment assembler, proved against `AddFragment`. */
module ReassemblySessions {
  import opened Common
  import opened Words
  import opened Fragments

  const BITMAP_WORDS: nat := 128

  datatype FragmentKey = FragmentKey(srcIp: uint32, dstIp: uint32, ipId: uint16, protocol: uint8)

  datatype Datagram = Datagram(srcPort: uint16, dstPort: uint16, payload: seq<uint8>)

  type DatagramLength = n: nat | 8 <= n <= MAX_DATAGRAM witness 8

  /** `r` is the datagram that the assembly holds, if it is complete. */
  ghost predicate Yields(a: Assembly, r: Option<Datagram>) {
    if !Complete(a.hasLast, a.received, a.total) then r.None?
    else
      && r.Some? && 8 <= a.total <= MAX_DATAGRAM && r.value.payload == a.buffer[8..a.total]
      && BigEndian(r.value.srcPort) + BigEndian(r.value.dstPort) == a.buffer[..4]
  }

  /** The blocks whose bit is set. */
  ghost function BlocksOf(words: seq<Word>): set<nat>
    requires |words| == BITMAP_WORDS
  {
    set b | 0 <= b < BLOCKS && Bit(words[b / 64], b % 64)
  }

  /** `1 << i` has just bit `i`. */
  lemma SingleBit(i: nat, k: nat)
    requires i < 64
    ensures Bit(Shl(1, i), k) <==> k == i
  {
    ShlBit(1, i, k);
    if i <= k {
      OneBit(k - i);
    }
    if k >= 64 {
      Pow2Of64();
      HighBit(Shl(1, i), 64, k);
    }
  }

  lemma OneBit(k: nat)
    ensures Bit(1, k) <==> k == 0
  {
    if k != 0 {
      ZeroBit(k - 1);
    }
  }

  lemma TestBlock(words: seq<Word>, b: nat)
    requires |words| == BITMAP_WORDS && b < BLOCKS
    ensures And(words[b / 64], Shl(1, b % 64)) != 0 <==> b in BlocksOf(words)
  {
    var w, mask := words[b / 64], Shl(1, b % 64);
    if And(w, mask) != 0 {
      var i := CountTrailingZeros(And(w, mask));
      AndBit(w, mask, i);
      SingleBit(b % 64, i);
    } else {
      AndBit(w, mask, b % 64);
      SingleBit(b % 64, b % 64);
      ZeroBit(b % 64);
    }
  }

  lemma MarkBlock(words: seq<Word>, b: nat)
    requires |words| == BITMAP_WORDS && b < BLOCKS
    ensures var v := Or(words[b / 64], Shl(1, b % 64));
            v < Words.TWO64 && BlocksOf(words[b / 64 := v]) == BlocksOf(words) + {b}
  {
    var mask := Shl(1, b % 64);
    var v := Or(words[b / 64], mask);
    Pow2Of64();
    OrBound(words[b / 64], mask, 64);
    var words' := words[b / 64 := v];
    forall c: nat | c < BLOCKS
      ensures Bit(words'[c / 64], c % 64) <==> Bit(words[c / 64], c % 64) || c == b
    {
      if c / 64 == b / 64 {
        OrBit(words[b / 64], mask, c % 64);
        SingleBit(b % 64, c % 64);
      }
    }
  }

  /** The blocks that a fragment touches. */
  lemma BlockSpan(offset: nat, n: nat)
    requires offset % 8 == 0 && n > 0
    ensures var start, end := offset / 8, (offset + n + 7) / 8;
            offset == 8 * start && start < end && 8 * (end - 1) < offset + n
  {
  }

  class ReassemblySession {
    /** The key that the session was opened for. */
    ghost const key: FragmentKey
    var createdAtNs: uint64
    /** The expected length, once the last fragment is there; it leaves room for the UDP header. */
    var total: Option<DatagramLength>
    var received: nat
    var count: nat
    const blockBitmap: array<Word>
    const buffer: array<uint8>

    ghost predicate Valid() {
      blockBitmap.Length == BITMAP_WORDS && buffer.Length == MAX_DATAGRAM
    }

    ghost function View(): Assembly
      requires Valid()
      reads this, blockBitmap, buffer
    {
      Assembly(if total.Some? then total.value else 0, received, count, total.Some?,
               BlocksOf(blockBitmap[..]), buffer[..])
    }

    constructor (ghost key: FragmentKey, nowNs: uint64)
      ensures this.key == key && createdAtNs == nowNs
      ensures Valid() && fresh(blockBitmap) && fresh(buffer) && View() == Empty()
    {
      this.key := key;
      createdAtNs := nowNs;
      total, received, count := None, 0, 0;
      blockBitmap := new Word[BITMAP_WORDS](_ => 0);
      buffer := new uint8[MAX_DATAGRAM](_ => 0);
      new;
      assert BlocksOf(blockBitmap[..]) == {} by {
        forall b: nat | b < BLOCKS ensures !Bit(blockBitmap[..][b / 64], b % 64) { ZeroBit(b % 64); }
      }
    }

    method IsBlockWritten(b: nat) returns (written: bool)
      requires Valid() && b < BLOCKS
      ensures written <==> b in View().blocks
    {
      TestBlock(blockBitmap[..], b);
      written := And(blockBitmap[b / 64], Shl(1, b % 64)) != 0;
    }

    method MarkBlockWritten(b: nat)
      requires Valid() && b < BLOCKS
      modifies blockBitmap
      ensures View() == old(View()).(blocks := old(View()).blocks + {b})
    {
      ghost var before := blockBitmap[..];
      MarkBlock(before, b);
      blockBitmap[b / 64] := Or(blockBitmap[b / 64], Shl(1, b % 64));
      assert blockBitmap[..] == before[b / 64 := blockBitmap[b / 64]];
    }

    method CopyBytes(at: nat, bytes: seq<uint8>)
      requires Valid() && at + |bytes| <= MAX_DATAGRAM
      modifies buffer
      ensures buffer[..] == Overwrite(old(buffer[..]), at, bytes)
    {
      forall i | 0 <= i < |bytes| {
        buffer[at + i] := bytes[i];
      }
    }

    method CopyBlock(f: Fragment, b: nat)
      requires Valid() && f.offset <= 8 * b < f.offset + |f.payload| <= MAX_DATAGRAM
      modifies this`received, blockBitmap, buffer
      ensures View() == AddBlock(old(View()), f, b)
    {
      var written := IsBlockWritten(b);
      if written {
        return;
      }
      var from := 8 * b - f.offset;
      var n := 8;
      if from + n > |f.payload| {
        n := |f.payload| - from;
      }
      CopyBytes(8 * b, f.payload[from..from + n]);
      MarkBlockWritten(b);
      received := received + n;
    }

    method CopyBlocks(f: Fragment, start: nat, end: nat)
      requires Valid() && f.offset == 8 * start && f.offset + |f.payload| <= MAX_DATAGRAM
      requires start <= end && (end > start ==> 8 * (end - 1) < f.offset + |f.payload|)
      modifies this`received, blockBitmap, buffer
      ensures View() == AddBlocks(old(View()), f, start, end)
    {
      var b := start;
      while b < end
        invariant start <= b <= end
        invariant View() == AddBlocks(old(View()), f, start, b)
      {
        CopyBlock(f, b);
        b := b + 1;
      }
    }

    /** Copies a fragment, except for the blocks already written. */
    method Copy(f: Fragment)
      requires Valid() && WellFormed(f) && f.offset + |f.payload| <= MAX_DATAGRAM
      modifies this`received, blockBitmap, buffer
      ensures View() == AddBlocks(old(View()), f, f.offset / 8, (f.offset + |f.payload| + 7) / 8)
    {
      BlockSpan(f.offset, |f.payload|);
      CopyBlocks(f, f.offset / 8, (f.offset + |f.payload| + 7) / 8);
    }

    /** The last fragment tells the length of the datagram. */
    method NoteLast(f: Fragment)
      requires Valid() && WellFormed(f) && f.offset + |f.payload| <= MAX_DATAGRAM
      modifies this`total
      ensures View() == if f.more then old(View())
                        else old(View()).(hasLast := true, total := f.offset + |f.payload|)
    {
      if !f.more {
        total := Some(f.offset + |f.payload|);
      }
    }

    /** False when the fragment is refused. */
    method Add(f: Fragment) returns (ok: bool)
      requires Valid()
      modifies this`total, this`received, this`count, blockBitmap, buffer
      ensures ok <==> AddFragment(old(View()), f).Some?
      ensures ok ==> View() == AddFragment(old(View()), f).value
    {
      if !WellFormed(f) {
        return false;
      }
      if f.offset + |f.payload| > MAX_DATAGRAM {
        return false;
      }
      count := count + 1;
      if count > MAX_FRAGMENTS {
        return false;
      }
      NoteLast(f);
      Copy(f);
      return true;
    }

    /** The ports and the payload behind the UDP header, once the datagram is complete. */
    method Result() returns (r: Option<Datagram>)
      requires Valid()
      ensures Yields(View(), r)
    {
      if total.Some? && received >= total.value {
        var src := 256 * buffer[0] as nat + buffer[1] as nat;
        var dst := 256 * buffer[2] as nat + buffer[3] as nat;
        return Some(Datagram(src, dst, buffer[8..total.value]));
      }
      return None;
    }
  }
}
