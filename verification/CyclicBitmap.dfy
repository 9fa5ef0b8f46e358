/**
  The reassembly bitmap of a TCP session: 65536 cyclic positions kept as 1024 words.

  The operations work a word at a time. They are proved against sets of positions.
 */
module CyclicBitmap {
  import opened Common
  import opened Words

  const WORDS: nat := 1024

  /** How far `p` lies ahead of `start` on the cycle of 65536 positions. */
  function Ahead(start: int, p: int): (d: nat)
    ensures d < WINDOW
  {
    (p - start) % 65536
  }

  /** The `count` cyclic positions from `start` on; all of them when `count` is 65536 or more. */
  ghost function Range(start: int, count: nat): set<Position> {
    set p: Position | Ahead(start, p) < count
  }

  ghost predicate BitOf(words: seq<Word>, p: Position)
    requires |words| == WORDS
  {
    Bit(words[p / 64], p % 64)
  }

  ghost function Positions(words: seq<Word>): set<Position>
    requires |words| == WORDS
  {
    set p: Position | BitOf(words, p)
  }

  // ---------- One word of a range

  lemma AheadFrom(start: int, done: nat, p: int)
    ensures Ahead((start + done) % 65536, p) == (Ahead(start, p) - done) % 65536
  {
  }

  lemma ExtendRange(start: int, done: nat, n: nat)
    ensures Range(start, done + n) == Range(start, done) + Range((start + done) % 65536, n)
  {
    forall p: Position
      ensures Ahead(start, p) < done + n <==> Ahead(start, p) < done || Ahead((start + done) % 65536, p) < n
    {
      AheadFrom(start, done, p);
    }
  }

  lemma RangeWrap(start: int, n: nat)
    ensures Range(start % 65536, n) == Range(start, n)
  {
    forall p: Position
      ensures Ahead(start % 65536, p) == Ahead(start, p)
    {
      AheadFrom(start, 0, p);
    }
  }

  lemma SingleRange(start: int)
    ensures Range(start, 1) == {start % 65536}
  {
  }

  /** The position `i` places after `start` is in a range that is longer than `i`. */
  lemma RangeAt(start: nat, i: nat, n: nat)
    requires i <= 65536
    ensures i < n ==> (start + i) % 65536 in Range(start, n)
    ensures n <= i < 65536 ==> (start + i) % 65536 !in Range(start, n)
  {
    assert Ahead(start, (start + i) % 65536) == i % 65536;
  }

  /** A range that does not leave its word. */
  lemma RangeInWord(s: nat, n: nat, p: Position)
    requires s < WINDOW && s % 64 + n <= 64
    ensures p in Range(s, n) <==> s / 64 == p / 64 && s % 64 <= p % 64 < s % 64 + n
  {
  }

  lemma OrWord(words: seq<Word>, s: nat, n: nat)
    requires |words| == WORDS && s < WINDOW && s % 64 + n <= 64
    ensures var v := Or(words[s / 64], Shl(LowMask(n), s % 64));
            && v < TWO64
            && Positions(words[s / 64 := v]) == Positions(words) + Range(s, n)
  {
    var mask := Shl(LowMask(n), s % 64);
    var v := Or(words[s / 64], mask);
    Pow2Of64();
    OrBound(words[s / 64], mask, 64);
    var words' := words[s / 64 := v];
    forall p: Position
      ensures BitOf(words', p) <==> BitOf(words, p) || p in Range(s, n)
    {
      RangeInWord(s, n, p);
      if p / 64 == s / 64 {
        OrBit(words[s / 64], mask, p % 64);
        RangeMaskBit(s % 64, n, p % 64);
      }
    }
  }

  lemma AndNotWord(words: seq<Word>, s: nat, n: nat)
    requires |words| == WORDS && s < WINDOW && s % 64 + n <= 64
    ensures var v := And(words[s / 64], Not(Shl(LowMask(n), s % 64)));
            && v < TWO64
            && Positions(words[s / 64 := v]) == Positions(words) - Range(s, n)
  {
    var mask := Shl(LowMask(n), s % 64);
    var v := And(words[s / 64], Not(mask));
    AndBound(words[s / 64], Not(mask));
    var words' := words[s / 64 := v];
    forall p: Position
      ensures BitOf(words', p) <==> BitOf(words, p) && p !in Range(s, n)
    {
      RangeInWord(s, n, p);
      if p / 64 == s / 64 {
        AndBit(words[s / 64], Not(mask), p % 64);
        NotBit(mask, p % 64);
        RangeMaskBit(s % 64, n, p % 64);
      }
    }
  }

  /** A word meets a mask exactly when one of the masked positions is set. */
  lemma TestWord(words: seq<Word>, s: nat, n: nat)
    requires |words| == WORDS && s < WINDOW && s % 64 + n <= 64
    ensures And(words[s / 64], Shl(LowMask(n), s % 64)) != 0
            <==> !(Positions(words) !! Range(s, n))
  {
    var w, mask := words[s / 64], Shl(LowMask(n), s % 64);
    if And(w, mask) != 0 {
      var i := CountTrailingZeros(And(w, mask));
      AndBit(w, mask, i);
      RangeMaskBit(s % 64, n, i);
      var p := s / 64 * 64 + i;
      assert p / 64 == s / 64 && p % 64 == i;
      RangeInWord(s, n, p);
      assert BitOf(words, p);
      assert p in Positions(words) && p in Range(s, n);
    } else if p: Position :| p in Positions(words) && p in Range(s, n) {
      RangeInWord(s, n, p);
      AndBit(w, mask, p % 64);
      RangeMaskBit(s % 64, n, p % 64);
      ZeroBit(p % 64);
      assert false;
    }
  }

  method SetInWord(bitmap: array<Word>, s: nat, n: nat)
    requires bitmap.Length == WORDS && s < WINDOW && s % 64 + n <= 64
    modifies bitmap
    ensures Positions(bitmap[..]) == old(Positions(bitmap[..])) + Range(s, n)
  {
    ghost var before := bitmap[..];
    OrWord(before, s, n);
    bitmap[s / 64] := Or(bitmap[s / 64], Shl(LowMask(n), s % 64));
    assert bitmap[..] == before[s / 64 := bitmap[s / 64]];
  }

  method ClearInWord(bitmap: array<Word>, s: nat, n: nat)
    requires bitmap.Length == WORDS && s < WINDOW && s % 64 + n <= 64
    modifies bitmap
    ensures Positions(bitmap[..]) == old(Positions(bitmap[..])) - Range(s, n)
  {
    ghost var before := bitmap[..];
    AndNotWord(before, s, n);
    bitmap[s / 64] := And(bitmap[s / 64], Not(Shl(LowMask(n), s % 64)));
    assert bitmap[..] == before[s / 64 := bitmap[s / 64]];
  }

  method TestInWord(bitmap: array<Word>, s: nat, n: nat) returns (found: bool)
    requires bitmap.Length == WORDS && s < WINDOW && s % 64 + n <= 64
    ensures found <==> !(Positions(bitmap[..]) !! Range(s, n))
  {
    TestWord(bitmap[..], s, n);
    found := And(bitmap[s / 64], Shl(LowMask(n), s % 64)) != 0;
  }

  // ---------- The source's loops

  /** How much of the remaining count the word of `s` can take. */
  function InWord(s: nat, left: nat): (n: nat)
    ensures s % 64 + n <= 64 && n <= left && (left > 0 ==> n > 0)
  {
    if left < 64 - s % 64 then left else 64 - s % 64
  }

  lemma NextStart(start: nat, done: nat, n: nat)
    ensures ((start + done) % 65536 + n) % 65536 == (start + done + n) % 65536
  {
  }

  /** Sets exactly the range. */
  method SetRange(bitmap: array<Word>, start: nat, count: nat)
    requires bitmap.Length == WORDS
    modifies bitmap
    ensures Positions(bitmap[..]) == old(Positions(bitmap[..])) + Range(start, count)
  {
    var s, left: nat := start % 65536, count;
    ghost var done := 0;
    while left > 0
      invariant left + done == count && s == (start + done) % 65536
      invariant Positions(bitmap[..]) == old(Positions(bitmap[..])) + Range(start, done)
    {
      var n := InWord(s, left);
      SetInWord(bitmap, s, n);
      ExtendRange(start, done, n);
      NextStart(start, done, n);
      s, left, done := (s + n) % 65536, left - n, done + n;
    }
  }

  /** Clears exactly the range. */
  method ClearRange(bitmap: array<Word>, start: nat, count: nat)
    requires bitmap.Length == WORDS
    modifies bitmap
    ensures Positions(bitmap[..]) == old(Positions(bitmap[..])) - Range(start, count)
  {
    var s, left: nat := start % 65536, count;
    ghost var done := 0;
    while left > 0
      invariant left + done == count && s == (start + done) % 65536
      invariant Positions(bitmap[..]) == old(Positions(bitmap[..])) - Range(start, done)
    {
      var n := InWord(s, left);
      ClearInWord(bitmap, s, n);
      ExtendRange(start, done, n);
      NextStart(start, done, n);
      s, left, done := (s + n) % 65536, left - n, done + n;
    }
  }

  /** "Some position of the range is set", whatever the source's name for it suggests. */
  method IsRangeSet(bitmap: array?<Word>, start: nat, count: nat) returns (found: bool)
    requires bitmap != null ==> bitmap.Length == WORDS
    ensures found <==> bitmap != null && !(Positions(bitmap[..]) !! Range(start, count))
  {
    if bitmap == null || count == 0 {
      return false;
    }
    var s, left: nat := start % 65536, count;
    ghost var done := 0;
    while left > 0
      invariant left + done == count && s == (start + done) % 65536
      invariant Positions(bitmap[..]) !! Range(start, done)
    {
      var n := InWord(s, left);
      ExtendRange(start, done, n);
      ExtendRange(start, done + n, left - n);
      var hit := TestInWord(bitmap, s, n);
      if hit {
        return true;
      }
      NextStart(start, done, n);
      s, left, done := (s + n) % 65536, left - n, done + n;
    }
    return false;
  }

  // ---------- Counting the run of set positions

  /** `n` set positions from `s` on, and then a clear one unless `n` fills the bound. */
  ghost predicate IsRun(filled: set<Position>, s: nat, n: nat, bound: nat) {
    && n <= bound
    && Range(s, n) <= filled
    && (n < bound ==> (s + n) % 65536 !in filled)
  }

  /** Length of the run of ones from bit `offset` to the end of the word, by trailing zeros of the complement. */
  method OnesFrom(w: Word, offset: nat) returns (n: nat)
    requires offset < 64
    ensures n <= 64 - offset
    ensures forall k :: offset <= k < offset + n ==> Bit(w, k)
    ensures n < 64 - offset ==> !Bit(w, offset + n)
  {
    var inverted := Not(Shr(w, offset));
    forall k | offset <= k < 64
      ensures Bit(w, k) == !Bit(inverted, k - offset)
    {
      NotBit(Shr(w, offset), k - offset);
      ShrBit(w, offset, k - offset);
    }
    if inverted == 0 {
      forall i: nat ensures !Bit(inverted, i) { ZeroBit(i); }
      n := 64 - offset;
    } else {
      n := CountTrailingZeros(inverted);
      if n > 64 - offset {
        n := 64 - offset;
      }
    }
  }

  lemma NextInWord(s: Position, n: nat)
    requires n < 64 - s % 64
    ensures (s + n) % 65536 == s + n && (s + n) / 64 == s / 64 && (s + n) % 64 == s % 64 + n
  {
  }

  lemma RunInWord(words: seq<Word>, s: Position, n: nat)
    requires |words| == WORDS && n <= 64 - s % 64
    requires forall k :: s % 64 <= k < s % 64 + n ==> Bit(words[s / 64], k)
    requires n < 64 - s % 64 ==> !Bit(words[s / 64], s % 64 + n)
    ensures IsRun(Positions(words), s, n, 64 - s % 64)
  {
    forall p: Position | p in Range(s, n)
      ensures BitOf(words, p)
    {
      RangeInWord(s, n, p);
    }
    if n < 64 - s % 64 {
      NextInWord(s, n);
      assert !BitOf(words, s + n);
    }
  }

  /** A run inside a word extends the run before it. */
  lemma ExtendRun(filled: set<Position>, start: nat, done: nat, n: nat, room: nat, bound: nat)
    requires Range(start, done) <= filled && done <= bound
    requires IsRun(filled, (start + done) % 65536, n, room)
    ensures var m := if done + n > bound then bound - done else n;
            && Range(start, done + m) <= filled
            && (m < room ==> IsRun(filled, start, done + m, bound))
  {
    var m := if done + n > bound then bound - done else n;
    ExtendRange(start, done, m);
    ExtendRange((start + done) % 65536, m, n - m);
    NextStart(start, done, n);
  }

  /** The length of the run of set positions from `start`, at most `bound`. */
  method CountContinuous(bitmap: array<Word>, start: nat, bound: nat) returns (assembled: nat)
    requires bitmap.Length == WORDS
    ensures IsRun(Positions(bitmap[..]), start, assembled, bound)
  {
    assembled := 0;
    while assembled < bound
      invariant assembled <= bound
      invariant Range(start, assembled) <= Positions(bitmap[..])
    {
      var index := (start + assembled) % 65536;
      var contiguous := OnesFrom(bitmap[index / 64], index % 64);
      RunInWord(bitmap[..], index, contiguous);
      ExtendRun(Positions(bitmap[..]), start, assembled, contiguous, 64 - index % 64, bound);
      if contiguous == 0 {
        break;
      }
      if assembled + contiguous > bound {
        contiguous := bound - assembled;
      }
      assembled := assembled + contiguous;
      if contiguous < 64 - index % 64 {
        break;
      }
    }
  }
}
