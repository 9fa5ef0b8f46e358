/**
  64-bit machine words as numbers below 2^64, and what the shifts, masks and bitwise
  operators of the source do to their binary digits.

  The bitmaps of the engine are arrays of `uint64_t` that are changed with shifted masks.
  The lemmas here give the meaning of those word expressions bit by bit, so that the
  bitmap operations can be proved against sets of positions.
 */
module Words {

  function Pow2(n: nat): (p: nat)
    ensures p >= 1
  {
    if n == 0 then 1 else 2 * Pow2(n - 1)
  }

  const TWO64: nat := 0x1_0000_0000_0000_0000

  type Word = w: nat | w < TWO64

  lemma Pow2Eight(n: nat)
    ensures Pow2(n + 8) == 256 * Pow2(n)
  {
    assert Pow2(n + 2) == 4 * Pow2(n);
    assert Pow2(n + 4) == 4 * Pow2(n + 2);
    assert Pow2(n + 6) == 4 * Pow2(n + 4);
    assert Pow2(n + 8) == 4 * Pow2(n + 6);
  }

  lemma Pow2Of64()
    ensures Pow2(64) == TWO64
  {
    Pow2Eight(0);
    Pow2Eight(8);
    Pow2Eight(16);
    Pow2Eight(24);
    Pow2Eight(32);
    Pow2Eight(40);
    Pow2Eight(48);
    Pow2Eight(56);
  }

  /** Binary digit `i`. */
  predicate Bit(w: nat, i: nat) {
    if i == 0 then w % 2 == 1 else Bit(w / 2, i - 1)
  }

  /** Digit-wise combinations: `a | b`, and `a & b`. */
  function Or(a: nat, b: nat): nat {
    if a == 0 && b == 0 then 0
    else 2 * Or(a / 2, b / 2) + (if a % 2 == 1 || b % 2 == 1 then 1 else 0)
  }

  function And(a: nat, b: nat): nat {
    if a == 0 || b == 0 then 0
    else 2 * And(a / 2, b / 2) + (if a % 2 == 1 && b % 2 == 1 then 1 else 0)
  }

  /** `~w` on 64 bits. */
  function Not(w: Word): Word {
    TWO64 - 1 - w
  }

  /** `w << n` on 64 bits, one place at a time: what leaves the word is lost. */
  function Shl(w: Word, n: nat): Word {
    if n == 0 then w else (2 * Shl(w, n - 1)) % TWO64
  }

  /** `w >> n`. */
  function Shr(w: Word, n: nat): Word
    decreases n
  {
    if n == 0 then w else Shr(w / 2, n - 1)
  }

  /** `n` ones from bit 0 upwards. The source treats 64 apart because it cannot shift by 64. */
  function LowMask(n: nat): Word
    requires n <= 64
  {
    if n == 64 then TWO64 - 1 else
    assert Shl(1, n) == Pow2(n) by { ShlOfOne(n); }
    Shl(1, n) - 1
  }

  /** Number of trailing zeros (`__builtin_ctzll`). */
  function CountTrailingZeros(w: nat): (n: nat)
    requires w != 0
    ensures Bit(w, n)
    ensures forall i: nat :: i < n ==> !Bit(w, i)
  {
    if w % 2 == 1 then 0
    else
      var n := 1 + CountTrailingZeros(w / 2);
      assert forall i: nat :: i < n ==> Bit(w, i) == (if i == 0 then false else Bit(w / 2, i - 1));
      n
  }

  lemma {:induction false} Pow2Monotone(m: nat, n: nat)
    requires m <= n
    ensures Pow2(m) <= Pow2(n)
    ensures m < n ==> 2 * Pow2(m) <= Pow2(n)
  {
    if m < n {
      Pow2Monotone(m, n - 1);
    }
  }

  lemma {:induction false} ShlOfOne(n: nat)
    requires n < 64
    ensures Shl(1, n) == Pow2(n) < TWO64
  {
    Pow2Of64();
    Pow2Monotone(n, 64);
    if n != 0 {
      ShlOfOne(n - 1);
    }
  }

  // ---------- Digits of the word expressions

  lemma OrHalves(a: nat, b: nat)
    ensures Or(a, b) / 2 == Or(a / 2, b / 2)
    ensures Or(a, b) % 2 == 1 <==> a % 2 == 1 || b % 2 == 1
  {
  }

  lemma {:induction false} OrBit(a: nat, b: nat, i: nat)
    ensures Bit(Or(a, b), i) <==> Bit(a, i) || Bit(b, i)
    decreases i
  {
    OrHalves(a, b);
    if i != 0 {
      OrBit(a / 2, b / 2, i - 1);
    }
  }

  lemma AndHalves(a: nat, b: nat)
    ensures And(a, b) / 2 == And(a / 2, b / 2)
    ensures And(a, b) % 2 == 1 <==> a % 2 == 1 && b % 2 == 1
  {
  }

  lemma {:induction false} AndBit(a: nat, b: nat, i: nat)
    ensures Bit(And(a, b), i) <==> Bit(a, i) && Bit(b, i)
    decreases i
  {
    AndHalves(a, b);
    if i != 0 {
      AndBit(a / 2, b / 2, i - 1);
    }
  }

  lemma {:induction false} OrBound(a: nat, b: nat, n: nat)
    requires a < Pow2(n) && b < Pow2(n)
    ensures Or(a, b) < Pow2(n)
    decreases n
  {
    if n != 0 {
      OrBound(a / 2, b / 2, n - 1);
    }
  }

  lemma {:induction false} AndBound(a: nat, b: nat)
    ensures And(a, b) <= a
  {
    if a != 0 && b != 0 {
      AndBound(a / 2, b / 2);
    }
  }

  lemma {:induction false} ZeroBit(i: nat)
    ensures !Bit(0, i)
  {
    if i != 0 {
      ZeroBit(i - 1);
    }
  }

  /** A number below 2^n has no digits from n on. */
  lemma {:induction false} HighBit(w: nat, n: nat, i: nat)
    requires w < Pow2(n) && n <= i
    ensures !Bit(w, i)
    decreases i
  {
    if i == 0 || n == 0 {
      ZeroBit(i);
    } else {
      HighBit(w / 2, n - 1, i - 1);
    }
  }

  lemma {:induction false} ComplementBit(w: nat, n: nat, i: nat)
    requires w < Pow2(n) && i < n
    ensures Bit(Pow2(n) - 1 - w, i) <==> !Bit(w, i)
    decreases i
  {
    if i != 0 {
      assert (Pow2(n) - 1 - w) / 2 == Pow2(n - 1) - 1 - w / 2;
      ComplementBit(w / 2, n - 1, i - 1);
    }
  }

  lemma NotBit(w: Word, i: nat)
    requires i < 64
    ensures Bit(Not(w), i) <==> !Bit(w, i)
  {
    Pow2Of64();
    ComplementBit(w, 64, i);
  }

  lemma {:induction false} ShrBit(w: Word, n: nat, i: nat)
    ensures Bit(Shr(w, n), i) <==> Bit(w, n + i)
    decreases n
  {
    if n != 0 {
      ShrBit(w / 2, n - 1, i);
    }
  }

  lemma {:induction false} LowMaskBit(n: nat, i: nat)
    ensures Bit(Pow2(n) - 1, i) <==> i < n
    decreases i
  {
    if n == 0 {
      ZeroBit(i);
    } else if i != 0 {
      assert (Pow2(n) - 1) / 2 == Pow2(n - 1) - 1;
      LowMaskBit(n - 1, i - 1);
    }
  }

  lemma LowMaskValue(n: nat)
    requires n <= 64
    ensures LowMask(n) == Pow2(n) - 1
  {
    if n < 64 {
      ShlOfOne(n);
    } else {
      Pow2Of64();
    }
  }

  /** Taking the top digit away leaves the others. */
  lemma {:induction false} ClearTopBit(w: nat, n: nat, i: nat)
    requires Pow2(n) <= w && i < n
    ensures Bit(w - Pow2(n), i) <==> Bit(w, i)
    decreases i
  {
    if i != 0 {
      assert (w - Pow2(n)) / 2 == w / 2 - Pow2(n - 1);
      ClearTopBit(w / 2, n - 1, i - 1);
    }
  }

  lemma DoubleBit(w: Word, i: nat)
    ensures Bit((2 * w) % TWO64, i) <==> 0 < i < 64 && Bit(w, i - 1)
  {
    Pow2Of64();
    if i >= 64 {
      HighBit((2 * w) % TWO64, 64, i);
    } else if i != 0 {
      if 2 * w < TWO64 {
        assert (2 * w) % TWO64 / 2 == w;
      } else {
        assert (2 * w) % TWO64 / 2 == w - Pow2(63);
        ClearTopBit(w, 63, i - 1);
      }
    }
  }

  lemma {:induction false} ShlBit(w: Word, n: nat, i: nat)
    requires n <= 64
    ensures Bit(Shl(w, n), i) <==> n <= i < 64 && Bit(w, i - n)
    decreases n
  {
    if n == 0 {
      if i >= 64 {
        Pow2Of64();
        HighBit(w, 64, i);
      }
    } else {
      DoubleBit(Shl(w, n - 1), i);
      if i != 0 {
        ShlBit(w, n - 1, i - 1);
      }
    }
  }

  /** The mask of the source's word loops has exactly the bits `offset .. offset + n`. */
  lemma RangeMaskBit(offset: nat, n: nat, i: nat)
    requires offset + n <= 64
    ensures Bit(Shl(LowMask(n), offset), i) <==> offset <= i < offset + n
  {
    ShlBit(LowMask(n), offset, i);
    LowMaskValue(n);
    if offset <= i {
      LowMaskBit(n, i - offset);
    }
  }
}
