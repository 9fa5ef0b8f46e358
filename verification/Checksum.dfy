/**
  The Internet checksum (RFC 1071): the wide-word check of received IPv4 headers and the
  byte-pair computation of the header check field (section 3.1 of RFC 791).
 */
module Checksum {
  import opened Common

  const ONES: nat := 0xFFFF

  /** The sum of the big-endian 16-bit words; an odd last byte is padded with zero. */
  function WordSum(h: seq<uint8>): nat {
    if |h| == 0 then 0
    else if |h| == 1 then 256 * h[0] as nat
    else 256 * h[0] as nat + h[1] as nat + WordSum(h[2..])
  }

  /** One's-complement reduction to 16 bits: carries are added back until none is left. */
  function Folded(x: nat): (r: nat)
    ensures r <= ONES
  {
    if x < TWO16 then x else Folded(x % TWO16 + x / TWO16)
  }

  function HeaderWords(h: seq<uint8>): nat
    requires |h| > 0
  {
    h[0] as nat % 16
  }

  /** A header is valid when its one's-complement sum is all ones. */
  ghost predicate HeaderValid(h: seq<uint8>)
    requires |h| > 0 && |h| >= 4 * HeaderWords(h)
  {
    HeaderWords(h) >= 5 && Folded(WordSum(h[..4 * HeaderWords(h)])) == ONES
  }

  /** Little-endian loads, as on the host. */
  function Load32(h: seq<uint8>, i: nat): nat
    requires i + 4 <= |h|
  {
    h[i] as nat + 256 * h[i + 1] as nat + TWO16 * h[i + 2] as nat + 0x100_0000 * h[i + 3] as nat
  }

  function Load64(h: seq<uint8>, i: nat): nat
    requires i + 8 <= |h|
  {
    Load32(h, i) + TWO32 * Load32(h, i + 4)
  }

  // ---------- Sums modulo 2^16 - 1

  lemma AddCarry(x: nat)
    ensures (x % TWO16 + x / TWO16) % ONES == x % ONES
  {
    var q := x / TWO16;
    assert x == x % TWO16 + q + ONES * q;
  }

  lemma {:induction false} FoldedMod(x: nat)
    ensures Folded(x) % ONES == x % ONES
    ensures Folded(x) == 0 <==> x == 0
  {
    if x >= TWO16 {
      AddCarry(x);
      FoldedMod(x % TWO16 + x / TWO16);
    }
  }

  /** The folded sum is all ones exactly for the positive multiples of 2^16 - 1. */
  lemma AllOnes(x: nat)
    ensures Folded(x) == ONES <==> x > 0 && x % ONES == 0
  {
    FoldedMod(x);
  }

  lemma {:induction false} WordSumAppend(a: seq<uint8>, b: seq<uint8>)
    requires |a| % 2 == 0
    ensures WordSum(a + b) == WordSum(a) + WordSum(b)
  {
    if a == [] {
      assert a + b == b;
    } else {
      WordSumAppend(a[2..], b);
      assert (a + b)[2..] == a[2..] + b;
    }
  }

  // ---------- The check of a received header

  lemma SplitWide(low: nat, high: nat)
    requires low < TWO32
    ensures (low + TWO32 * high) % TWO32 == low && (low + TWO32 * high) / TWO32 == high
  {
  }

  ghost predicate Stands(acc: nat, sum: nat, n: nat) {
    acc % ONES == (256 * sum) % ONES && acc <= (TWO32 - 1) * n
  }

  /** `acc` stands for the first `n` 32-bit words: byte order costs a factor of 256. */
  ghost predicate Accumulated(acc: nat, h: seq<uint8>, n: nat)
    requires 4 * n <= |h|
  {
    && Stands(acc, WordSum(h[..4 * n]), n)
    && (n > 0 ==> acc >= h[0] as nat)
  }

  lemma AddCongruent(x: nat, y: nat, dx: nat, dy: nat, k: int)
    requires x % ONES == y % ONES && dx == dy + ONES * k
    ensures (x + dx) % ONES == (y + dy) % ONES
  {
    assert x == ONES * (x / ONES) + x % ONES && y == ONES * (y / ONES) + y % ONES;
    assert x + dx - (y + dy) == ONES * (x / ONES - y / ONES + k);
    SameRemainder(x + dx, y + dy, x / ONES - y / ONES + k);
  }

  lemma SameRemainder(x: nat, y: nat, k: int)
    requires x == y + ONES * k
    ensures x % ONES == y % ONES
  {
  }

  lemma PairSum(b: seq<uint8>)
    requires |b| == 2
    ensures WordSum(b) == 256 * b[0] as nat + b[1] as nat
  {
    assert WordSum(b[2..]) == 0;
  }

  /** A little-endian 32-bit word is 256 times its big-endian halves, up to multiples of 2^16 - 1. */
  lemma WordCongruent(h: seq<uint8>, n: nat) returns (k: int)
    requires 4 * n + 4 <= |h|
    ensures Load32(h, 4 * n) == 256 * WordSum(h[4 * n..4 * n + 4]) + ONES * k
    ensures h[4 * n] as nat <= Load32(h, 4 * n) < TWO32
  {
    var b := h[4 * n..4 * n + 4];
    PairSum(b[2..]);
    k := 256 * b[3] as nat - b[0] as nat;
  }

  lemma StandsMore(acc: nat, sum: nat, n: nat, word: nat, more: nat, k: int)
    requires Stands(acc, sum, n) && word < TWO32 && word == 256 * more + ONES * k
    ensures Stands(acc + word, sum + more, n + 1)
  {
    AddCongruent(acc, 256 * sum, word, 256 * more, k);
  }

  lemma NextWord(h: seq<uint8>, i: nat)
    requires i % 2 == 0 && i + 4 <= |h|
    ensures WordSum(h[..i + 4]) == WordSum(h[..i]) + WordSum(h[i..i + 4])
  {
    assert h[..i + 4] == h[..i] + h[i..i + 4];
    WordSumAppend(h[..i], h[i..i + 4]);
  }

  lemma AddWord(acc: nat, h: seq<uint8>, n: nat)
    requires 4 * n + 4 <= |h| && Accumulated(acc, h, n)
    ensures Accumulated(acc + Load32(h, 4 * n), h, n + 1)
  {
    var i := 4 * n;
    var k := WordCongruent(h, n);
    NextWord(h, i);
    StandsMore(acc, WordSum(h[..i]), n, Load32(h, i), WordSum(h[i..i + 4]), k);
  }

  lemma Scaled(x: nat)
    ensures (256 * x) % ONES == 0 <==> x % ONES == 0
  {
    if x % ONES == 0 {
      SameRemainder(256 * x, 0, 256 * (x / ONES));
    }
    if (256 * x) % ONES == 0 {
      var k := 256 * x / ONES;
      assert 256 * x == ONES * k;
      SameRemainder(x, 0, 256 * k - x);
    }
  }

  /** Two folds to 32 bits and two folds to 16 bits leave no carry. */
  function FourFolds(acc: nat): nat {
    var acc := acc % TWO32 + acc / TWO32;
    var acc := acc % TWO32 + acc / TWO32;
    var acc := acc % TWO16 + acc / TWO16;
    acc % TWO16 + acc / TWO16
  }

  lemma AddWideCarry(x: nat)
    ensures (x % TWO32 + x / TWO32) % ONES == x % ONES
  {
    var q := x / TWO32;
    assert x == x % TWO32 + q + ONES * (65537 * q);
    SameRemainder(x, x % TWO32 + q, 65537 * q);
  }

  lemma FourFoldsMod(acc: nat)
    requires acc <= 15 * (TWO32 - 1)
    ensures FourFolds(acc) <= ONES && FourFolds(acc) % ONES == acc % ONES
    ensures FourFolds(acc) == 0 <==> acc == 0
  {
    var a := acc % TWO32 + acc / TWO32;
    var b := a % TWO32 + a / TWO32;
    var c := b % TWO16 + b / TWO16;
    AddWideCarry(acc);
    AddWideCarry(a);
    AddCarry(b);
    AddCarry(c);
  }

  /** The folded accumulator is all ones exactly when the big-endian sum is. */
  lemma SameVerdict(acc: nat, h: seq<uint8>, n: nat)
    requires 0 < n <= 15 && 4 * n <= |h| && h[0] > 0 && Accumulated(acc, h, n)
    ensures FourFolds(acc) == ONES <==> Folded(WordSum(h[..4 * n])) == ONES
  {
    FourFoldsMod(acc);
    Scaled(WordSum(h[..4 * n]));
    AllOnes(WordSum(h[..4 * n]));
    assert WordSum(h[..4 * n]) >= 256 * h[0] as nat;
  }

  lemma TwoWords(acc: nat, h: seq<uint8>, i: nat)
    requires 4 * (i + 2) <= |h| && Accumulated(acc, h, i)
    ensures Accumulated(acc + Load32(h, 4 * i) + Load32(h, 4 * (i + 1)), h, i + 2)
  {
    AddWord(acc, h, i);
    AddWord(acc + Load32(h, 4 * i), h, i + 1);
  }

  lemma FiveWords(h: seq<uint8>)
    requires |h| >= 20
    ensures Accumulated(Load32(h, 0) + Load32(h, 4) + Load32(h, 8) + Load32(h, 12) + Load32(h, 16), h, 5)
  {
    assert Accumulated(0, h, 0);
    TwoWords(0, h, 0);
    TwoWords(Load32(h, 0) + Load32(h, 4), h, 2);
    AddWord(Load32(h, 0) + Load32(h, 4) + Load32(h, 8) + Load32(h, 12), h, 4);
  }

  /** The five-word header, with two 64-bit loads and one 32-bit load. */
  method SumFive(h: seq<uint8>) returns (acc: nat)
    requires |h| >= 20
    ensures Accumulated(acc, h, 5)
  {
    var w0 := Load64(h, 0);
    var w1 := Load64(h, 8);
    var w2 := Load32(h, 16);
    SplitWide(Load32(h, 0), Load32(h, 4));
    SplitWide(Load32(h, 8), Load32(h, 12));
    FiveWords(h);
    acc := w0 % TWO32 + w0 / TWO32 + w1 % TWO32 + w1 / TWO32 + w2;
  }

  lemma FourWords(acc: nat, h: seq<uint8>, i: nat)
    requires 4 * (i + 4) <= |h| && Accumulated(acc, h, i)
    ensures Accumulated(
              acc + Load32(h, 4 * i) + Load32(h, 4 * (i + 1)) + Load32(h, 4 * (i + 2)) + Load32(h, 4 * (i + 3)), h, i + 4)
  {
    TwoWords(acc, h, i);
    TwoWords(acc + Load32(h, 4 * i) + Load32(h, 4 * (i + 1)), h, i + 2);
  }

  /** Any header length, four words at a time and then one at a time. */
  method SumWords(h: seq<uint8>, count: nat) returns (acc: nat)
    requires |h| >= 4 * count
    ensures Accumulated(acc, h, count)
  {
    var i, words: nat := 0, count;
    acc := 0;
    while words >= 4
      invariant i + words == count && Accumulated(acc, h, i)
    {
      FourWords(acc, h, i);
      acc := acc + Load32(h, 4 * i);
      acc := acc + Load32(h, 4 * (i + 1));
      acc := acc + Load32(h, 4 * (i + 2));
      acc := acc + Load32(h, 4 * (i + 3));
      i, words := i + 4, words - 4;
    }
    while words > 0
      invariant i + words == count && Accumulated(acc, h, i)
    {
      AddWord(acc, h, i);
      acc := acc + Load32(h, 4 * i);
      i, words := i + 1, words - 1;
    }
  }

  lemma Decides(acc: nat, h: seq<uint8>)
    requires |h| > 0 && |h| >= 4 * HeaderWords(h) && HeaderWords(h) >= 5 && Accumulated(acc, h, HeaderWords(h))
    ensures FourFolds(acc) % TWO16 == ONES <==> HeaderValid(h)
  {
    SameVerdict(acc, h, HeaderWords(h));
    FourFoldsMod(acc);
  }

  /** The wide-word form decides the big-endian one's-complement sum. */
  method IsValidIpv4Checksum(h: seq<uint8>) returns (ok: bool)
    requires |h| > 0 && |h| >= 4 * HeaderWords(h)
    ensures ok <==> HeaderValid(h)
  {
    var ihl := HeaderWords(h);
    if ihl < 5 || ihl > 15 {
      return false;
    }
    var acc;
    if ihl == 5 {
      acc := SumFive(h);
    } else {
      acc := SumWords(h, ihl);
    }
    Decides(acc, h);
    return FourFolds(acc) % TWO16 == ONES;
  }

  // ---------- The check field

  lemma {:induction false} WordSumBound(h: seq<uint8>)
    ensures 2 * WordSum(h) <= ONES * (|h| + |h| % 2)
  {
    if |h| >= 2 {
      WordSumBound(h[2..]);
    }
  }

  lemma NextPair(pkt: seq<uint8>, i: nat)
    requires i % 2 == 0 && i + 2 <= |pkt|
    ensures WordSum(pkt[..i + 2]) == WordSum(pkt[..i]) + (256 * pkt[i] as nat + pkt[i + 1] as nat)
  {
    assert pkt[..i + 2] == pkt[..i] + pkt[i..i + 2];
    WordSumAppend(pkt[..i], pkt[i..i + 2]);
    PairSum(pkt[i..i + 2]);
  }

  lemma AddModulo(x: nat, d: nat)
    ensures (x % TWO32 + d) % TWO32 == (x + d) % TWO32
  {
  }

  lemma ShortSum(h: seq<uint8>)
    requires |h| <= 131074
    ensures WordSum(h) < TWO32
  {
    WordSumBound(h);
  }

  /** The running sum is kept in 32 bits. */
  method SumPairs(pkt: seq<uint8>) returns (sum: nat)
    ensures sum == WordSum(pkt) % TWO32
  {
    var i: nat, n: nat := 0, |pkt|;
    sum := 0;
    while n >= 2
      invariant i + n == |pkt| && i % 2 == 0
      invariant sum == WordSum(pkt[..i]) % TWO32
    {
      NextPair(pkt, i);
      AddModulo(WordSum(pkt[..i]), 256 * pkt[i] as nat + pkt[i + 1] as nat);
      sum := (sum + (256 * pkt[i] as nat + pkt[i + 1] as nat)) % TWO32;
      i, n := i + 2, n - 2;
    }
    assert pkt == pkt[..i] + pkt[i..];
    WordSumAppend(pkt[..i], pkt[i..]);
    AddModulo(WordSum(pkt[..i]), WordSum(pkt[i..]));
    if n != 0 {
      sum := (sum + 256 * pkt[i] as nat) % TWO32;
    }
  }

  method FoldCarries(x: nat) returns (sum: nat)
    ensures sum == Folded(x)
  {
    sum := x;
    while sum / TWO16 != 0
      invariant Folded(sum) == Folded(x)
      decreases sum
    {
      sum := sum % TWO16 + sum / TWO16;
    }
  }

  /** The checksum of a packet; up to 131074 bytes the 32-bit sum cannot wrap. */
  method ComputeChecksum(pkt: seq<uint8>) returns (c: uint16)
    ensures c == ONES - Folded(WordSum(pkt) % TWO32)
    ensures |pkt| <= 131074 ==> c == ONES - Folded(WordSum(pkt))
  {
    var sum := SumPairs(pkt);
    var folded := FoldCarries(sum);
    if |pkt| <= 131074 {
      ShortSum(pkt);
    }
    return ONES - folded;
  }

  /**
    The 32-bit running sum gives the RFC 1071 checksum exactly when the sum fits in 32 bits
    (for every sum below 65535 * 2^32, which covers every packet under 8 GiB).
   */
  lemma WrappedSum(w: nat)
    requires w < ONES * TWO32
    ensures Folded(w % TWO32) == Folded(w) <==> w < TWO32
  {
    if w >= TWO32 {
      var k, r := w / TWO32, w % TWO32;
      FoldedMod(w);
      FoldedMod(r);
      AddWideCarry(w);
      if Folded(r) == Folded(w) {
        NoShift(r, k);
      }
    }
  }

  lemma NoShift(r: nat, k: nat)
    requires 0 < k < ONES
    ensures (r + k) % ONES != r % ONES
  {
  }

  /** `h` with the check field, bytes 10 and 11, set to `c` in network order. */
  ghost function WithCheck(h: seq<uint8>, c: uint16): seq<uint8>
    requires |h| >= 12
  {
    h[..10] + [(c / 256) as uint8, (c % 256) as uint8] + h[12..]
  }

  /** The check field adds its own value to the sum. */
  lemma CheckAdds(h: seq<uint8>, c: uint16)
    requires |h| >= 12
    ensures WordSum(WithCheck(h, c)) == WordSum(h[..10]) + c + WordSum(h[12..])
  {
    var field := [(c / 256) as uint8, (c % 256) as uint8];
    WordSumAppend(h[..10], field);
    WordSumAppend(h[..10] + field, h[12..]);
    assert WordSum(field[2..]) == 0;
    assert WordSum(field) == c;
  }

  /** A header whose check field is the checksum over the header with field zero sums to all ones. */
  lemma FilledSum(h: seq<uint8>, c: uint16)
    requires |h| >= 12 && c == ONES - Folded(WordSum(WithCheck(h, 0)))
    ensures Folded(WordSum(WithCheck(h, c))) == ONES
  {
    CheckAdds(h, 0);
    CheckAdds(h, c);
    var w := WordSum(WithCheck(h, 0));
    FoldedMod(w);
    AllOnes(w + c);
    AddCongruent(w, Folded(w), c, ONES - Folded(w), 0);
  }

  /** Every header filled in by the packet builder passes the receiver's check. */
  method FillChecksum(header: array<uint8>)
    requires header.Length == 20 && header[0] as nat % 16 == 5
    modifies header
    ensures forall i | 0 <= i < 20 && i != 10 && i != 11 :: header[i] == old(header[i])
    ensures HeaderWords(header[..]) == 5 && HeaderValid(header[..])
  {
    header[10], header[11] := 0, 0;
    assert header[..] == WithCheck(header[..], 0);
    var c := ComputeChecksum(header[..]);
    FilledSum(header[..], c);
    ghost var filled := WithCheck(header[..], c);
    header[10], header[11] := (c / 256) as uint8, (c % 256) as uint8;
    assert header[..] == filled && filled[..20] == filled;
  }
}
