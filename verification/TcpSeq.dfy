/**
  Wrapping TCP sequence numbers and the acceptance test for a data segment
  (section 3.4 of RFC 9293).

  A sequence number is the low 32 bits of a stream offset added to the first sequence
  number of the stream. The lemmas say what the wrapping tests decide about offsets.
 */
module TcpSeq {
  import opened Common

  /** `static_cast<int32_t>(x)`. */
  function Signed(x: uint32): int {
    if x < TWO31 then x else x - TWO32
  }

  function Diff(a: uint32, b: uint32): uint32 { (a - b) % TWO32 }
  function Plus(a: uint32, n: nat): uint32 { (a + n) % TWO32 }

  predicate Lt(a: uint32, b: uint32) { Signed(Diff(a, b)) < 0 }
  predicate Lte(a: uint32, b: uint32) { Signed(Diff(a, b)) <= 0 }
  predicate Gt(a: uint32, b: uint32) { Signed(Diff(a, b)) > 0 }

  /** The window test. The sum is a 32-bit sum, so it wraps. */
  predicate InWindow(seq_: uint32, len: nat, rcvNxt: uint32) {
    (Diff(seq_, rcvNxt) + len) % TWO32 <= WINDOW
  }

  /** Sequence number of stream offset `o`, where `base` is the sequence number of offset 0. */
  function SeqOf(base: int, o: int): uint32 { (base + o) % TWO32 }

  /**
    The segment's end is near enough to the next expected offset that its sequence number
    cannot be mistaken for a later one.
   */
  ghost predicate Fresh(o: int, len: nat, n: int) {
    WINDOW - TWO32 < o + len - n < TWO32
  }

  lemma DiffOf(base: int, a: int, b: int)
    ensures Diff(SeqOf(base, a), SeqOf(base, b)) == (a - b) % TWO32
  {
  }

  /** Near offsets keep their signed distance. */
  lemma SignedDiff(base: int, a: int, b: int)
    requires -TWO31 <= a - b < TWO31
    ensures Signed(Diff(SeqOf(base, a), SeqOf(base, b))) == a - b
    ensures SeqOf(base, a) == SeqOf(base, b) <==> a == b
  {
    DiffOf(base, a, b);
  }

  lemma PlusOf(base: int, o: int, len: nat)
    ensures Plus(SeqOf(base, o), len) == SeqOf(base, o + len)
  {
  }

  /** The test passes exactly when the segment ends 0 to 65536 bytes ahead of the next expected byte. */
  lemma WindowTest(base: int, o: int, len: nat, n: int)
    requires 1 <= len < TWO16 && Fresh(o, len, n)
    ensures InWindow(SeqOf(base, o), len, SeqOf(base, n)) <==> 0 <= o + len - n <= WINDOW
  {
    DiffOf(base, o, n);
    var e := o + len - n;
    assert ((o - n) % TWO32 + len) % TWO32 == e % TWO32;
  }

  /**
    Every segment that passes the test is exactly one of: entirely old, overlapping the next
    expected byte (and then trimmed), or starting at or after it. The last two leave a
    non-empty range inside the window.
   */
  lemma Classification(base: int, o: int, len: nat, n: int)
    requires 1 <= len < TWO16 && 0 <= o + len - n <= WINDOW
    ensures Lte(Plus(SeqOf(base, o), len), SeqOf(base, n)) <==> o + len == n
    ensures Lt(SeqOf(base, o), SeqOf(base, n)) <==> o < n
    ensures Gt(SeqOf(base, o), SeqOf(base, n)) <==> o > n
    ensures SeqOf(base, o) == SeqOf(base, n) <==> o == n
    ensures o < n ==> Diff(SeqOf(base, n), SeqOf(base, o)) == n - o
  {
    SignedDiff(base, o, n);
    SignedDiff(base, o + len, n);
    PlusOf(base, o, len);
    DiffOf(base, n, o);
  }

  /** Any two sequence numbers are those of two offsets; the nearest choice decides the segment. */
  lemma Nearest(seq_: uint32, len: nat, rcvNxt: uint32) returns (o: int)
    requires 1 <= len < TWO16
    ensures Fresh(o, len, 0) && SeqOf(rcvNxt, o) == seq_
    ensures InWindow(seq_, len, rcvNxt) <==> 0 <= o + len <= WINDOW
  {
    var d := Diff(seq_, rcvNxt);
    o := if d + len <= WINDOW then d else d - TWO32;
    assert d + len < TWO32 ==> (d + len) % TWO32 == d + len;
    assert d + len >= TWO32 ==> (d + len) % TWO32 == d + len - TWO32;
  }

  /** The wrapped distance of an offset ahead by less than 2^32. */
  lemma DiffAhead(base: int, a: int, b: int)
    requires 0 <= a - b < TWO32
    ensures Diff(SeqOf(base, a), SeqOf(base, b)) == a - b
  {
    DiffOf(base, a, b);
  }

  lemma TrimIsShorter(seq_: uint32, len: nat, rcvNxt: uint32)
    requires 1 <= len < TWO16
    requires InWindow(seq_, len, rcvNxt) && !Lte(Plus(seq_, len), rcvNxt) && Lt(seq_, rcvNxt)
    ensures 0 < Diff(rcvNxt, seq_) < len
    ensures len - Diff(rcvNxt, seq_) == Diff(Plus(seq_, len), rcvNxt) <= WINDOW
  {
    var o := Nearest(seq_, len, rcvNxt);
    assert SeqOf(rcvNxt, 0) == rcvNxt;
    Classification(rcvNxt, o, len, 0);
    PlusOf(rcvNxt, o, len);
    DiffAhead(rcvNxt, o + len, 0);
    DiffAhead(rcvNxt, 0, o);
  }

  lemma AheadIsInside(seq_: uint32, len: nat, rcvNxt: uint32)
    requires 1 <= len < TWO16
    requires InWindow(seq_, len, rcvNxt) && !Lte(Plus(seq_, len), rcvNxt) && !Lt(seq_, rcvNxt)
    ensures Diff(seq_, rcvNxt) + len <= WINDOW
    ensures Diff(Plus(seq_, len), rcvNxt) == Diff(seq_, rcvNxt) + len
    ensures seq_ == rcvNxt || Gt(seq_, rcvNxt)
  {
  }

  /** How the source's tests classify a segment ahead of the next expected byte, and one at it. */
  lemma SegmentAhead(seq_: uint32, len: nat, rcvNxt: uint32)
    requires 1 <= len < TWO16 && 0 < Diff(seq_, rcvNxt) && Diff(seq_, rcvNxt) + len <= WINDOW
    ensures InWindow(seq_, len, rcvNxt) && !Lte(Plus(seq_, len), rcvNxt) && !Lt(seq_, rcvNxt) && Gt(seq_, rcvNxt)
  {
    assert Diff(Plus(seq_, len), rcvNxt) == Diff(seq_, rcvNxt) + len;
  }

  lemma SegmentAt(rcvNxt: uint32, len: nat)
    requires 1 <= len < TWO16
    ensures InWindow(rcvNxt, len, rcvNxt) && !Lte(Plus(rcvNxt, len), rcvNxt) && !Lt(rcvNxt, rcvNxt) && !Gt(rcvNxt, rcvNxt)
  {
    assert Diff(Plus(rcvNxt, len), rcvNxt) == len;
  }
}
