/**
  The fragments of one datagram through the fragment assembler: when it hands over a
  datagram, which one, and what stays in the table.
 */
module UdpTraffic {
  import opened Common
  import opened Fragments
  import opened ReassemblySessions
  import UdpEngine

  /** What the engine does with a fragment whose key has the session `before`, if any: the contract of its fragment path. */
  ghost predicate Treats(before: Option<Assembly>, f: Fragment, after: Option<Assembly>, r: Option<Datagram>) {
    UdpEngine.UdpAssemblerEngine.Outcome(if before.Some? then before.value else Empty(), f, after, r)
  }

  /** The session of a key and the results as the fragments of the key arrive, from a table without the key. */
  ghost predicate Arrive(fs: seq<Fragment>, kept: seq<Option<Assembly>>, rs: seq<Option<Datagram>>) {
    && |kept| == |fs| + 1 && |rs| == |fs| && kept[0].None?
    && forall j {:trigger fs[j]} | 0 <= j < |fs| :: Treats(kept[j], fs[j], kept[j + 1], rs[j])
  }

  ghost predicate AllCovered(fs: seq<Fragment>, d: seq<uint8>) {
    forall i: nat | i < |d| :: Covered(fs, i)
  }

  ghost predicate AllCut(fs: seq<Fragment>, d: seq<uint8>) {
    forall i | 0 <= i < |fs| :: CutFrom(fs[i], d)
  }

  lemma CoveredLater(fs: seq<Fragment>, d: seq<uint8>, j: nat)
    requires j < |fs| && AllCovered(fs[..j], d)
    ensures AllCovered(fs[..j + 1], d)
  {
    var later := fs[..j + 1];
    assert later == fs[..j] + [fs[j]];
    forall i: nat | i < |d|
      ensures Covered(later, i)
    {
      assert Covered(fs[..j], i);
      CoveredMore(fs[..j], fs[j], i);
    }
  }

  /** As long as a byte is missing, the session keeps every fragment and nothing is handed over. */
  lemma {:induction false} Waits(fs: seq<Fragment>, d: seq<uint8>, kept: seq<Option<Assembly>>, rs: seq<Option<Datagram>>, j: nat)
    requires 8 <= |d| <= MAX_DATAGRAM && AllCut(fs, d) && j <= |fs| <= 64 && Arrive(fs, kept, rs)
    requires !AllCovered(fs[..j], d)
    ensures j > 0 ==> kept[j] == AddAll(Empty(), fs[..j])
    ensures forall i | 0 <= i < j :: rs[i].None?
  {
    if j > 0 {
      if AllCovered(fs[..j - 1], d) {
        CoveredLater(fs, d, j - 1);
      }
      Waits(fs, d, kept, rs, j - 1);
      Treated(fs, d, kept, rs, j - 1);
    }
  }

  /** The fragment after some that left a byte missing: the datagram is handed over exactly when none is missing now. */
  lemma Treated(fs: seq<Fragment>, d: seq<uint8>, kept: seq<Option<Assembly>>, rs: seq<Option<Datagram>>, j: nat)
    requires 8 <= |d| <= MAX_DATAGRAM && AllCut(fs, d) && j < |fs| <= 64 && Arrive(fs, kept, rs)
    requires j > 0 ==> kept[j] == AddAll(Empty(), fs[..j])
    ensures if AllCovered(fs[..j + 1], d) then kept[j + 1].None? && rs[j].Some? && Holds(rs[j].value, d)
            else rs[j].None? && kept[j + 1] == AddAll(Empty(), fs[..j + 1])
  {
    var now := fs[..j + 1];
    assert now[..j] == fs[..j] && now[j] == fs[j];
    assert AddAll(Empty(), fs[..0]) == Some(Empty());
    assert Treats(kept[j], fs[j], kept[j + 1], rs[j]);
    AllTrack(now, d);
    AllTrack(fs[..j], d);
    assert AddAll(Empty(), now) == AddFragment(AddAll(Empty(), fs[..j]).value, fs[j]);
    CompleteIsCovered(AddAll(Empty(), now).value, now, d);
    if AllCovered(now, d) {
      var a := AddAll(Empty(), now).value;
      assert a.buffer[8..|d|] == a.buffer[..|d|][8..] && a.buffer[..4] == a.buffer[..|d|][..4];
    }
  }

  /** The ports in the UDP header of `d`, in network order, and the bytes behind the header. */
  ghost predicate Holds(r: Datagram, d: seq<uint8>)
    requires 8 <= |d|
  {
    BigEndian(r.srcPort) + BigEndian(r.dstPort) == d[..4] && r.payload == d[8..]
  }

  /**
    For any order, duplication and aligned overlap of at most 64 fragments of one datagram:
    nothing is handed over while a byte is missing; the fragment that brings the last missing
    byte hands over the ports and the payload of the datagram, and the session is gone.
   */
  lemma HandedOver(fs: seq<Fragment>, d: seq<uint8>, kept: seq<Option<Assembly>>, rs: seq<Option<Datagram>>)
    requires 8 <= |d| <= 65535 && AllCut(fs, d) && 0 < |fs| <= 64 && Arrive(fs, kept, rs)
    requires !AllCovered(fs[..|fs| - 1], d)
    ensures forall i | 0 <= i < |fs| - 1 :: rs[i].None? && kept[i + 1].Some?
    ensures var r := rs[|fs| - 1];
            && (r.Some? <==> AllCovered(fs, d)) && (r.Some? <==> kept[|fs|].None?)
            && (r.Some? ==> Holds(r.value, d))
  {
    var last := |fs| - 1;
    forall i | 0 <= i < last
      ensures rs[i].None? && kept[i + 1].Some?
    {
      MissingEarlier(fs, d, i + 1, last);
      Waits(fs, d, kept, rs, i + 1);
      AllTrack(fs[..i + 1], d);
    }
    Waits(fs, d, kept, rs, last);
    Treated(fs, d, kept, rs, last);
    AllTrack(fs, d);
    assert fs[..|fs|] == fs;
  }

  lemma {:induction false} MissingEarlier(fs: seq<Fragment>, d: seq<uint8>, i: nat, j: nat)
    requires i <= j <= |fs| && !AllCovered(fs[..j], d)
    ensures !AllCovered(fs[..i], d)
    decreases j - i
  {
    if i < j {
      MissingEarlier(fs, d, i + 1, j);
      if AllCovered(fs[..i], d) {
        CoveredLater(fs, d, i);
      }
    }
  }
}
