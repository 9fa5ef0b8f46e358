/** The open-addressing hash map that indexes every session table. */
module HashMap {
  import opened Common
  import opened HashTable

  const MAX_SEARCH: nat := 64

  class SingleThreadHashMap<K(!new, ==), V> {
    const hash: K -> nat
    const cells: array<Option<Entry<K, V>>>
    var size: nat
    /** The entries of the map. */
    ghost var contents: map<K, V>

    ghost predicate Valid()
      reads this, cells
    {
      && cells.Length > 0
      && WellFormed(hash, cells[..])
      && Agrees(cells[..], contents)
      && size == Used(cells[..])
    }

    constructor (capacity: nat, hash: K -> nat)
      requires capacity > 0
      ensures Valid() && fresh(cells) && this.hash == hash && cells.Length == capacity
      ensures contents == map[] && size == 0
    {
      this.hash := hash;
      this.cells := new Option<Entry<K, V>>[capacity](_ => None);
      this.size := 0;
      this.contents := map[];
      new;
      UsedNone(cells[..], cells.Length);
    }

    /**
      The probe loop of all operations: from the home cell of the key on, until an empty
      cell, the key, or `limit` cells have been looked at.
     */
    method Probe(key: K, limit: nat) returns (idx: nat, probes: nat)
      requires Valid() && limit <= cells.Length
      ensures probes <= limit && Passed(hash, cells[..], key, probes)
      ensures probes < limit ==>
                && idx < cells.Length && Dist(cells.Length, Home(hash, cells.Length, key), idx) == probes
                && (cells[idx].Some? ==> cells[idx].value.key == key)
    {
      var n := cells.Length;
      idx, probes := Home(hash, n, key), 0;
      while probes < limit
        invariant probes <= limit && idx < n
        invariant probes < n ==> Dist(n, Home(hash, n, key), idx) == probes
        invariant Passed(hash, cells[..], key, probes)
      {
        if cells[idx].None? || cells[idx].value.key == key {
          return;
        }
        PassedMore(hash, cells[..], key, probes, idx);
        idx, probes := Next(n, idx), probes + 1;
      }
    }

    /** Returns true exactly for a new key that found room; an existing key gets the new value. */
    method Emplace(key: K, val: V) returns (inserted: bool)
      requires Valid()
      modifies this, cells
      ensures Valid()
      ensures inserted <==> key !in old(contents) && old(size) < cells.Length
      ensures contents == if key in old(contents) || inserted then old(contents)[key := val] else old(contents)
      ensures size == old(size) + if inserted then 1 else 0
    {
      var idx, probes := Probe(key, cells.Length);
      ghost var was := cells[..];
      FullTable(was);
      if probes == cells.Length {
        NotFound(hash, was, key, probes, 0);
        return false;
      }
      inserted := cells[idx].None?;
      if inserted {
        InsertKeeps(hash, was, contents, key, val, probes, idx);
        size := size + 1;
      } else {
        assert HoldsKey(was, idx, key);
        UpdateKeeps(hash, was, contents, key, val, idx);
      }
      cells[idx] := Some(Entry(key, val));
      assert cells[..] == was[idx := Some(Entry(key, val))];
      contents := contents[key := val];
    }

    /** Finds a key exactly when it sits fewer than 64 cells after its home cell. */
    method Find(key: K) returns (r: Option<V>)
      requires Valid()
      ensures r.Some? <==> exists i :: HoldsKey(cells[..], i, key) && Displacement(hash, cells[..], i) < 64
      ensures r.Some? ==> key in contents && r.value == contents[key]
    {
      var idx, probes := Probe(key, if cells.Length < MAX_SEARCH then cells.Length else MAX_SEARCH);
      ghost var t := cells[..];
      if probes < cells.Length && probes < MAX_SEARCH {
        r := if cells[idx].Some? then Some(cells[idx].value.val) else None;
        if r.Some? {
          assert HoldsKey(t, idx, key) && Displacement(hash, t, idx) < MAX_SEARCH;
        } else {
          NotFound(hash, t, key, probes, idx);
        }
      } else {
        r := None;
      }
    }

    /**
      The backward shift: moves keys back until the hole can be left empty. Every move brings
      a key nearer to its home cell, so the loop ends even on a full table.
     */
    method ShiftBack(hole: nat, ghost m: map<K, V>)
      requires hole < cells.Length && Shifting(hash, cells[..][hole := None], m, hole, hole)
      modifies cells
      ensures WellFormed(hash, cells[..]) && Agrees(cells[..], m)
      ensures Used(cells[..]) == old(Used(cells[..][hole := None]))
    {
      var n, i: nat, j: nat := cells.Length, hole, hole;
      // The table as it is without the stale entry in the hole.
      ghost var t := cells[..][hole := None];
      while true
        invariant i < n && j < n && |t| == n && cells[..][i := None] == t
        invariant Shifting(hash, t, m, i, j) && Used(t) == old(Used(cells[..][hole := None]))
        decreases TotalDisplacement(hash, t), n - Dist(n, i, j)
      {
        var next := Next(n, j);
        if next == i || cells[next].None? {
          assert next != i ==> t[next].None?;
          CloseHole(hash, t, m, i, j);
          break;
        }
        assert t[next] == cells[next];
        var k := Home(hash, n, cells[next].value.key);
        CanShiftIsOnPath(n, i, next, k);
        if CanShift(i, next, k) {
          MoveIntoHole(hash, t, m, i, j, next);
          ghost var before := cells[..];
          MoveEntry(before, i, next);
          cells[i] := cells[next];
          assert cells[..] == before[i := before[next]];
          t := t[i := t[next]][next := None];
          i := next;
        } else {
          ScanOn(hash, t, m, i, j);
        }
        j := next;
      }
      cells[i] := None;
      assert cells[..] == t;
    }

    /** Removes the key, wherever it sits. */
    method Erase(key: K) returns (erased: bool)
      requires Valid()
      modifies this, cells
      ensures Valid()
      ensures erased <==> key in old(contents)
      ensures contents == old(contents) - {key}
      ensures size == old(size) - if erased then 1 else 0
    {
      var i, probes := Probe(key, cells.Length);
      ghost var was := cells[..];
      if probes == cells.Length || cells[i].None? {
        NotFound(hash, was, key, probes, if probes == cells.Length then 0 else i);
        assert key !in contents;
        return false;
      }
      assert HoldsKey(was, i, key);
      OpenHole(hash, was, contents, key, i);
      ShiftBack(i, contents - {key});
      contents := contents - {key};
      size := size - 1;
      return true;
    }
  }

  lemma MoveEntry<T>(a: seq<Option<T>>, i: nat, j: nat)
    requires i < |a| && j < |a| && i != j
    ensures a[i := a[j]][j := None] == a[i := None][i := a[i := None][j]][j := None]
  {
  }

  lemma {:induction false} UsedNone<K, V>(t: Cells<K, V>, k: nat)
    requires k <= |t| && forall i | 0 <= i < |t| :: t[i].None?
    ensures Sum(UsedWeight(), t, k) == 0
  {
    if k != 0 {
      UsedNone(t, k - 1);
    }
  }
}
