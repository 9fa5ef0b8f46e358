/**
  Linear probing with backward-shift deletion, on tables as values.

  A cell is empty or holds a key and a value. A key may sit any number of cells after its
  home cell; the table is well formed when keys are distinct and the way from a key's home
  cell to the key has no empty cell.
 */
module HashTable {
  import opened Common

  datatype Entry<K, V> = Entry(key: K, val: V)

  type Cells<K, V> = seq<Option<Entry<K, V>>>

  // ---------- The cycle of `n` cells

  /** `(i + 1) & mask`. */
  function Next(n: nat, i: nat): (j: nat)
    requires i < n
    ensures j < n
  {
    if i + 1 == n then 0 else i + 1
  }

  /** Number of steps from `a` forward to `b`. */
  function Dist(n: nat, a: nat, b: nat): (d: nat)
    requires a < n && b < n
    ensures d < n
  {
    if a <= b then b - a else b + n - a
  }

  function Home<K>(hash: K -> nat, n: nat, key: K): (i: nat)
    requires n > 0
    ensures i < n
  {
    hash(key) % n
  }

  // ---------- Well-formed tables

  /** Steps from the home cell of the key in cell `i` to cell `i`. */
  ghost function Displacement<K(!new), V>(hash: K -> nat, t: Cells<K, V>, i: nat): (d: nat)
    requires i < |t| && t[i].Some?
    ensures d < |t|
  {
    Dist(|t|, Home(hash, |t|, t[i].value.key), i)
  }

  /** Cell `j` lies on the way from the home cell of the key in cell `i` to cell `i`. */
  ghost predicate OnPath<K(!new), V>(hash: K -> nat, t: Cells<K, V>, i: nat, j: nat)
    requires i < |t| && j < |t| && t[i].Some?
  {
    Dist(|t|, Home(hash, |t|, t[i].value.key), j) < Displacement(hash, t, i)
  }

  ghost predicate HoldsKey<K(!new), V>(t: Cells<K, V>, i: nat, key: K) {
    i < |t| && t[i].Some? && t[i].value.key == key
  }

  ghost predicate Distinct<K(!new), V>(t: Cells<K, V>) {
    forall k, i, j {:trigger HoldsKey(t, i, k), HoldsKey(t, j, k)} ::
      HoldsKey(t, i, k) && HoldsKey(t, j, k) ==> i == j
  }

  /** No way to a key has an empty cell, except possibly the cell `hole`. */
  ghost predicate PathsBut<K(!new), V>(hash: K -> nat, t: Cells<K, V>, hole: int) {
    forall i, j {:trigger OnPath(hash, t, i, j)} |
      0 <= i < |t| && 0 <= j < |t| && t[i].Some? && OnPath(hash, t, i, j) :: t[j].Some? || j == hole
  }

  ghost predicate WellFormed<K(!new), V>(hash: K -> nat, t: Cells<K, V>) {
    Distinct(t) && PathsBut(hash, t, -1)
  }

  /** The table holds exactly the entries of `m`. */
  ghost predicate Agrees<K(!new), V>(t: Cells<K, V>, m: map<K, V>) {
    && (forall i | 0 <= i < |t| && t[i].Some? :: t[i].value.key in m && m[t[i].value.key] == t[i].value.val)
    && (forall k | k in m :: exists i :: HoldsKey(t, i, k))
  }

  // ---------- Sums over the cells

  ghost function Sum<K, V>(weight: (nat, Option<Entry<K, V>>) -> nat, t: Cells<K, V>, k: nat): nat
    requires k <= |t|
  {
    if k == 0 then 0 else Sum(weight, t, k - 1) + weight(k - 1, t[k - 1])
  }

  lemma {:induction false} SumUpdate<K, V>(
    weight: (nat, Option<Entry<K, V>>) -> nat, t: Cells<K, V>, k: nat, i: nat, c: Option<Entry<K, V>>)
    requires k <= |t| && i < |t|
    ensures Sum(weight, t[i := c], k) == Sum(weight, t, k) + if i < k then weight(i, c) - weight(i, t[i]) else 0
  {
    if k != 0 {
      SumUpdate(weight, t, k - 1, i, c);
    }
  }

  ghost function UsedWeight<K, V>(): (nat, Option<Entry<K, V>>) -> nat {
    (i: nat, c: Option<Entry<K, V>>) => if c.Some? then 1 else 0
  }

  /** Number of cells in use. */
  ghost function Used<K, V>(t: Cells<K, V>): nat {
    Sum(UsedWeight(), t, |t|)
  }

  ghost function DisplacementWeight<K, V>(hash: K -> nat, n: nat): (nat, Option<Entry<K, V>>) -> nat {
    (i: nat, c: Option<Entry<K, V>>) => if i < n && c.Some? then Dist(n, Home(hash, n, c.value.key), i) else 0
  }

  /** Total displacement of the stored keys. */
  ghost function TotalDisplacement<K, V>(hash: K -> nat, t: Cells<K, V>): nat {
    Sum(DisplacementWeight(hash, |t|), t, |t|)
  }

  lemma {:induction false} UsedBound<K, V>(t: Cells<K, V>, k: nat)
    requires k <= |t|
    ensures Sum(UsedWeight(), t, k) <= k
    ensures Sum(UsedWeight(), t, k) == k <==> forall i | 0 <= i < k :: t[i].Some?
  {
    if k != 0 {
      UsedBound(t, k - 1);
    }
  }

  /** The table is full exactly when every cell is in use. */
  lemma FullTable<K, V>(t: Cells<K, V>)
    ensures Used(t) <= |t|
    ensures Used(t) == |t| <==> forall i | 0 <= i < |t| :: t[i].Some?
  {
    UsedBound(t, |t|);
  }

  // ---------- Searching

  /** The `probes` cells from the home cell of `key` on are in use and hold other keys. */
  ghost predicate Passed<K(!new), V>(hash: K -> nat, t: Cells<K, V>, key: K, probes: nat)
    requires |t| > 0
  {
    forall j | 0 <= j < |t| && Dist(|t|, Home(hash, |t|, key), j) < probes :: t[j].Some? && t[j].value.key != key
  }

  /** One cell more with another key. */
  lemma PassedMore<K(!new), V>(hash: K -> nat, t: Cells<K, V>, key: K, probes: nat, idx: nat)
    requires |t| > 0 && Passed(hash, t, key, probes) && probes < |t|
    requires idx < |t| && Dist(|t|, Home(hash, |t|, key), idx) == probes
    requires t[idx].Some? && t[idx].value.key != key
    ensures Passed(hash, t, key, probes + 1)
    ensures probes + 1 < |t| ==> Dist(|t|, Home(hash, |t|, key), Next(|t|, idx)) == probes + 1
  {
    forall j | 0 <= j < |t| && Dist(|t|, Home(hash, |t|, key), j) < probes + 1
      ensures t[j].Some? && t[j].value.key != key
    {
      assert j == idx || Dist(|t|, Home(hash, |t|, key), j) < probes;
    }
  }

  /** After passing up to an empty cell, or all cells, the key is nowhere. */
  lemma NotFound<K(!new), V>(hash: K -> nat, t: Cells<K, V>, key: K, probes: nat, idx: nat)
    requires |t| > 0 && PathsBut(hash, t, -1) && Passed(hash, t, key, probes)
    requires probes >= |t| || (idx < |t| && Dist(|t|, Home(hash, |t|, key), idx) == probes && t[idx].None?)
    ensures forall i: nat :: !HoldsKey(t, i, key)
  {
    assert forall i: nat :: HoldsKey(t, i, key) && probes < |t| && i != idx ==> OnPath(hash, t, i, idx);
  }

  /** Changing the entry of one cell changes the entry of its key. */
  lemma WriteAgrees<K(!new), V>(t: Cells<K, V>, m: map<K, V>, key: K, val: V, idx: nat)
    requires Agrees(t, m) && idx < |t|
    requires t[idx].None? || t[idx].value.key == key
    requires forall i: nat :: HoldsKey(t, i, key) ==> i == idx
    ensures Agrees(t[idx := Some(Entry(key, val))], m[key := val])
  {
    var t', m' := t[idx := Some(Entry(key, val))], m[key := val];
    forall i | 0 <= i < |t'| && t'[i].Some?
      ensures t'[i].value.key in m' && m'[t'[i].value.key] == t'[i].value.val
    {
      assert i != idx ==> !HoldsKey(t, i, key);
    }
    forall k | k in m'
      ensures exists i :: HoldsKey(t', i, k)
    {
      if k == key {
        assert HoldsKey(t', idx, key);
      } else {
        var i :| HoldsKey(t, i, k);
        assert HoldsKey(t', i, k);
      }
    }
  }

  lemma WriteDistinct<K(!new), V>(t: Cells<K, V>, key: K, val: V, idx: nat)
    requires Distinct(t) && idx < |t|
    requires forall i: nat :: HoldsKey(t, i, key) ==> i == idx
    ensures Distinct(t[idx := Some(Entry(key, val))])
  {
    var t' := t[idx := Some(Entry(key, val))];
    forall k, i: nat, j: nat | HoldsKey(t', i, k) && HoldsKey(t', j, k)
      ensures i == j
    {
      assert i != idx ==> HoldsKey(t, i, k);
      assert j != idx ==> HoldsKey(t, j, k);
    }
  }

  lemma WritePaths<K(!new), V>(hash: K -> nat, t: Cells<K, V>, key: K, val: V, idx: nat)
    requires PathsBut(hash, t, -1) && idx < |t|
    requires (t[idx].Some? && t[idx].value.key == key) ||
             forall j | 0 <= j < |t| && Dist(|t|, Home(hash, |t|, key), j) < Dist(|t|, Home(hash, |t|, key), idx) :: t[j].Some?
    ensures PathsBut(hash, t[idx := Some(Entry(key, val))], -1)
  {
    var t' := t[idx := Some(Entry(key, val))];
    forall i, j | 0 <= i < |t| && 0 <= j < |t| && t'[i].Some? && OnPath(hash, t', i, j)
      ensures t'[j].Some?
    {
      assert t[i].Some? && t[i].value.key == t'[i].value.key ==> OnPath(hash, t, i, j);
    }
  }

  /** Writing a new key into the first empty cell of its way. */
  lemma InsertKeeps<K(!new), V>(hash: K -> nat, t: Cells<K, V>, m: map<K, V>, key: K, val: V, probes: nat, idx: nat)
    requires |t| > 0 && WellFormed(hash, t) && Agrees(t, m) && Passed(hash, t, key, probes)
    requires idx < |t| && Dist(|t|, Home(hash, |t|, key), idx) == probes && t[idx].None?
    ensures key !in m
    ensures var t' := t[idx := Some(Entry(key, val))];
            WellFormed(hash, t') && Agrees(t', m[key := val]) && Used(t') == Used(t) + 1
  {
    NotFound(hash, t, key, probes, idx);
    SumUpdate(UsedWeight(), t, |t|, idx, Some(Entry(key, val)));
    WriteAgrees(t, m, key, val, idx);
    WriteDistinct(t, key, val, idx);
    WritePaths(hash, t, key, val, idx);
  }

  /** Writing a new value to a key that is there. */
  lemma UpdateKeeps<K(!new), V>(hash: K -> nat, t: Cells<K, V>, m: map<K, V>, key: K, val: V, idx: nat)
    requires WellFormed(hash, t) && Agrees(t, m) && HoldsKey(t, idx, key)
    ensures key in m
    ensures var t' := t[idx := Some(Entry(key, val))];
            WellFormed(hash, t') && Agrees(t', m[key := val]) && Used(t') == Used(t)
  {
    SumUpdate(UsedWeight(), t, |t|, idx, Some(Entry(key, val)));
    WriteAgrees(t, m, key, val, idx);
    WriteDistinct(t, key, val, idx);
    WritePaths(hash, t, key, val, idx);
  }

  // ---------- Backward-shift deletion

  /** The keys right after the hole, up to cell `j`, do not need the hole on their way. */
  ghost predicate Scanned<K(!new), V>(hash: K -> nat, t: Cells<K, V>, hole: nat, j: nat)
    requires hole < |t| && j < |t|
  {
    forall p | 0 <= p < |t| && t[p].Some? && 0 < Dist(|t|, hole, p) <= Dist(|t|, hole, j) :: !OnPath(hash, t, p, hole)
  }

  /** While the hole moves: well formed but for the hole, and scanned up to cell `j`. */
  ghost predicate Shifting<K(!new), V>(hash: K -> nat, t: Cells<K, V>, m: map<K, V>, hole: nat, j: nat) {
    && hole < |t| && j < |t| && t[hole].None?
    && Distinct(t) && Agrees(t, m)
    && PathsBut(hash, t, hole) && Scanned(hash, t, hole, j)
  }

  lemma OpenAgrees<K(!new), V>(t: Cells<K, V>, m: map<K, V>, key: K, i: nat)
    requires Distinct(t) && Agrees(t, m) && HoldsKey(t, i, key)
    ensures Distinct(t[i := None]) && Agrees(t[i := None], m - {key})
  {
    var t', m' := t[i := None], m - {key};
    forall k, p: nat, q: nat | HoldsKey(t', p, k) && HoldsKey(t', q, k)
      ensures p == q
    {
      assert HoldsKey(t, p, k) && HoldsKey(t, q, k);
    }
    forall p | 0 <= p < |t'| && t'[p].Some?
      ensures t'[p].value.key in m'
    {
      assert HoldsKey(t, p, t[p].value.key);
    }
    forall k | k in m'
      ensures exists i :: HoldsKey(t', i, k)
    {
      var p :| HoldsKey(t, p, k);
      assert HoldsKey(t', p, k);
    }
  }

  /** Taking a key out opens the hole. */
  lemma OpenHole<K(!new), V>(hash: K -> nat, t: Cells<K, V>, m: map<K, V>, key: K, i: nat)
    requires WellFormed(hash, t) && Agrees(t, m) && HoldsKey(t, i, key)
    ensures key in m
    ensures Shifting(hash, t[i := None], m - {key}, i, i)
    ensures Used(t[i := None]) == Used(t) - 1
  {
    var t' := t[i := None];
    SumUpdate(UsedWeight(), t, |t|, i, None);
    OpenAgrees(t, m, key, i);
    forall p, q | 0 <= p < |t| && 0 <= q < |t| && t'[p].Some? && OnPath(hash, t', p, q)
      ensures t'[q].Some? || q == i
    {
      assert OnPath(hash, t, p, q);
    }
  }

  /** The source's test for moving the key with home cell `k` from `j` into the hole `i`. */
  predicate CanShift(i: nat, j: nat, k: nat) {
    if i <= j then k <= i || k > j else k <= i && k > j
  }

  /** The test asks whether the hole is on the key's way. */
  lemma CanShiftIsOnPath(n: nat, i: nat, j: nat, k: nat)
    requires i < n && j < n && k < n && i != j
    ensures CanShift(i, j, k) <==> Dist(n, k, i) < Dist(n, k, j)
  {
  }

  lemma MoveAgrees<K(!new), V>(t: Cells<K, V>, m: map<K, V>, hole: nat, j: nat)
    requires Distinct(t) && Agrees(t, m) && hole < |t| && j < |t| && hole != j && t[hole].None?
    ensures Distinct(t[hole := t[j]][j := None]) && Agrees(t[hole := t[j]][j := None], m)
  {
    var t' := t[hole := t[j]][j := None];
    forall k, p: nat, q: nat | HoldsKey(t', p, k) && HoldsKey(t', q, k)
      ensures p == q
    {
      assert HoldsKey(t, if p == hole then j else p, k) && HoldsKey(t, if q == hole then j else q, k);
    }
    forall k | k in m
      ensures exists i :: HoldsKey(t', i, k)
    {
      var i :| HoldsKey(t, i, k);
      assert HoldsKey(t', if i == j then hole else i, k);
    }
  }

  lemma MovePaths<K(!new), V>(hash: K -> nat, t: Cells<K, V>, hole: nat, j: nat)
    requires hole < |t| && j < |t| && t[hole].None? && t[j].Some?
    requires PathsBut(hash, t, hole) && OnPath(hash, t, j, hole)
    ensures PathsBut(hash, t[hole := t[j]][j := None], j)
  {
    var t' := t[hole := t[j]][j := None];
    forall p, q | 0 <= p < |t| && 0 <= q < |t| && t'[p].Some? && OnPath(hash, t', p, q)
      ensures t'[q].Some? || q == j
    {
      if p == hole {
        assert OnPath(hash, t, j, q);
      } else {
        assert OnPath(hash, t, p, q);
      }
    }
  }

  lemma MoveSums<K(!new), V>(hash: K -> nat, t: Cells<K, V>, hole: nat, j: nat)
    requires hole < |t| && j < |t| && t[hole].None? && t[j].Some? && OnPath(hash, t, j, hole)
    ensures var t' := t[hole := t[j]][j := None];
            Used(t') == Used(t) && TotalDisplacement(hash, t') < TotalDisplacement(hash, t)
  {
    var w := DisplacementWeight<K, V>(hash, |t|);
    SumUpdate(UsedWeight(), t, |t|, hole, t[j]);
    SumUpdate(UsedWeight(), t[hole := t[j]], |t|, j, None);
    SumUpdate(w, t, |t|, hole, t[j]);
    SumUpdate(w, t[hole := t[j]], |t|, j, None);
  }

  /** Moving the key of cell `j` into the hole makes `j` the hole and brings the key nearer to its home cell. */
  lemma MoveIntoHole<K(!new), V>(hash: K -> nat, t: Cells<K, V>, m: map<K, V>, hole: nat, scanned: nat, j: nat)
    requires Shifting(hash, t, m, hole, scanned)
    requires j < |t| && t[j].Some? && OnPath(hash, t, j, hole)
    ensures var t' := t[hole := t[j]][j := None];
            && Shifting(hash, t', m, j, j)
            && Used(t') == Used(t)
            && TotalDisplacement(hash, t') < TotalDisplacement(hash, t)
  {
    MoveAgrees(t, m, hole, j);
    MovePaths(hash, t, hole, j);
    MoveSums(hash, t, hole, j);
  }

  /** A key that does not need the hole stays. */
  lemma ScanOn<K(!new), V>(hash: K -> nat, t: Cells<K, V>, m: map<K, V>, hole: nat, j: nat)
    requires Shifting(hash, t, m, hole, j)
    requires var next := Next(|t|, j); next != hole && t[next].Some? && !OnPath(hash, t, next, hole)
    ensures Shifting(hash, t, m, hole, Next(|t|, j))
    ensures Dist(|t|, hole, Next(|t|, j)) == Dist(|t|, hole, j) + 1
  {
    var next := Next(|t|, j);
    assert forall p | 0 <= p < |t| && Dist(|t|, hole, p) == Dist(|t|, hole, next) :: p == next;
  }

  /** When the scan meets an empty cell or comes round to the hole, the table is well formed. */
  lemma CloseHole<K(!new), V>(hash: K -> nat, t: Cells<K, V>, m: map<K, V>, hole: nat, j: nat)
    requires Shifting(hash, t, m, hole, j)
    requires var next := Next(|t|, j); next == hole || t[next].None?
    ensures WellFormed(hash, t)
  {
    var next := Next(|t|, j);
    forall p, q | 0 <= p < |t| && 0 <= q < |t| && t[p].Some? && OnPath(hash, t, p, q)
      ensures t[q].Some?
    {
      if q == hole {
        assert next != hole ==> OnPath(hash, t, p, next);
      }
    }
  }
}
