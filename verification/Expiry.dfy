/** What a purge of a session table may do, whatever the sessions are. */
module Expiry {
  import opened Common
  import opened HashTable
  import Words

  /** Elapsed time as the wrapping difference of two 64-bit clock readings. */
  function Elapsed(now: uint64, before: uint64): (ns: uint64)
    ensures ns == if before <= now then now - before else now + 0x1_0000_0000_0000_0000 - before
  {
    (now - before) % Words.TWO64
  }

  /** From `before` to `after` only expired sessions went, and exactly those were deleted. */
  ghost predicate Purged<K(!new), V>(before: map<K, V>, after: map<K, V>, deleted: set<V>, expired: set<K>)
  {
    && after.Keys <= before.Keys && before.Keys - after.Keys <= expired
    && (forall k | k in after :: after[k] == before[k])
    && (forall k | k in before && k !in after :: before[k] in deleted)
    && (forall s | s in deleted :: exists k :: k in before && k !in after && before[k] == s)
  }

  /** Every session of the table before is still there under its key, or was deleted. */
  ghost predicate Accounted<K(!new), V>(before: map<K, V>, after: map<K, V>, freed: set<V>) {
    forall k | k in before :: (k in after && after[k] == before[k]) || before[k] in freed
  }

  /** Taking a key out makes a change of its value undone. */
  lemma ReplacedAndRemoved<K(!new), V>(m: map<K, V>, key: K, v: V)
    ensures m[key := v] - {key} == m - {key}
  {
  }

  lemma PurgedNothing<K(!new), V>(table: map<K, V>, expired: set<K>)
    ensures Purged(table, table, {}, expired)
  {
  }

  lemma PurgedKeeps<K(!new), V>(before: map<K, V>, after: map<K, V>, deleted: set<V>, expired: set<K>)
    requires Purged(before, after, deleted, expired)
    ensures forall k | k in before && k !in expired :: k in after && after[k] == before[k]
  {
    assert forall k | k in before.Keys - after.Keys :: k in expired;
  }

  lemma PurgedOne<K(!new), V>(before: map<K, V>, mid: map<K, V>, deleted: set<V>, expired: set<K>, k: K)
    requires Purged(before, mid, deleted, expired) && k in mid && k in expired
    ensures Purged(before, mid - {k}, deleted + {mid[k]}, expired)
  {
    forall s | s in deleted + {mid[k]}
      ensures exists j :: j in before && j !in mid - {k} && before[j] == s
    {
      if s in deleted {
        var j :| j in before && j !in mid && before[j] == s;
        assert j !in mid - {k};
      } else {
        assert k in before && k !in mid - {k} && before[k] == s;
      }
    }
  }

  /** How far a purge has come: what it deleted, and whether it deleted anything yet. */
  ghost predicate Progressed<K(!new), V>(before: map<K, V>, after: map<K, V>, deleted: set<V>, expired: set<K>,
                                         gone: set<V>, goneNow: set<V>, size: nat, sizeNow: nat)
  {
    && Purged(before, after, deleted, expired)
    && goneNow == gone + deleted && deleted !! gone
    && (deleted == {} ==> after == before && sizeNow == size)
    && (deleted != {} ==> sizeNow < size)
  }

  lemma ProgressedOne<K(!new), V>(before: map<K, V>, mid: map<K, V>, deleted: set<V>, expired: set<K>,
                                  gone: set<V>, goneMid: set<V>, size: nat, sizeMid: nat, k: K)
    requires Progressed(before, mid, deleted, expired, gone, goneMid, size, sizeMid)
    requires k in mid && k in expired && mid[k] !in goneMid && sizeMid > 0
    ensures Progressed(before, mid - {k}, deleted + {mid[k]}, expired, gone, goneMid + {mid[k]}, size, sizeMid - 1)
  {
    PurgedOne(before, mid, deleted, expired, k);
  }

  /** A pass that met no expired key leaves none behind. */
  lemma NoneExpired<K(!new), V>(t: Cells<K, V>, m: map<K, V>, expired: set<K>)
    requires Agrees(t, m) && expired <= m.Keys
    requires forall j | 0 <= j < |t| && t[j].Some? :: t[j].value.key !in expired
    ensures expired == {}
  {
    assert forall k | k in expired :: exists j :: HoldsKey(t, j, k);
  }
}
