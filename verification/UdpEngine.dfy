/** The fragment assembler: the table of datagrams under reassembly, expiry, and the treatment of fragments. */
module UdpEngine {
  import opened Common
  import opened Expiry
  import opened Fragments
  import opened HashMap
  import HashTable
  import opened ReassemblySessions

  const MAX_ACTIVE_SESSIONS: nat := 65536
  const TIMEOUT_NS: nat := 10_000_000_000
  const CLEANUP_NS: nat := 1_000_000_000

  type Table = map<FragmentKey, ReassemblySession>

  /** A session of the table was opened for its key, is still there, and does not share its buffers. */
  ghost predicate Held(k: FragmentKey, session: ReassemblySession, gone: set<ReassemblySession>, owner: map<object, FragmentKey>) {
    && session.Valid() && session.key == k && session !in gone
    && session.blockBitmap in owner && owner[session.blockBitmap] == k
    && session.buffer in owner && owner[session.buffer] == k
  }

  ghost predicate AllHeld(table: Table, gone: set<ReassemblySession>, owner: map<object, FragmentKey>) {
    forall k | k in table :: Held(k, table[k], gone, owner)
  }

  lemma HeldRemove(table: Table, gone: set<ReassemblySession>, owner: map<object, FragmentKey>, key: FragmentKey)
    requires AllHeld(table, gone, owner) && key in table
    ensures AllHeld(table - {key}, gone + {table[key]}, owner) && table[key] !in gone
  {
    forall k | k in table - {key}
      ensures Held(k, table[k], gone + {table[key]}, owner)
    {
      assert Held(k, table[k], gone, owner) && Held(key, table[key], gone, owner);
    }
  }

  lemma HeldAdd(table: Table, gone: set<ReassemblySession>, owner: map<object, FragmentKey>, key: FragmentKey,
                session: ReassemblySession)
    requires AllHeld(table, gone, owner) && session.Valid() && session.key == key && session !in gone
    requires session.blockBitmap !in owner && session.buffer !in owner
    ensures AllHeld(table[key := session], gone, owner[session.blockBitmap := key][session.buffer := key])
  {
    var more, after := table[key := session], owner[session.blockBitmap := key][session.buffer := key];
    forall k | k in more
      ensures Held(k, more[k], gone, after)
    {
      assert k != key ==> Held(k, table[k], gone, owner);
    }
  }

  /** Sessions of different keys are different, and so are their buffers. */
  lemma HeldApart(table: Table, gone: set<ReassemblySession>, owner: map<object, FragmentKey>, k: FragmentKey, key: FragmentKey)
    requires AllHeld(table, gone, owner) && k in table && key in table && k != key
    ensures table[k] != table[key]
    ensures table[k].blockBitmap != table[key].blockBitmap && table[k].buffer != table[key].buffer
    ensures (table[k].blockBitmap as object) != table[key].buffer && (table[k].buffer as object) != table[key].blockBitmap
  {
    assert Held(k, table[k], gone, owner) && Held(key, table[key], gone, owner);
  }

  /** A session and its buffers. */
  ghost function Parts(session: ReassemblySession): set<object> {
    {session, session.blockBitmap, session.buffer}
  }

  /** The session of a key, if there is one, and its buffers. */
  ghost function PartsOf(table: Table, key: FragmentKey): set<object> {
    if key in table then Parts(table[key]) else {}
  }

  lemma PartsApart(table: Table, gone: set<ReassemblySession>, owner: map<object, FragmentKey>, key: FragmentKey)
    requires AllHeld(table, gone, owner)
    ensures forall k | k in table && k != key :: Parts(table[k]) !! PartsOf(table, key)
  {
    forall k | k in table && k != key
      ensures Parts(table[k]) !! PartsOf(table, key)
    {
      if key in table {
        HeldApart(table, gone, owner, k, key);
      }
    }
  }

  class UdpAssemblerEngine {
    const sessions: SingleThreadHashMap<FragmentKey, ReassemblySession>
    var lastCleanupNs: uint64
    /** Every session that was deleted or handed to the caller. */
    ghost var gone: set<ReassemblySession>
    /** The key of the session that each buffer was allocated for. */
    ghost var owner: map<object, FragmentKey>

    ghost predicate Valid()
      reads this, sessions, sessions.cells
    {
      && sessions.Valid() && sessions.cells.Length == 2 * MAX_ACTIVE_SESSIONS
      && AllHeld(sessions.contents, gone, owner)
    }

    /** The table's search reaches the key. */
    ghost predicate Visible(key: FragmentKey)
      reads sessions, sessions.cells
    {
      exists i :: HashTable.HoldsKey(sessions.cells[..], i, key)
               && HashTable.Displacement(sessions.hash, sessions.cells[..], i) < 64
    }

    constructor (hash: FragmentKey -> nat)
      ensures Valid() && fresh(sessions) && fresh(sessions.cells)
      ensures sessions.contents == map[] && gone == {}
    {
      sessions := new SingleThreadHashMap(2 * MAX_ACTIVE_SESSIONS, hash);
      lastCleanupNs := 0;
      gone := {};
      owner := map[];
    }

    /** The session leaves the table; it never does so twice. */
    method Remove(key: FragmentKey)
      requires Valid() && key in sessions.contents
      modifies this`gone, sessions, sessions.cells
      ensures Valid()
      ensures old(sessions.contents[key]) !in old(gone) && gone == old(gone) + {old(sessions.contents[key])}
      ensures sessions.contents == old(sessions.contents) - {key} && sessions.size == old(sessions.size) - 1
    {
      HeldRemove(sessions.contents, gone, owner, key);
      gone := gone + {sessions.contents[key]};
      var _ := sessions.Erase(key);
    }

    // ---------- Expiry

    ghost predicate Expired(session: ReassemblySession, now: uint64)
      reads session
    {
      Elapsed(now, session.createdAtNs) > TIMEOUT_NS
    }

    /** `expired` are the keys whose sessions have expired. */
    ghost predicate AreExpired(expired: set<FragmentKey>, now: uint64)
      reads sessions, sessions.contents.Values
    {
      forall k | k in sessions.contents :: k in expired <==> Expired(sessions.contents[k], now)
    }

    /**
      A session is expired exactly when more than 10 s have passed since it was opened. A clock
      reading before that counts as 2^64 ns later.
     */
    lemma ExpiredExactly(session: ReassemblySession, now: uint64)
      ensures session.createdAtNs <= now ==> (Expired(session, now) <==> now - session.createdAtNs > 10_000_000_000)
      ensures now < session.createdAtNs ==>
                (Expired(session, now) <==> session.createdAtNs - now < 18_446_744_063_709_551_616)
    {
    }

    /** The keys whose sessions have expired. */
    ghost function Overdue(now: uint64): set<FragmentKey>
      reads sessions, sessions.contents.Values
    {
      set k | k in sessions.contents && Expired(sessions.contents[k], now)
    }

    method PurgeCell(i: nat, now: uint64, ghost expired: set<FragmentKey>) returns (ghost removed: Option<FragmentKey>)
      requires Valid() && AreExpired(expired, now) && i < sessions.cells.Length
      modifies this`gone, sessions, sessions.cells
      ensures Valid() && AreExpired(expired, now)
      ensures removed.None? ==>
                && sessions.contents == old(sessions.contents) && sessions.size == old(sessions.size)
                && sessions.cells[..] == old(sessions.cells[..]) && gone == old(gone)
                && (sessions.cells[i].Some? ==> sessions.cells[i].value.key !in expired)
      ensures removed.Some? ==>
                var k := removed.value;
                && k in old(sessions.contents) && k in expired && old(sessions.contents)[k] !in old(gone)
                && sessions.contents == old(sessions.contents) - {k} && sessions.size == old(sessions.size) - 1
                && gone == old(gone) + {old(sessions.contents)[k]}
    {
      removed := None;
      var cell := sessions.cells[i];
      if cell.Some? && Elapsed(now, cell.value.val.createdAtNs) > TIMEOUT_NS {
        removed := Some(cell.value.key);
        Remove(cell.value.key);
      }
    }

    /** One more cell of a pass that started with `before` and has deleted `deleted`. */
    method PurgeNext(i: nat, now: uint64, ghost expired: set<FragmentKey>, ghost before: Table,
                     ghost beforeGone: set<ReassemblySession>, ghost beforeSize: nat, ghost deleted: set<ReassemblySession>)
        returns (ghost more: set<ReassemblySession>)
      requires Valid() && AreExpired(expired, now) && i < sessions.cells.Length
      requires Progressed(before, sessions.contents, deleted, expired, beforeGone, gone, beforeSize, sessions.size)
      modifies this`gone, sessions, sessions.cells
      ensures Valid() && AreExpired(expired, now)
      ensures Progressed(before, sessions.contents, more, expired, beforeGone, gone, beforeSize, sessions.size)
      ensures more == {} ==>
                && deleted == {} && sessions.cells[..] == old(sessions.cells[..])
                && (sessions.cells[i].Some? ==> sessions.cells[i].value.key !in expired)
    {
      ghost var mid, midSize, midGone := sessions.contents, sessions.size, gone;
      ghost var removed := PurgeCell(i, now, expired);
      more := deleted;
      if removed.Some? {
        ProgressedOne(before, mid, deleted, expired, beforeGone, midGone, beforeSize, midSize, removed.value);
        more := deleted + {mid[removed.value]};
      }
    }

    /** One pass over the cells of a table that shifts under it. */
    method PurgeCells(now: uint64, ghost expired: set<FragmentKey>) returns (ghost deleted: set<ReassemblySession>)
      requires Valid() && AreExpired(expired, now) && expired <= sessions.contents.Keys
      modifies this`gone, sessions, sessions.cells
      ensures Valid()
      ensures Purged(old(sessions.contents), sessions.contents, deleted, expired)
      ensures gone == old(gone) + deleted && deleted !! old(gone)
      ensures expired != {} ==> sessions.size < old(sessions.size)
    {
      var i := 0;
      deleted := {};
      while i < sessions.cells.Length
        invariant 0 <= i <= sessions.cells.Length && Valid() && AreExpired(expired, now)
        invariant Progressed(old(sessions.contents), sessions.contents, deleted, expired,
                             old(gone), gone, old(sessions.size), sessions.size)
        invariant deleted == {} ==>
                    forall j | 0 <= j < i && sessions.cells[..][j].Some? :: sessions.cells[..][j].value.key !in expired
      {
        deleted := PurgeNext(i, now, expired, old(sessions.contents), old(gone), old(sessions.size), deleted);
        i := i + 1;
      }
      if deleted == {} {
        NoneExpired(sessions.cells[..], sessions.contents, expired);
      }
    }

    /** The purge deletes expired sessions only, each once, and some if there are any. */
    method PurgeExpired(now: uint64) returns (ghost deleted: set<ReassemblySession>)
      requires Valid()
      modifies this`gone, sessions, sessions.cells
      ensures Valid()
      ensures Purged(old(sessions.contents), sessions.contents, deleted, old(Overdue(now)))
      ensures gone == old(gone) + deleted && deleted !! old(gone)
      ensures old(Overdue(now)) != {} ==> sessions.size < old(sessions.size)
      ensures forall k | k in old(sessions.contents) && old(sessions.contents)[k].createdAtNs <= now ::
                var session := old(sessions.contents)[k];
                && (now - session.createdAtNs <= 10_000_000_000 ==> k in sessions.contents && sessions.contents[k] == session)
                && (now - session.createdAtNs > 10_000_000_000 ==> sessions.size < old(sessions.size))
    {
      ghost var expired := Overdue(now);
      deleted := PurgeCells(now, expired);
      PurgedKeeps(old(sessions.contents), sessions.contents, deleted, expired);
      forall k | k in old(sessions.contents) && old(sessions.contents)[k].createdAtNs <= now
        ensures k in expired <==> now - old(sessions.contents)[k].createdAtNs > 10_000_000_000
      {
        ExpiredExactly(old(sessions.contents)[k], now);
      }
    }

    /** What a fragment starts with: a purge, if the last one was more than a second ago. */
    method CleanUp(now: uint64) returns (ghost deleted: set<ReassemblySession>)
      requires Valid()
      modifies this`gone, this`lastCleanupNs, sessions, sessions.cells
      ensures Valid()
      ensures var due := Elapsed(now, old(lastCleanupNs)) > 1_000_000_000;
              && lastCleanupNs == (if due then now else old(lastCleanupNs))
              && (!due ==> sessions.contents == old(sessions.contents) && deleted == {})
              && (due && old(Overdue(now)) != {} ==> sessions.size < old(sessions.size))
      ensures Purged(old(sessions.contents), sessions.contents, deleted, old(Overdue(now)))
      ensures gone == old(gone) + deleted && deleted !! old(gone)
    {
      deleted := {};
      ghost var expired := Overdue(now);
      if Elapsed(now, lastCleanupNs) > CLEANUP_NS {
        deleted := PurgeExpired(now);
        lastCleanupNs := now;
      } else {
        PurgedNothing(sessions.contents, expired);
      }
    }

    // ---------- Fragments

    /** The session is as it was, down to its buffers. */
    static twostate predicate SameSession(session: ReassemblySession)
      reads session, session.blockBitmap, session.buffer
    {
      unchanged(session) && unchanged(session.blockBitmap) && unchanged(session.buffer)
    }

    /** What a fragment makes of an assembly `a`: the assembly to keep, if any, and the result, if any. */
    static ghost predicate Outcome(a: Assembly, f: Fragment, kept: Option<Assembly>, r: Option<Datagram>) {
      var b := AddFragment(a, f);
      if b.None? then kept.None? && r.None?
      else Yields(b.value, r) && kept == if r.Some? then None else b
    }

    /** A session of the table takes a fragment. */
    method AddTo(session: ReassemblySession, f: Fragment)
        returns (keep: bool, r: Option<Datagram>, ghost kept: Option<Assembly>)
      requires Valid() && session.key in sessions.contents && sessions.contents[session.key] == session
      modifies session, session.blockBitmap, session.buffer
      ensures Valid() && Outcome(old(session.View()), f, kept, r)
      ensures keep == kept.Some? && (keep ==> session.View() == kept.value)
      ensures session.createdAtNs == old(session.createdAtNs)
      ensures forall k | k in sessions.contents && k != session.key :: SameSession(sessions.contents[k])
    {
      forall k | k in sessions.contents && k != session.key
        ensures sessions.contents[k] != session
      {
        HeldApart(sessions.contents, gone, owner, k, session.key);
      }
      var ok := session.Add(f);
      if !ok {
        return false, None, None;
      }
      r := session.Result();
      keep := r.None?;
      kept := if keep then Some(session.View()) else None;
    }

    /** A session for a key that the search does not find, if table and memory have room. */
    method OpenSession(key: FragmentKey, now: uint64, hasMemory: bool) returns (session: ReassemblySession?)
      requires Valid()
      modifies this`owner, sessions, sessions.cells
      ensures Valid()
      ensures session == null <==> old(sessions.size) >= 65536 || !hasMemory
      ensures session == null ==> sessions.contents == old(sessions.contents)
      ensures session != null ==>
                && fresh(session) && fresh(session.blockBitmap) && fresh(session.buffer)
                && sessions.contents == old(sessions.contents)[key := session]
                && session.Valid() && session.key == key && session.createdAtNs == now && session.View() == Empty()
    {
      if sessions.size >= MAX_ACTIVE_SESSIONS || !hasMemory {
        return null;
      }
      session := new ReassemblySession(key, now);
      HeldAdd(sessions.contents, gone, owner, key, session);
      owner := owner[session.blockBitmap := key][session.buffer := key];
      var _ := sessions.Emplace(key, session);
    }

    /** Adds the fragment; a session that refuses it or is complete leaves the table. */
    method Settle(key: FragmentKey, session: ReassemblySession, f: Fragment)
        returns (r: Option<Datagram>, ghost kept: Option<Assembly>)
      requires Valid() && key in sessions.contents && sessions.contents[key] == session
      modifies this`gone, sessions, sessions.cells, session, session.blockBitmap, session.buffer
      ensures Valid() && Outcome(old(session.View()), f, kept, r)
      ensures kept.Some? ==>
                && session.Valid() && session.View() == kept.value && session.createdAtNs == old(session.createdAtNs)
                && sessions.contents == old(sessions.contents) && gone == old(gone)
      ensures kept.None? ==>
                sessions.contents == old(sessions.contents) - {key} && gone == old(gone) + {session}
      ensures forall k | k in old(sessions.contents) && k != key :: SameSession(old(sessions.contents)[k])
    {
      var keep;
      keep, r, kept := AddTo(session, f);
      if !keep {
        Remove(key);
      }
    }

    /** The first fragment of a datagram, as far as the search can see. */
    method Begin(key: FragmentKey, f: Fragment, now: uint64, hasMemory: bool)
        returns (r: Option<Datagram>, ghost kept: Option<Assembly>)
      requires Valid()
      modifies this`gone, this`owner, sessions, sessions.cells
      ensures Valid()
      ensures old(gone) <= gone && fresh(gone - old(gone)) && (kept.Some? ==> gone == old(gone))
      ensures var dropped := old(sessions.size) >= 65536 || !hasMemory;
              && (dropped ==> r.None? && sessions.contents == old(sessions.contents) && gone == old(gone))
              && (!dropped ==>
                    && Outcome(Empty(), f, kept, r)
                    && (kept.None? ==> sessions.contents == old(sessions.contents) - {key})
                    && (kept.Some? ==>
                          && key in sessions.contents && sessions.contents[key].View() == kept.value
                          && sessions.contents[key].createdAtNs == now
                          && sessions.contents == old(sessions.contents)[key := sessions.contents[key]]))
    {
      var session := OpenSession(key, now, hasMemory);
      if session == null {
        return None, None;
      }
      ReplacedAndRemoved(sessions.contents, key, session);
      ReplacedAndRemoved(old(sessions.contents), key, session);
      r, kept := Settle(key, session, f);
    }

    /**
      The fragment path after the purge: the fragment goes to the session that the search
      finds or to a new one; without room for a new one it is dropped. Of the sessions in the
      table only that of the key may change, and those of other keys share nothing with it.
     */
    method HandleFragment(key: FragmentKey, f: Fragment, now: uint64, hasMemory: bool)
        returns (r: Option<Datagram>, ghost kept: Option<Assembly>)
      requires Valid()
      modifies this`gone, this`owner, sessions, sessions.cells
      modifies PartsOf(sessions.contents, key)
      ensures Valid()
      ensures old(Visible(key)) ==>
                && key in old(sessions.contents)
                && Outcome(old(sessions.contents[key].View()), f, kept, r)
                && (kept.None? ==>
                      && sessions.contents == old(sessions.contents) - {key}
                      && gone == old(gone) + {old(sessions.contents)[key]})
                && (kept.Some? ==>
                      && sessions.contents == old(sessions.contents) && gone == old(gone)
                      && sessions.contents[key].View() == kept.value
                      && sessions.contents[key].createdAtNs == old(sessions.contents[key].createdAtNs))
      ensures old(!Visible(key)) ==>
                var dropped := old(sessions.size) >= 65536 || !hasMemory;
                && old(gone) <= gone && fresh(gone - old(gone)) && (kept.Some? ==> gone == old(gone))
                && (dropped ==> r.None? && sessions.contents == old(sessions.contents) && gone == old(gone))
                && (!dropped ==>
                      && Outcome(Empty(), f, kept, r)
                      && (kept.None? ==> sessions.contents == old(sessions.contents) - {key})
                      && (kept.Some? ==>
                            && key in sessions.contents && sessions.contents[key].View() == kept.value
                            && sessions.contents[key].createdAtNs == now
                            && sessions.contents == old(sessions.contents)[key := sessions.contents[key]]))
      ensures forall k | k in old(sessions.contents) && k != key ::
                Parts(old(sessions.contents)[k]) !! PartsOf(old(sessions.contents), key)
    {
      PartsApart(sessions.contents, gone, owner, key);
      var slot := sessions.Find(key);
      if slot.Some? {
        r, kept := Settle(key, slot.value, f);
      } else {
        r, kept := Begin(key, f, now, hasMemory);
      }
    }
  }
}
