/** The assembler engine: the table of sessions, expiry, and the dispatch of packets. */
module TcpEngine {
  import opened Common
  import opened TcpSession
  import opened TcpStreamSessions
  import opened HashTable
  import opened HashMap
  import opened Expiry

  const MAX_ACTIVE_SESSIONS: nat := 65536
  const SYN_TIMEOUT_NS: nat := 3_000_000_000
  const ESTAB_TIMEOUT_NS: nat := 30_000_000_000
  const CLEANUP_NS: nat := 1_000_000_000

  class TcpAssemblerEngine {
    const sessions: SingleThreadHashMap<TcpKey, TcpStreamSession>
    var lastCleanupNs: uint64
    /** Every session that was deleted. */
    ghost var freed: set<TcpStreamSession>

    /** The key of the session that each buffer was allocated for. */
    ghost var owner: map<object, TcpKey>

    /** A session of the table carries its key, was not deleted, and does not share its buffers. */
    ghost predicate Holds(k: TcpKey, session: TcpStreamSession)
      reads this, session
    {
      && session.Valid() && session.key == k && session !in freed
      && (session.bitmap != null ==> session.bitmap in owner && owner[session.bitmap] == k)
      && (session.ringBuf != null ==> session.ringBuf in owner && owner[session.ringBuf] == k)
    }

    ghost predicate Valid()
      reads this, sessions, sessions.cells, sessions.contents.Values
    {
      && sessions.Valid() && sessions.cells.Length == 2 * MAX_ACTIVE_SESSIONS
      && forall k | k in sessions.contents :: Holds(k, sessions.contents[k])
    }

    /** The table's search reaches the key. */
    ghost predicate Visible(key: TcpKey)
      reads sessions, sessions.cells
    {
      exists i :: HoldsKey(sessions.cells[..], i, key) && Displacement(sessions.hash, sessions.cells[..], i) < 64
    }

    /** Nothing below depends on which hash function the table uses. */
    constructor (hash: TcpKey -> nat)
      ensures Valid() && fresh(sessions) && fresh(sessions.cells)
      ensures sessions.contents == map[] && sessions.cells.Length == 131_072 && freed == {}
    {
      sessions := new SingleThreadHashMap(2 * MAX_ACTIVE_SESSIONS, hash);
      lastCleanupNs := 0;
      freed := {};
      owner := map[];
    }

    /** The timeout depends on whether the handshake was completed. */
    ghost predicate Expired(session: TcpStreamSession, now: uint64)
      reads session
    {
      Elapsed(now, session.lastSeenNs) > if session.state == SynSent then SYN_TIMEOUT_NS else ESTAB_TIMEOUT_NS
    }

    /** `delete session` followed by `erase(key)`; a session is never deleted twice. */
    method Remove(key: TcpKey)
      requires Valid() && key in sessions.contents
      modifies this`freed, sessions, sessions.cells
      ensures Valid()
      ensures old(sessions.contents[key]) !in old(freed) && freed == old(freed) + {old(sessions.contents[key])}
      ensures sessions.contents == old(sessions.contents) - {key} && sessions.size == old(sessions.size) - 1
    {
      freed := freed + {sessions.contents[key]};
      var _ := sessions.Erase(key);
    }

    /** `expired` are the keys whose sessions have expired. */
    ghost predicate AreExpired(expired: set<TcpKey>, now: uint64)
      reads sessions, sessions.contents.Values
    {
      forall k | k in sessions.contents :: k in expired <==> Expired(sessions.contents[k], now)
    }

    /** Looks at one cell; the key it removes, if any, is the expired session's. */
    method PurgeCell(i: nat, now: uint64, ghost expired: set<TcpKey>) returns (ghost removed: Option<TcpKey>)
      requires Valid() && AreExpired(expired, now) && i < sessions.cells.Length
      modifies this`freed, sessions, sessions.cells
      ensures Valid() && AreExpired(expired, now)
      ensures removed.None? ==>
                && sessions.contents == old(sessions.contents) && sessions.size == old(sessions.size)
                && sessions.cells[..] == old(sessions.cells[..]) && freed == old(freed)
                && (sessions.cells[i].Some? ==> sessions.cells[i].value.key !in expired)
      ensures removed.Some? ==>
                var k := removed.value;
                && k in old(sessions.contents) && k in expired && old(sessions.contents)[k] !in old(freed)
                && sessions.contents == old(sessions.contents) - {k} && sessions.size == old(sessions.size) - 1
                && freed == old(freed) + {old(sessions.contents)[k]}
    {
      removed := None;
      var cell := sessions.cells[i];
      if cell.Some? {
        var session := cell.value.val;
        var age := Elapsed(now, session.lastSeenNs);
        if age > if session.state == SynSent then SYN_TIMEOUT_NS else ESTAB_TIMEOUT_NS {
          removed := Some(cell.value.key);
          Remove(cell.value.key);
        }
      }
    }

    /** One pass over the cells of a table that shifts under it. */
    method PurgeCells(now: uint64, ghost expired: set<TcpKey>) returns (ghost deleted: set<TcpStreamSession>)
      requires Valid() && AreExpired(expired, now) && expired <= sessions.contents.Keys
      modifies this`freed, sessions, sessions.cells
      ensures Valid()
      ensures Purged(old(sessions.contents), sessions.contents, deleted, expired)
      ensures freed == old(freed) + deleted && deleted !! old(freed)
      ensures expired != {} ==> sessions.size < old(sessions.size)
    {
      var i := 0;
      deleted := {};
      while i < sessions.cells.Length
        invariant 0 <= i <= sessions.cells.Length && Valid() && AreExpired(expired, now)
        invariant Progressed(old(sessions.contents), sessions.contents, deleted, expired,
                             old(freed), freed, old(sessions.size), sessions.size)
        invariant deleted == {} ==>
                    forall j | 0 <= j < i && sessions.cells[j].Some? :: sessions.cells[j].value.key !in expired
      {
        ghost var mid, midSize := sessions.contents, sessions.size;
        ghost var midFreed := freed;
        ghost var removed := PurgeCell(i, now, expired);
        if removed.Some? {
          ProgressedOne(old(sessions.contents), mid, deleted, expired, old(freed), midFreed, old(sessions.size), midSize,
                        removed.value);
          deleted := deleted + {mid[removed.value]};
        }
        i := i + 1;
      }
      if deleted == {} {
        NoneExpired(sessions.cells[..], sessions.contents, expired);
      }
    }

    /**
      In which cases a session is expired, in nanoseconds: more than 3 s without a packet before
      the handshake is complete, more than 30 s afterwards. A clock reading before the last
      packet counts as 2^64 ns later.
     */
    lemma ExpiredExactly(session: TcpStreamSession, now: uint64)
      ensures session.lastSeenNs <= now ==>
                (Expired(session, now) <==>
                   now - session.lastSeenNs > if session.state == SynSent then 3_000_000_000 else 30_000_000_000)
      ensures now < session.lastSeenNs ==>
                (Expired(session, now) <==>
                   session.lastSeenNs - now < if session.state == SynSent then 18_446_744_070_709_551_616
                                              else 18_446_744_043_709_551_616)
    {
    }

    /** The keys whose sessions have expired. */
    ghost function Overdue(now: uint64): set<TcpKey>
      reads sessions, sessions.contents.Values
    {
      set k | k in sessions.contents && Expired(sessions.contents[k], now)
    }

    /**
      The purge deletes expired sessions only, keeps every other one, and deletes at least one
      if there is any; an expired session that is shifted into a cell already visited waits for
      a later pass.
     */
    method PurgeExpired(now: uint64) returns (ghost deleted: set<TcpStreamSession>)
      requires Valid()
      modifies this`freed, sessions, sessions.cells
      ensures Valid()
      ensures Purged(old(sessions.contents), sessions.contents, deleted, old(Overdue(now)))
      ensures freed == old(freed) + deleted && deleted !! old(freed)
      ensures old(Overdue(now)) != {} ==> sessions.size < old(sessions.size)
      ensures forall k | k in old(sessions.contents) && old(sessions.contents)[k].lastSeenNs <= now ::
                var session := old(sessions.contents)[k];
                var limit := if session.state == SynSent then 3_000_000_000 else 30_000_000_000;
                && (now - session.lastSeenNs <= limit ==> k in sessions.contents && sessions.contents[k] == session)
                && (now - session.lastSeenNs > limit ==> sessions.size < old(sessions.size))
    {
      ghost var expired := Overdue(now);
      deleted := PurgeCells(now, expired);
      PurgedKeeps(old(sessions.contents), sessions.contents, deleted, expired);
      forall k | k in old(sessions.contents) && old(sessions.contents)[k].lastSeenNs <= now
        ensures k in expired <==> var session := old(sessions.contents)[k];
                  now - session.lastSeenNs > if session.state == SynSent then 3_000_000_000 else 30_000_000_000
      {
        ExpiredExactly(old(sessions.contents)[k], now);
      }
    }

    method NoteCleanUp(now: uint64)
      requires Valid()
      modifies this`lastCleanupNs
      ensures Valid() && lastCleanupNs == now
    {
      lastCleanupNs := now;
    }

    /** What a packet starts with: a purge, if the last one was more than a second ago. */
    method CleanUp(now: uint64) returns (ghost deleted: set<TcpStreamSession>)
      requires Valid()
      modifies this`freed, this`lastCleanupNs, sessions, sessions.cells
      ensures Valid()
      ensures var due := Elapsed(now, old(lastCleanupNs)) > 1_000_000_000;
              && lastCleanupNs == (if due then now else old(lastCleanupNs))
              && (!due ==> sessions.contents == old(sessions.contents) && deleted == {})
              && (due && old(Overdue(now)) != {} ==> sessions.size < old(sessions.size))
      ensures Purged(old(sessions.contents), sessions.contents, deleted, old(Overdue(now)))
      ensures freed == old(freed) + deleted && deleted !! old(freed)
      ensures forall k | k in old(sessions.contents) && k !in old(Overdue(now)) ::
                k in sessions.contents && sessions.contents[k] == old(sessions.contents)[k]
    {
      deleted := {};
      ghost var expired := Overdue(now);
      if Elapsed(now, lastCleanupNs) > CLEANUP_NS {
        deleted := PurgeExpired(now);
        NoteCleanUp(now);
      } else {
        PurgedNothing(sessions.contents, expired);
      }
      PurgedKeeps(old(sessions.contents), sessions.contents, deleted, expired);
    }

    /**
      A SYN for a new connection. A session of the same key that the search did not find is
      replaced, and then neither in the table nor deleted. `hasMemory` tells whether the
      allocator had memory for the session.
     */
    method OpenSession(key: TcpKey, p: Packet, now: uint64, hasMemory: bool) returns (report: Report)
      requires Valid()
      modifies sessions, sessions.cells
      ensures Valid() && freed == old(freed)
      ensures var starts := p.syn && old(sessions.size) < 65536 && hasMemory;
              && report == (if starts then NOTHING.(isSyn := true) else NOTHING)
              && (!starts ==> sessions.contents == old(sessions.contents))
              && (starts ==>
                    && key in sessions.contents && fresh(sessions.contents[key])
                    && sessions.contents == old(sessions.contents)[key := sessions.contents[key]]
                    && sessions.contents[key].lastSeenNs == now
                    && sessions.contents[key].View() == NewSession(p.seq_))
              && (Accounted(old(sessions.contents), sessions.contents, freed) <==> !(starts && key in old(sessions.contents)))
    {
      if !p.syn || sessions.size >= MAX_ACTIVE_SESSIONS || !hasMemory {
        return NOTHING;
      }
      var session := new TcpStreamSession(key, p.seq_, now);
      var _ := sessions.Emplace(key, session);
      return NOTHING.(isSyn := true);
    }

    /** The session is as it was, down to its buffers. */
    static twostate predicate SameSession(session: TcpStreamSession)
      reads session, session.bitmap, session.ringBuf
    {
      && unchanged(session)
      && (session.bitmap != null ==> unchanged(session.bitmap))
      && (session.ringBuf != null ==> unchanged(session.ringBuf))
    }

    ghost predicate Unclaimed(o: object, key: TcpKey)
      reads this
    {
      o in owner ==> owner[o] == key
    }

    /** Records the buffers of a session. */
    ghost method Claim(session: TcpStreamSession)
      requires sessions.Valid() && sessions.cells.Length == 2 * MAX_ACTIVE_SESSIONS
      requires session.key in sessions.contents && sessions.contents[session.key] == session
      requires forall k | k in sessions.contents && k != session.key :: Holds(k, sessions.contents[k])
      requires session.Valid() && session !in freed
      requires session.bitmap != null ==> Unclaimed(session.bitmap, session.key)
      requires session.ringBuf != null ==> Unclaimed(session.ringBuf, session.key)
      modifies this`owner
      ensures Valid()
    {
      if session.bitmap != null {
        owner := owner[session.bitmap := session.key][session.ringBuf := session.key];
      }
    }

    /** Lets a session of the table treat a packet. */
    method Receive(session: TcpStreamSession, p: Packet, now: uint64) returns (removed: bool, report: Report)
      requires Valid() && session.key in sessions.contents && sessions.contents[session.key] == session
      modifies this`owner, session, session.bitmap, session.ringBuf
      ensures Valid()
      ensures var r := SessionStep(old(session.View()), p);
              && report == r.report && (removed <==> r.next.None?)
              && (!removed ==> session.View() == r.next.value)
      ensures session.lastSeenNs == now
      ensures forall k | k in sessions.contents && k != session.key :: SameSession(sessions.contents[k])
    {
      assert forall k | k in sessions.contents && k != session.key :: sessions.contents[k].key != session.key;
      removed, report := session.ReceivePacket(p, now);
      Claim(session);
    }

    /** The same, and removes the session if it is done. */
    method Dispatch(session: TcpStreamSession, p: Packet, now: uint64) returns (report: Report)
      requires Valid() && session.key in sessions.contents && sessions.contents[session.key] == session
      modifies this`freed, this`owner, sessions, sessions.cells, session, session.bitmap, session.ringBuf
      ensures Valid()
      ensures var r := SessionStep(old(session.View()), p);
              && report == r.report
              && (r.next.None? ==>
                    && sessions.contents == old(sessions.contents) - {session.key}
                    && freed == old(freed) + {session})
              && (r.next.Some? ==>
                    && sessions.contents == old(sessions.contents) && freed == old(freed)
                    && session.Valid() && session.View() == r.next.value && session.lastSeenNs == now)
      ensures forall k | k in old(sessions.contents) && k != session.key :: SameSession(old(sessions.contents)[k])
    {
      var removed;
      removed, report := Receive(session, p, now);
      if removed {
        Remove(session.key);
      }
    }

    /** A full table takes no SYN of a new connection, not even a repeated one. */
    ghost predicate Refused(p: Packet)
      reads sessions
    {
      p.syn && !p.ack && sessions.size >= 65536
    }

    /**
      The packet path after `CleanUp`. The packet goes to the session of its key if the
      search finds it, opens a session if it may, and is dropped otherwise. Sessions of other
      keys are not touched.
     */
    method HandlePacket(key: TcpKey, p: Packet, now: uint64, hasMemory: bool) returns (report: Report)
      requires Valid()
      modifies this`freed, this`owner, sessions, sessions.cells, sessions.contents.Values
      modifies set k | k in sessions.contents && sessions.contents[k].bitmap != null :: sessions.contents[k].bitmap
      modifies set k | k in sessions.contents && sessions.contents[k].ringBuf != null :: sessions.contents[k].ringBuf
      ensures Valid()
      ensures old(Refused(p)) ==> report == NOTHING && sessions.contents == old(sessions.contents) && freed == old(freed)
      ensures old(!Refused(p) && Visible(key)) ==>
                && key in old(sessions.contents)
                && var s := old(sessions.contents)[key];
                   var r := SessionStep(old(sessions.contents[key].View()), p);
                   && report == r.report
                   && (r.next.None? ==> sessions.contents == old(sessions.contents) - {key} && freed == old(freed) + {s})
                   && (r.next.Some? ==>
                         && sessions.contents == old(sessions.contents) && freed == old(freed)
                         && s.View() == r.next.value && s.lastSeenNs == now)
      ensures old(!Refused(p) && !Visible(key)) ==>
                var starts := p.syn && old(sessions.size) < 65536 && hasMemory;
                && report == (if starts then NOTHING.(isSyn := true) else NOTHING)
                && freed == old(freed)
                && (Accounted(old(sessions.contents), sessions.contents, freed) <==> !(starts && key in old(sessions.contents)))
                && (!starts ==> sessions.contents == old(sessions.contents))
                && (starts ==>
                      && key in sessions.contents && sessions.contents[key].View() == NewSession(p.seq_)
                      && sessions.contents[key].lastSeenNs == now
                      && sessions.contents == old(sessions.contents)[key := sessions.contents[key]])
      ensures forall k | k in old(sessions.contents) && (k != key || old(Refused(p) || !Visible(key))) ::
                SameSession(old(sessions.contents)[k])
    {
      if p.syn && !p.ack && sessions.size >= MAX_ACTIVE_SESSIONS {
        return NOTHING;
      }
      var slot := sessions.Find(key);
      if slot.None? {
        report := OpenSession(key, p, now, hasMemory);
      } else {
        report := Dispatch(slot.value, p, now);
      }
    }

    method CloseSession(key: TcpKey)
      requires Valid()
      modifies this`freed, sessions, sessions.cells
      ensures Valid()
      ensures old(Visible(key)) ==>
                && key in old(sessions.contents) && sessions.contents == old(sessions.contents) - {key}
                && freed == old(freed) + {old(sessions.contents)[key]}
      ensures old(!Visible(key)) ==> sessions.contents == old(sessions.contents) && freed == old(freed)
    {
      var slot := sessions.Find(key);
      if slot.Some? {
        Remove(key);
      }
    }
  }
}
