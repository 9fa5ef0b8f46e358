/**
  The packets of many connections through one engine: what the engine reports for a key is
  what a session of its own would report for that key's packets.
 */
module TcpTraffic {
  import opened Common
  import opened TcpSession
  import opened TcpStream
  import opened TcpStreamSessions
  import opened Runs

  type Sessions = map<TcpKey, Session>

  /** A packet, and what it meets: whether the search finds its key, and whether table and memory have room. */
  datatype Arrival = Arrival(key: TcpKey, sent: Sent, found: bool, full: bool, hasMemory: bool)

  datatype Event = Packet(arrival: Arrival) | Purge(keys: set<TcpKey>)

  datatype Treated = Treated(sessions: Sessions, report: Report)

  /** What the engine does with a packet: the contract of its packet path, on the values of its sessions. */
  ghost function Treat(sessions: Sessions, a: Arrival): Treated {
    var p := a.sent.packet;
    if p.syn && !p.ack && a.full then Treated(sessions, NOTHING)
    else if a.found && a.key in sessions then
      var r := SessionStep(sessions[a.key], p);
      Treated(if r.next.Some? then sessions[a.key := r.next.value] else sessions - {a.key}, r.report)
    else if p.syn && !a.full && a.hasMemory then
      Treated(sessions[a.key := NewSession(p.seq_)], NOTHING.(isSyn := true))
    else Treated(sessions, NOTHING)
  }

  ghost function After(sessions: Sessions, e: Event): Sessions {
    match e
    case Packet(a) => Treat(sessions, a).sessions
    case Purge(keys) => sessions - keys
  }

  /** The session of `key` through the events, and all payloads that are reported for it, until it is removed. */
  ghost function Followed(sessions: Sessions, es: seq<Event>, key: TcpKey): Result<Session, uint8>
    requires key in sessions
    decreases |es|
  {
    if es == [] then Result(Some(sessions[key]), [])
    else
      var next := After(sessions, es[0]);
      var payload := if IsFor(es[0], key) then Treat(sessions, es[0].arrival).report.payload else [];
      if key !in next then Result(None, payload)
      else
        var rest := Followed(next, es[1..], key);
        Result(rest.last, payload + rest.output)
  }

  ghost predicate IsFor(e: Event, key: TcpKey) {
    e.Packet? && e.arrival.key == key
  }

  /** The packets of one key. */
  ghost function SentFor(es: seq<Event>, key: TcpKey): seq<Sent> {
    if es == [] then []
    else if IsFor(es[0], key) then [es[0].arrival.sent] + SentFor(es[1..], key)
    else SentFor(es[1..], key)
  }

  /** The packet reaches its session. A full table drops every SYN without ACK, also one that carries RST. */
  ghost predicate Reaches(a: Arrival) {
    a.found && !(a.full && a.sent.packet.syn && !a.sent.packet.ack && a.sent.packet.rst)
  }

  /** Each packet of the key reaches its session, and the session does not expire. */
  ghost predicate Served(es: seq<Event>, key: TcpKey) {
    forall e | e in es :: (IsFor(e, key) ==> Reaches(e.arrival)) && (e.Purge? ==> key !in e.keys)
  }

  /** An event of another key, or a purge of others, leaves the session alone. */
  lemma OtherEvent(sessions: Sessions, e: Event, key: TcpKey)
    requires key in sessions && !IsFor(e, key) && (e.Purge? ==> key !in e.keys)
    ensures key in After(sessions, e) && After(sessions, e)[key] == sessions[key]
  {
  }

  /** A packet of the key does to its session what it would do to one alone; a refused SYN would not change it either. */
  lemma OwnEvent(sessions: Sessions, a: Arrival)
    requires a.key in sessions && Reaches(a)
    ensures var r, t := SentStep(sessions[a.key], a.sent), Treat(sessions, a);
            && t.report.payload == r.output
            && (if r.next.Some? then a.key in t.sessions && t.sessions[a.key] == r.next.value else a.key !in t.sessions)
  {
  }

  /** So what is reported for a key depends on its own packets only. */
  lemma {:induction false} KeysDoNotMix(sessions: Sessions, es: seq<Event>, key: TcpKey)
    requires key in sessions && Served(es, key)
    ensures Followed(sessions, es, key) == Run(SentStep, sessions[key], SentFor(es, key))
    decreases |es|
  {
    if es != [] {
      var e, rest := es[0], es[1..];
      assert e in es;
      assert forall x | x in rest :: x in es;
      var next := After(sessions, e);
      if IsFor(e, key) {
        OwnEvent(sessions, e.arrival);
        assert SentFor(es, key)[1..] == SentFor(rest, key);
      } else {
        OtherEvent(sessions, e, key);
      }
      if key in next {
        KeysDoNotMix(next, rest, key);
      }
    }
  }

  /** In particular, every connection of at most 65536 bytes gets a prefix of its stream, whatever the others send. */
  lemma ConnectionStream(sessions: Sessions, es: seq<Event>, key: TcpKey, isn: uint32, stream: seq<uint8>)
    requires key in sessions && sessions[key] == NewSession(isn) && Served(es, key) && |stream| <= WINDOW
    requires forall i | 0 <= i < |SentFor(es, key)| :: CutFrom(SentFor(es, key)[i], stream, isn + 1)
    ensures Followed(sessions, es, key).output <= stream
  {
    KeysDoNotMix(sessions, es, key);
    ShortStream(isn, SentFor(es, key), stream);
  }
}
