/**
  The multi-producer multi-consumer queue as a system of interleaved atomic steps.

  Every operation draws a ticket, waits until the turn counter of its slot shows its turn,
  works inside the slot, and passes the turn on. Turn counters have 32 bits. The history part
  of a state records exact turns, who drew which ticket, and what was written and read; no
  step depends on it.
 */
module Mpmc {
  import opened Common
  import Runs

  type Thread = nat

  datatype Kind = Write | Read

  /** Waiting for the turn; inside the slot; item stored or taken, turn not yet passed on. */
  datatype Phase = Waiting | Inside | Moved

  /** An operation under way. `item` is what is written, or what was taken once `Moved`. */
  datatype Op<T> = Op(kind: Kind, ticket: nat, phase: Phase, item: Option<T>)

  datatype Slot<T> = Slot(turn: uint32, item: Option<T>)

  datatype History<T> = History(
    turns: seq<nat>,         // exact turn of every slot
    writers: seq<Thread>,    // who drew write ticket t
    written: seq<T>,         // what it writes
    readers: seq<Thread>,    // who drew read ticket t
    results: map<nat, T>)    // what finished reads returned

  datatype State<T> = State(
    pushTicket: nat, popTicket: nat, slots: seq<Slot<T>>, ops: map<Thread, Op<T>>, past: History<T>)

  // ---------- Tickets, slots and turns

  function Index(capacity: nat, ticket: nat): (i: nat)
    requires capacity > 0
    ensures i < capacity
  {
    ticket % capacity
  }

  /** The exact turn of a ticket: writes have even turns, the read of the same lap the next one. */
  function Turn(capacity: nat, kind: Kind, ticket: nat): nat
    requires capacity > 0
  {
    2 * (ticket / capacity) + if kind.Read? then 1 else 0
  }

  /** The turn that the source compares: only 32 bits of it. */
  function ExpectedTurn(capacity: nat, kind: Kind, ticket: nat): uint32
    requires capacity > 0
  {
    Turn(capacity, kind, ticket) % TWO32
  }

  lemma DivModSum(n: nat, t: nat)
    requires n > 0
    ensures t == t / n * n + t % n
  {
  }

  /** Slot and turn determine the ticket. */
  lemma SameTurn(n: nat, k1: Kind, t1: nat, k2: Kind, t2: nat)
    requires n > 0 && Index(n, t1) == Index(n, t2) && Turn(n, k1, t1) == Turn(n, k2, t2)
    ensures k1 == k2 && t1 == t2
  {
    assert t1 / n == t2 / n;
    DivModSum(n, t1);
    DivModSum(n, t2);
  }

  lemma AtLeastOnce(n: nat, a: int, b: int)
    requires a < b
    ensures a * n + n <= b * n
  {
    assert b * n == a * n + (b - a) * n;
    assert (b - a) * n == n + (b - a - 1) * n;
  }

  lemma DivOfSum(n: nat, i: nat, lap: nat)
    requires i < n
    ensures (lap * n + i) / n == lap && (lap * n + i) % n == i
  {
    var t := lap * n + i;
    DivModSum(n, t);
    if lap < t / n {
      AtLeastOnce(n, lap, t / n);
    } else if t / n < lap {
      AtLeastOnce(n, t / n, lap);
    }
  }

  /** The ticket of a kind that has a given turn in a given slot. */
  lemma TicketAt(n: nat, i: nat, turn: nat) returns (kind: Kind, t: nat)
    requires i < n
    ensures Index(n, t) == i && Turn(n, kind, t) == turn && t == turn / 2 * n + i
  {
    kind := if turn % 2 == 0 then Write else Read;
    t := turn / 2 * n + i;
    DivOfSum(n, i, turn / 2);
  }

  lemma EarlierTicket(n: nat, t1: nat, t2: nat)
    requires n > 0 && Index(n, t1) == Index(n, t2) && t1 / n <= t2 / n
    ensures t1 <= t2
  {
    DivModSum(n, t1);
    DivModSum(n, t2);
    assert t1 / n * n <= t2 / n * n;
  }

  lemma OneLapBack(n: nat, t: nat)
    requires n > 0 && t / n >= 1
    ensures n <= t && (t - n) / n == t / n - 1 && (t - n) % n == t % n
  {
    DivModSum(n, t);
    AtLeastOnce(n, 0, t / n);
    var lap := t / n - 1;
    assert t / n * n == lap * n + n;
    DivOfSum(n, t % n, lap);
  }

  lemma LowBits(x: nat, m: nat)
    ensures (x + m * TWO32) % TWO32 == x % TWO32
  {
  }

  /**
    Ticket counters of 64 bits give the same slots and turns as unbounded ones, for every
    capacity that is a power of two: such a capacity, of 32 bits, divides 2^32.
   */
  lemma TicketWidth(capacity: nat, c: nat, kind: Kind, ticket: nat)
    requires capacity > 0 && c * capacity == TWO32
    ensures var wrapped := ticket % (TWO32 * TWO32);
            && Index(capacity, wrapped) == Index(capacity, ticket)
            && ExpectedTurn(capacity, kind, wrapped) == ExpectedTurn(capacity, kind, ticket)
  {
    var q, r := ticket / (TWO32 * TWO32), ticket % (TWO32 * TWO32);
    var lap, i := r / capacity, r % capacity;
    DivModSum(capacity, r);
    calc {
      ticket;
      q * (TWO32 * TWO32) + r;
      q * TWO32 * (c * capacity) + (lap * capacity + i);
      (q * TWO32 * c + lap) * capacity + i;
    }
    DivOfSum(capacity, i, q * TWO32 * c + lap);
    assert 2 * (q * TWO32 * c + lap) == 2 * lap + (2 * q * c) * TWO32;
    LowBits(Turn(capacity, kind, r), 2 * q * c);
  }

  // ---------- Steps

  datatype Action<T> =
    | Start(thread: Thread, kind: Kind, item: Option<T>)  // draw a ticket
    | Enter(thread: Thread)                               // the turn has come
    | Move(thread: Thread)                                // store or take the item
    | Finish(thread: Thread)                              // pass the turn on

  function SlotOf<T>(s: State<T>, op: Op<T>): (i: nat)
    requires |s.slots| > 0
    ensures i < |s.slots|
  {
    Index(|s.slots|, op.ticket)
  }

  predicate Enabled<T(!new)>(s: State<T>, a: Action<T>)
    requires |s.slots| > 0
  {
    match a
    case Start(thread, kind, item) => thread !in s.ops && (kind.Write? <==> item.Some?)
    case Enter(thread) =>
      && thread in s.ops && s.ops[thread].phase.Waiting?
      && s.slots[SlotOf(s, s.ops[thread])].turn == ExpectedTurn(|s.slots|, s.ops[thread].kind, s.ops[thread].ticket)
    case Move(thread) => thread in s.ops && s.ops[thread].phase.Inside?
    case Finish(thread) => thread in s.ops && s.ops[thread].phase.Moved?
  }

  function Apply<T(!new)>(s: State<T>, a: Action<T>): State<T>
    requires |s.slots| > 0 && Enabled(s, a) && |s.past.turns| == |s.slots|
  {
    match a
    case Start(thread, Write, item) =>
      s.(pushTicket := s.pushTicket + 1,
         ops := s.ops[thread := Op(Write, s.pushTicket, Waiting, item)],
         past := s.past.(writers := s.past.writers + [thread], written := s.past.written + [item.value]))
    case Start(thread, Read, item) =>
      s.(popTicket := s.popTicket + 1,
         ops := s.ops[thread := Op(Read, s.popTicket, Waiting, None)],
         past := s.past.(readers := s.past.readers + [thread]))
    case Enter(thread) =>
      s.(ops := s.ops[thread := s.ops[thread].(phase := Inside)])
    case Move(thread) =>
      var op := s.ops[thread];
      var i := SlotOf(s, op);
      if op.kind.Write? then
        s.(slots := s.slots[i := s.slots[i].(item := op.item)],
           ops := s.ops[thread := op.(phase := Moved)])
      else
        s.(slots := s.slots[i := s.slots[i].(item := None)],
           ops := s.ops[thread := op.(phase := Moved, item := s.slots[i].item)])
    case Finish(thread) =>
      var op := s.ops[thread];
      var i := SlotOf(s, op);
      var next := (ExpectedTurn(|s.slots|, op.kind, op.ticket) + 1) % TWO32;
      s.(slots := s.slots[i := s.slots[i].(turn := next)],
         ops := s.ops - {thread},
         past := s.past.(
           turns := s.past.turns[i := s.past.turns[i] + 1],
           results := if op.kind.Read? && op.item.Some? then s.past.results[op.ticket := op.item.value] else s.past.results))
  }

  ghost function Init<T>(capacity: nat): State<T> {
    State(0, 0, seq(capacity, _ => Slot(0, None)), map[], History(seq(capacity, _ => 0), [], [], [], map[]))
  }

  // ---------- The invariant

  ghost function Holders<T>(p: History<T>, kind: Kind): seq<Thread> {
    if kind.Write? then p.writers else p.readers
  }

  ghost predicate Shape<T(!new)>(s: State<T>) {
    && 0 < |s.slots| == |s.past.turns|
    && s.pushTicket == |s.past.writers| == |s.past.written| && s.popTicket == |s.past.readers|
    && forall i | 0 <= i < |s.slots| :: s.slots[i].turn == s.past.turns[i] % TWO32
  }

  /** The exact turn of the ticket's slot. */
  ghost function Shown<T>(s: State<T>, ticket: nat): nat
    requires 0 < |s.slots| == |s.past.turns|
  {
    s.past.turns[Index(|s.slots|, ticket)]
  }

  ghost predicate IsOp<T(!new)>(s: State<T>, thread: Thread, kind: Kind, ticket: nat) {
    thread in s.ops && s.ops[thread].kind == kind && s.ops[thread].ticket == ticket
  }

  /** A ticket whose turn has not passed is under way if it was drawn; its turn has not passed if it was not. */
  ghost predicate TicketOk<T(!new)>(s: State<T>, kind: Kind, t: nat)
    requires Shape(s)
  {
    if t < |Holders(s.past, kind)| then
      Shown(s, t) <= Turn(|s.slots|, kind, t) ==> IsOp(s, Holders(s.past, kind)[t], kind, t)
    else
      Shown(s, t) <= Turn(|s.slots|, kind, t)
  }

  ghost predicate OpOk<T(!new)>(s: State<T>, thread: Thread)
    requires Shape(s) && thread in s.ops
  {
    var op := s.ops[thread];
    var turn := Turn(|s.slots|, op.kind, op.ticket);
    && op.ticket < |Holders(s.past, op.kind)| && Holders(s.past, op.kind)[op.ticket] == thread
    && (if op.phase.Waiting? then Shown(s, op.ticket) <= turn else Shown(s, op.ticket) == turn)
    && (op.kind.Write? ==> op.item == Some(s.past.written[op.ticket]))
    && (op.kind.Write? && op.phase.Moved? ==> s.slots[SlotOf(s, op)].item == op.item)
    && (op.kind.Read? && op.phase.Moved? ==>
          op.ticket < |s.past.written| && op.item == Some(s.past.written[op.ticket]))
  }

  /** The item whose read is due is in the slot, unless its reader has just taken it. */
  ghost predicate ItemOk<T(!new)>(s: State<T>, t: nat)
    requires Shape(s)
  {
    Shown(s, t) == Turn(|s.slots|, Read, t) ==>
      && t < |s.past.written|
      && (|| s.slots[Index(|s.slots|, t)].item == Some(s.past.written[t])
          || (t < |s.past.readers| && IsOp(s, s.past.readers[t], Read, t) && s.ops[s.past.readers[t]].phase.Moved?))
  }

  /** A finished read returned what was written under the same ticket. */
  ghost predicate ResultOk<T(!new)>(s: State<T>, t: nat)
    requires Shape(s)
  {
    t in s.past.results ==>
      && t < |s.past.written| && s.past.results[t] == s.past.written[t]
      && t < |s.past.readers| && Turn(|s.slots|, Read, t) < Shown(s, t)
  }

  ghost predicate Inv<T(!new)>(s: State<T>) {
    && Shape(s)
    && (forall kind, t: nat :: TicketOk(s, kind, t))
    && (forall thread | thread in s.ops :: OpOk(s, thread))
    && (forall t: nat :: ItemOk(s, t))
    && (forall t: nat :: ResultOk(s, t))
  }

  lemma InitInv<T(!new)>(capacity: nat)
    requires capacity > 0
    ensures Inv(Init<T>(capacity))
  {
  }

  // ---------- Steps keep the invariant

  lemma StartTicket<T(!new)>(s: State<T>, a: Action<T>, kind: Kind, t: nat)
    requires Inv(s) && a.Start? && Enabled(s, a) && Shape(Apply(s, a))
    ensures TicketOk(Apply(s, a), kind, t)
  {
    assert TicketOk(s, kind, t);
  }

  lemma StartOp<T(!new)>(s: State<T>, a: Action<T>, thread: Thread)
    requires Inv(s) && a.Start? && Enabled(s, a) && Shape(Apply(s, a)) && thread in Apply(s, a).ops
    ensures OpOk(Apply(s, a), thread)
  {
    assert TicketOk(s, a.kind, |Holders(s.past, a.kind)|);
    assert thread in s.ops ==> OpOk(s, thread);
  }

  lemma StartItem<T(!new)>(s: State<T>, a: Action<T>, t: nat)
    requires Inv(s) && a.Start? && Enabled(s, a) && Shape(Apply(s, a))
    ensures ItemOk(Apply(s, a), t) && ResultOk(Apply(s, a), t)
  {
    assert ItemOk(s, t) && ResultOk(s, t);
  }

  lemma StartInv<T(!new)>(s: State<T>, a: Action<T>)
    requires Inv(s) && a.Start? && Enabled(s, a)
    ensures Inv(Apply(s, a))
  {
    var s' := Apply(s, a);
    forall kind, t: nat ensures TicketOk(s', kind, t) { StartTicket(s, a, kind, t); }
    forall thread | thread in s'.ops ensures OpOk(s', thread) { StartOp(s, a, thread); }
    forall t: nat ensures ItemOk(s', t) && ResultOk(s', t) { StartItem(s, a, t); }
  }

  /** The turn test lets a ticket in only when its exact turn has come. */
  ghost predicate NoAlias<T(!new)>(s: State<T>, thread: Thread)
    requires Shape(s) && thread in s.ops
  {
    var op := s.ops[thread];
    s.slots[SlotOf(s, op)].turn == ExpectedTurn(|s.slots|, op.kind, op.ticket) ==>
      Shown(s, op.ticket) == Turn(|s.slots|, op.kind, op.ticket)
  }

  lemma EnterInv<T(!new)>(s: State<T>, a: Action<T>)
    requires Inv(s) && a.Enter? && Enabled(s, a) && NoAlias(s, a.thread)
    ensures Inv(Apply(s, a))
  {
    var s' := Apply(s, a);
    forall kind, t: nat
      ensures TicketOk(s', kind, t)
    {
      assert TicketOk(s, kind, t);
    }
    forall thread | thread in s'.ops
      ensures OpOk(s', thread)
    {
      assert OpOk(s, thread);
    }
    forall t: nat
      ensures ItemOk(s', t) && ResultOk(s', t)
    {
      assert ItemOk(s, t) && ResultOk(s, t);
    }
  }

  /** Two operations inside the same slot are the same operation. */
  lemma Exclusive<T(!new)>(s: State<T>, a: Thread, b: Thread)
    requires Inv(s) && a in s.ops && b in s.ops && SlotOf(s, s.ops[a]) == SlotOf(s, s.ops[b])
    requires !s.ops[a].phase.Waiting? && !s.ops[b].phase.Waiting?
    ensures a == b
  {
    assert OpOk(s, a) && OpOk(s, b);
    SameTurn(|s.slots|, s.ops[a].kind, s.ops[a].ticket, s.ops[b].kind, s.ops[b].ticket);
  }

  lemma MoveOp<T(!new)>(s: State<T>, a: Action<T>, thread: Thread)
    requires Inv(s) && a.Move? && Enabled(s, a) && thread in Apply(s, a).ops
    requires Shape(Apply(s, a))
    ensures OpOk(Apply(s, a), thread)
  {
    var op := s.ops[a.thread];
    assert OpOk(s, a.thread) && OpOk(s, thread) && (op.kind.Read? ==> ItemOk(s, op.ticket));
    if SlotOf(s, s.ops[thread]) == SlotOf(s, op) && !s.ops[thread].phase.Waiting? {
      Exclusive(s, a.thread, thread);
    }
  }

  lemma MoveItem<T(!new)>(s: State<T>, a: Action<T>, t: nat)
    requires Inv(s) && a.Move? && Enabled(s, a)
    requires Shape(Apply(s, a))
    ensures ItemOk(Apply(s, a), t)
  {
    var op := s.ops[a.thread];
    assert OpOk(s, a.thread) && ItemOk(s, t);
    if Index(|s.slots|, t) == SlotOf(s, op) && Shown(s, t) == Turn(|s.slots|, Read, t) {
      SameTurn(|s.slots|, Read, t, op.kind, op.ticket);
    }
  }

  lemma MoveShape<T(!new)>(s: State<T>, a: Action<T>)
    requires Inv(s) && a.Move? && Enabled(s, a)
    ensures Shape(Apply(s, a))
  {
  }

  lemma MoveTicket<T(!new)>(s: State<T>, a: Action<T>, kind: Kind, t: nat)
    requires Inv(s) && a.Move? && Enabled(s, a) && Shape(Apply(s, a))
    ensures TicketOk(Apply(s, a), kind, t)
  {
    assert TicketOk(s, kind, t);
  }

  lemma MoveResult<T(!new)>(s: State<T>, a: Action<T>, t: nat)
    requires Inv(s) && a.Move? && Enabled(s, a) && Shape(Apply(s, a))
    ensures ResultOk(Apply(s, a), t)
  {
    assert ResultOk(s, t);
  }

  lemma MoveInv<T(!new)>(s: State<T>, a: Action<T>)
    requires Inv(s) && a.Move? && Enabled(s, a)
    ensures Inv(Apply(s, a))
  {
    var s' := Apply(s, a);
    MoveShape(s, a);
    forall kind, t: nat ensures TicketOk(s', kind, t) { MoveTicket(s, a, kind, t); }
    forall thread | thread in s'.ops ensures OpOk(s', thread) { MoveOp(s, a, thread); }
    forall t: nat ensures ItemOk(s', t) && ResultOk(s', t) { MoveItem(s, a, t); MoveResult(s, a, t); }
  }

  lemma PassTurn(turn: nat)
    ensures (turn % TWO32 + 1) % TWO32 == (turn + 1) % TWO32
  {
  }

  lemma FinishShape<T(!new)>(s: State<T>, a: Action<T>)
    requires Inv(s) && a.Finish? && Enabled(s, a)
    ensures Shape(Apply(s, a))
  {
    assert OpOk(s, a.thread);
    PassTurn(Turn(|s.slots|, s.ops[a.thread].kind, s.ops[a.thread].ticket));
  }

  lemma FinishTicket<T(!new)>(s: State<T>, a: Action<T>, kind: Kind, t: nat)
    requires Inv(s) && a.Finish? && Enabled(s, a)
    requires Shape(Apply(s, a))
    ensures TicketOk(Apply(s, a), kind, t)
  {
    var n, op := |s.slots|, s.ops[a.thread];
    assert OpOk(s, a.thread) && TicketOk(s, kind, t);
    if Index(n, t) == SlotOf(s, op) && Turn(n, kind, t) == Turn(n, op.kind, op.ticket) {
      SameTurn(n, kind, t, op.kind, op.ticket);
    }
  }

  lemma FinishOp<T(!new)>(s: State<T>, a: Action<T>, thread: Thread)
    requires Inv(s) && a.Finish? && Enabled(s, a) && thread in Apply(s, a).ops
    requires Shape(Apply(s, a))
    ensures OpOk(Apply(s, a), thread)
  {
    var n, op, other := |s.slots|, s.ops[a.thread], s.ops[thread];
    assert OpOk(s, a.thread) && OpOk(s, thread);
    if SlotOf(s, other) == SlotOf(s, op) && Turn(n, other.kind, other.ticket) == Turn(n, op.kind, op.ticket) {
      SameTurn(n, other.kind, other.ticket, op.kind, op.ticket);
    }
  }

  lemma FinishItem<T(!new)>(s: State<T>, a: Action<T>, t: nat)
    requires Inv(s) && a.Finish? && Enabled(s, a)
    requires Shape(Apply(s, a))
    ensures ItemOk(Apply(s, a), t)
  {
    var n, op := |s.slots|, s.ops[a.thread];
    assert OpOk(s, a.thread) && ItemOk(s, t);
    if Index(n, t) == SlotOf(s, op) && Turn(n, Read, t) == Turn(n, op.kind, op.ticket) + 1 {
      SameTurn(n, Write, t, op.kind, op.ticket);
    }
  }

  lemma FinishResult<T(!new)>(s: State<T>, a: Action<T>, t: nat)
    requires Inv(s) && a.Finish? && Enabled(s, a)
    requires Shape(Apply(s, a))
    ensures ResultOk(Apply(s, a), t)
  {
    assert OpOk(s, a.thread) && ResultOk(s, t);
  }

  lemma FinishInv<T(!new)>(s: State<T>, a: Action<T>)
    requires Inv(s) && a.Finish? && Enabled(s, a)
    ensures Inv(Apply(s, a))
  {
    var s' := Apply(s, a);
    FinishShape(s, a);
    forall kind, t: nat ensures TicketOk(s', kind, t) { FinishTicket(s, a, kind, t); }
    forall thread | thread in s'.ops ensures OpOk(s', thread) { FinishOp(s, a, thread); }
    forall t: nat ensures ItemOk(s', t) && ResultOk(s', t) { FinishItem(s, a, t); FinishResult(s, a, t); }
  }

  // ---------- Turns of 32 bits

  lemma {:induction false} SubsetSize(a: set<Thread>, b: set<Thread>)
    requires a <= b
    ensures |a| <= |b|
  {
    if a != {} {
      var x :| x in a;
      SubsetSize(a - {x}, b - {x});
    }
  }

  /** The operations of a kind on slot `i` with laps from `lo` to below `hi`. */
  ghost predicate OnLaps<T(!new)>(s: State<T>, threads: set<Thread>, kind: Kind, i: nat, lo: nat, hi: nat)
    requires |s.slots| > 0
  {
    && threads <= s.ops.Keys
    && forall x | x in threads ::
         s.ops[x].kind == kind && Index(|s.slots|, s.ops[x].ticket) == i && lo <= s.ops[x].ticket / |s.slots| < hi
  }

  /** A drawn ticket whose turn has not passed is under way. */
  lemma PendingTicket<T(!new)>(s: State<T>, kind: Kind, i: nat, lap: nat) returns (thread: Thread)
    requires Inv(s) && i < |s.slots| && lap * |s.slots| + i < |Holders(s.past, kind)|
    requires s.past.turns[i] <= 2 * lap + if kind.Read? then 1 else 0
    ensures thread in s.ops && s.ops[thread].kind == kind
    ensures Index(|s.slots|, s.ops[thread].ticket) == i && s.ops[thread].ticket / |s.slots| == lap
  {
    var t := lap * |s.slots| + i;
    DivOfSum(|s.slots|, i, lap);
    assert TicketOk(s, kind, t);
    thread := Holders(s.past, kind)[t];
    assert IsOp(s, thread, kind, t);
  }

  /** Tickets that were drawn and whose turns have not passed are all under way. */
  lemma {:induction false} ManyPending<T(!new)>(s: State<T>, kind: Kind, i: nat, lo: nat, hi: nat) returns (threads: set<Thread>)
    requires Inv(s) && i < |s.slots| && lo <= hi
    requires lo < hi ==> (hi - 1) * |s.slots| + i < |Holders(s.past, kind)|
    requires s.past.turns[i] <= 2 * lo + if kind.Read? then 1 else 0
    ensures OnLaps(s, threads, kind, i, lo, hi) && |threads| == hi - lo
  {
    threads := {};
    if lo < hi {
      if lo < hi - 1 {
        AtLeastOnce(|s.slots|, hi - 2, hi - 1);
      }
      var rest := ManyPending(s, kind, i, lo, hi - 1);
      var thread := PendingTicket(s, kind, i, hi - 1);
      threads := rest + {thread};
    }
  }

  /** A ticket whose turn has passed was drawn, and so were all before it. */
  lemma PassedIsDrawn<T(!new)>(s: State<T>, kind: Kind, i: nat, lap: nat)
    requires Inv(s) && i < |s.slots| && 2 * lap + (if kind.Read? then 1 else 0) < s.past.turns[i]
    ensures lap * |s.slots| + i < |Holders(s.past, kind)|
  {
    var t := lap * |s.slots| + i;
    DivOfSum(|s.slots|, i, lap);
    assert TicketOk(s, kind, t);
  }

  /** A ticket of an earlier lap is smaller, in whatever slot. */
  lemma EarlierLap(n: nat, lap: nat, i: nat, t: nat)
    requires i < n && lap < t / n
    ensures lap * n + i < t
  {
    AtLeastOnce(n, lap, t / n);
    DivModSum(n, t);
  }

  lemma DisjointSize(a: set<Thread>, b: set<Thread>)
    requires a !! b
    ensures |a + b| == |a| + |b|
  {
  }

  ghost function Other(kind: Kind): Kind {
    if kind.Write? then Read else Write
  }

  /**
    A ticket `d` laps ahead of its slot means 2 * d - 1 operations under way in a queue of two
    slots or more: those of its kind on its slot; and, on a second slot, either those of its
    kind too, or they have gone on, and then the other kind has gone on and waits at the first.
   */
  lemma StalledSlot<T(!new)>(s: State<T>, kind: Kind, t: nat, d: nat)
    requires Inv(s) && |s.slots| >= 2 && t < |Holders(s.past, kind)| && d > 0
    requires Shown(s, t) + 2 * d == Turn(|s.slots|, kind, t)
    ensures 2 * d - 1 <= |s.ops|
  {
    var n, i := |s.slots|, Index(|s.slots|, t);
    var top, j := t / n, if i == 0 then 1 else 0;
    var low := top - d;
    DivModSum(n, t);
    var same := ManyPending(s, kind, i, low, top + 1);
    // Laps of this kind below `gone` have passed on the second slot.
    var gone := if kind.Write? then (s.past.turns[j] + 1) / 2 else s.past.turns[j] / 2;
    var second := SecondSlot(s, kind, t, j, gone);
    var waiting := OtherKind(s, kind, i, j, low, gone);
    DisjointSize(same, second);
    DisjointSize(same + second, waiting);
    SubsetSize(same + second + waiting, s.ops.Keys);
  }

  lemma SecondSlot<T(!new)>(s: State<T>, kind: Kind, t: nat, j: nat, gone: nat) returns (threads: set<Thread>)
    requires Inv(s) && t < |Holders(s.past, kind)| && j < |s.slots|
    requires s.past.turns[j] <= 2 * gone + if kind.Read? then 1 else 0
    ensures OnLaps(s, threads, kind, j, gone, if gone < t / |s.slots| then t / |s.slots| else gone)
    ensures |threads| >= t / |s.slots| - gone
  {
    var top := t / |s.slots|;
    if gone < top {
      EarlierLap(|s.slots|, top - 1, j, t);
      threads := ManyPending(s, kind, j, gone, top);
    } else {
      threads := {};
    }
  }

  lemma OtherKind<T(!new)>(s: State<T>, kind: Kind, i: nat, j: nat, low: nat, gone: nat) returns (threads: set<Thread>)
    requires Inv(s) && i < |s.slots| && j < |s.slots|
    requires s.past.turns[i] == 2 * low + if kind.Read? then 1 else 0
    requires gone == if kind.Write? then (s.past.turns[j] + 1) / 2 else s.past.turns[j] / 2
    ensures threads <= s.ops.Keys && forall x | x in threads :: s.ops[x].kind == Other(kind)
    ensures |threads| >= gone - 2 - low
  {
    if gone > low + 2 {
      var n := |s.slots|;
      var first := if kind.Read? then low + 1 else low;
      var last := if kind.Read? then gone - 1 else gone - 2;
      PassedIsDrawn(s, Other(kind), j, last);
      DivOfSum(n, j, last);
      EarlierLap(n, last - 1, i, last * n + j);
      threads := ManyPending(s, Other(kind), i, first, last);
    } else {
      threads := {};
    }
  }

  lemma SameLowBits(a: nat, b: nat)
    requires a < b && a % TWO32 == b % TWO32
    ensures a + TWO32 <= b && a % 2 == b % 2
  {
  }

  /** How many operations may be under way at once: the constructor refuses capacities below 2. */
  ghost function Bound(capacity: nat): nat {
    if capacity < 2 then TWO31 else TWO32 - 2
  }

  /** With so many operations under way the 32-bit test is exact. */
  lemma TurnTestIsExact<T(!new)>(s: State<T>, thread: Thread)
    requires Inv(s) && thread in s.ops && |s.ops| <= Bound(|s.slots|)
    ensures NoAlias(s, thread)
  {
    var op := s.ops[thread];
    var n := |s.slots|;
    assert OpOk(s, thread);
    var shown, turn := Shown(s, op.ticket), Turn(n, op.kind, op.ticket);
    if s.slots[SlotOf(s, op)].turn == ExpectedTurn(n, op.kind, op.ticket) && shown != turn {
      SameLowBits(shown, turn);
      TooManyPending(s, op.kind, op.ticket);
      assert false;
    }
  }

  /** The same with one slot: the tickets of the laps between are under way, and so is the ticket itself. */
  lemma StalledOnlySlot<T(!new)>(s: State<T>, kind: Kind, t: nat, d: nat)
    requires Inv(s) && |s.slots| == 1 && t < |Holders(s.past, kind)|
    requires Shown(s, t) + 2 * d == Turn(|s.slots|, kind, t)
    ensures d + 1 <= |s.ops|
  {
    assert t / 1 == t && t % 1 == 0;
    var threads := ManyPending(s, kind, 0, t - d, t + 1);
    SubsetSize(threads, s.ops.Keys);
  }

  /** Two numbers of the same parity that are 2^32 or more apart. */
  lemma HalfGap(a: nat, b: nat) returns (d: nat)
    requires a + TWO32 <= b && a % 2 == b % 2
    ensures a + 2 * d == b && d >= TWO31
  {
    d := (b - a) / 2;
  }

  lemma TooManyPending<T(!new)>(s: State<T>, kind: Kind, t: nat)
    requires Inv(s) && t < |Holders(s.past, kind)|
    requires Shown(s, t) + TWO32 <= Turn(|s.slots|, kind, t) && Shown(s, t) % 2 == Turn(|s.slots|, kind, t) % 2
    ensures |s.ops| > Bound(|s.slots|)
  {
    var d := HalfGap(Shown(s, t), Turn(|s.slots|, kind, t));
    if |s.slots| >= 2 {
      StalledSlot(s, kind, t, d);
    } else {
      StalledOnlySlot(s, kind, t, d);
    }
  }

  // ---------- Whole runs

  ghost predicate Step<T(!new)>(s: State<T>, a: Action<T>, s': State<T>) {
    0 < |s.slots| == |s.past.turns| && Enabled(s, a) && s' == Apply(s, a)
  }

  lemma StepInv<T(!new)>(s: State<T>, a: Action<T>, s': State<T>)
    requires Inv(s) && Step(s, a, s') && |s.ops| <= Bound(|s.slots|)
    ensures Inv(s') && |s'.slots| == |s.slots|
  {
    match a
    case Start(_, _, _) => StartInv(s, a);
    case Enter(thread) => TurnTestIsExact(s, thread); EnterInv(s, a);
    case Move(_) => MoveInv(s, a);
    case Finish(_) => FinishInv(s, a);
  }

  /** States of an interleaving from the empty queue, with at most `Bound` operations under way at any time. */
  ghost predicate Interleaving<T(!new)>(capacity: nat, states: seq<State<T>>, actions: seq<Action<T>>) {
    && |states| == |actions| + 1 && capacity > 0 && states[0] == Init(capacity)
    && (forall i {:trigger actions[i]} | 0 <= i < |actions| :: Step(states[i], actions[i], states[i + 1]))
    && (forall i | 0 <= i < |states| :: |states[i].ops| <= Bound(capacity))
  }

  ghost function BoundedStep<T(!new)>(capacity: nat): (State<T>, Action<T>, State<T>) -> bool {
    (s: State<T>, a: Action<T>, s': State<T>) => Step(s, a, s') && |s.ops| <= Bound(capacity)
  }

  ghost function InvOf<T(!new)>(capacity: nat): State<T> -> bool {
    (s: State<T>) => Inv(s) && |s.slots| == capacity
  }

  lemma Reachable<T(!new)>(capacity: nat, states: seq<State<T>>, actions: seq<Action<T>>, i: nat)
    requires Interleaving(capacity, states, actions) && i < |states|
    ensures Inv(states[i]) && |states[i].slots| == capacity
  {
    var step, inv := BoundedStep<T>(capacity), InvOf<T>(capacity);
    InitInv<T>(capacity);
    forall s, a, s' | inv(s) && step(s, a, s')
      ensures inv(s')
    {
      StepInv(s, a, s');
    }
    Runs.TraceInvariant(step, inv, states, actions, i);
  }

  /** At most one thread inside a slot; every finished read has the value written under its ticket. */
  ghost predicate Safe<T(!new)>(s: State<T>)
    requires |s.slots| > 0
  {
    && (forall a, b | a in s.ops && b in s.ops && a != b && SlotOf(s, s.ops[a]) == SlotOf(s, s.ops[b]) ::
          s.ops[a].phase.Waiting? || s.ops[b].phase.Waiting?)
    && (forall t | t in s.past.results :: t < |s.past.written| && s.past.results[t] == s.past.written[t])
  }

  /** Safety of the queue in every state of every interleaving. */
  lemma QueueSafety<T(!new)>(capacity: nat, states: seq<State<T>>, actions: seq<Action<T>>, i: nat)
    requires Interleaving(capacity, states, actions) && i < |states|
    ensures |states[i].slots| == capacity && Safe(states[i])
  {
    Reachable(capacity, states, actions, i);
    var s := states[i];
    forall a, b | a in s.ops && b in s.ops && a != b && SlotOf(s, s.ops[a]) == SlotOf(s, s.ops[b])
      ensures s.ops[a].phase.Waiting? || s.ops[b].phase.Waiting?
    {
      if !s.ops[a].phase.Waiting? && !s.ops[b].phase.Waiting? {
        Exclusive(s, a, b);
      }
    }
    forall t | t in s.past.results
      ensures t < |s.past.written| && s.past.results[t] == s.past.written[t]
    {
      assert ResultOk(s, t);
    }
  }

  lemma FinishesOnce<T(!new)>(s: State<T>, thread: Thread)
    requires Inv(s) && thread in s.ops && s.ops[thread].kind.Read? && s.ops[thread].phase.Moved?
    ensures var t, s' := s.ops[thread].ticket, Apply(s, Finish(thread));
            && t !in s.past.results && t < |s.past.written|
            && s'.past.results == s.past.results[t := s.past.written[t]]
  {
    assert OpOk(s, thread);
    assert ResultOk(s, s.ops[thread].ticket);
  }

  /** A read finishes once: its ticket had no result before, and it gets the value written under it. */
  lemma ReadOnce<T(!new)>(capacity: nat, states: seq<State<T>>, actions: seq<Action<T>>, i: nat, thread: Thread)
    requires Interleaving(capacity, states, actions) && i < |states|
    requires thread in states[i].ops && states[i].ops[thread].kind.Read? && states[i].ops[thread].phase.Moved?
    ensures var s := states[i];
            var t := s.ops[thread].ticket;
            && |s.slots| == |s.past.turns| > 0 && t !in s.past.results && t < |s.past.written|
            && Apply(s, Finish(thread)).past.results == s.past.results[t := s.past.written[t]]
  {
    Reachable(capacity, states, actions, i);
    FinishesOnce(states[i], thread);
  }

  // ---------- Progress

  /** The next step of an operation whose turn it is. */
  ghost function NextAction<T>(thread: Thread, phase: Phase): Action<T> {
    match phase
    case Waiting => Enter(thread)
    case Inside => Move(thread)
    case Moved => Finish(thread)
  }

  lemma SomeoneCanStep<T(!new)>(s: State<T>, reader: Thread) returns (thread: Thread)
    requires Inv(s) && reader in s.ops && s.ops[reader].kind.Read? && s.ops[reader].ticket < s.pushTicket
    ensures thread in s.ops && Enabled(s, NextAction(thread, s.ops[thread].phase))
  {
    var n, t := |s.slots|, s.ops[reader].ticket;
    assert OpOk(s, reader);
    var kind, u := TicketAt(n, Index(n, t), Shown(s, t));
    EarlierTicket(n, u, t);
    assert TicketOk(s, kind, u);
    thread := Holders(s.past, kind)[u];
    assert IsOp(s, thread, kind, u);
  }

  /** In every reachable state: if the write of some pending read has been started, some pending operation can take its next step. */
  lemma Progress<T(!new)>(capacity: nat, states: seq<State<T>>, actions: seq<Action<T>>, i: nat, reader: Thread) returns (thread: Thread)
    requires Interleaving(capacity, states, actions) && i < |states|
    requires reader in states[i].ops && states[i].ops[reader].kind.Read?
    requires states[i].ops[reader].ticket < states[i].pushTicket
    ensures var s := states[i];
            |s.slots| == |s.past.turns| > 0 && thread in s.ops && Enabled(s, NextAction(thread, s.ops[thread].phase))
  {
    Reachable(capacity, states, actions, i);
    thread := SomeoneCanStep(states[i], reader);
  }

  lemma WaitsForRead<T(!new)>(s: State<T>, writer: Thread)
    requires Inv(s) && writer in s.ops && s.ops[writer].kind.Write? && s.ops[writer].phase.Waiting?
    requires !Enabled(s, Enter(writer))
    ensures var n, t := |s.slots|, s.ops[writer].ticket;
            && n <= t && Index(n, t - n) == Index(n, t)
            && (t - n >= s.popTicket || IsOp(s, s.past.readers[t - n], Read, t - n))
  {
    var n, t := |s.slots|, s.ops[writer].ticket;
    assert OpOk(s, writer);
    var lap := t / n;
    assert Shown(s, t) < 2 * lap;
    OneLapBack(n, t);
    assert TicketOk(s, Read, t - n);
  }

  /** A writer waits only while the read one lap earlier on its slot is unfinished: not started or under way. */
  lemma BlockedWriter<T(!new)>(capacity: nat, states: seq<State<T>>, actions: seq<Action<T>>, i: nat, writer: Thread)
    requires Interleaving(capacity, states, actions) && i < |states|
    requires writer in states[i].ops && states[i].ops[writer].kind.Write? && states[i].ops[writer].phase.Waiting?
    requires |states[i].slots| == |states[i].past.turns| > 0 && !Enabled(states[i], Enter(writer))
    ensures var s := states[i];
            var t := s.ops[writer].ticket;
            && capacity <= t && Index(capacity, t - capacity) == Index(capacity, t)
            && (t - capacity >= s.popTicket
                || (t - capacity < |s.past.readers| && IsOp(s, s.past.readers[t - capacity], Read, t - capacity)))
  {
    Reachable(capacity, states, actions, i);
    WaitsForRead(states[i], writer);
  }

  // ---------- Too many operations

  /** The state after `k` threads have started writes on an empty queue. */
  ghost function Crowd<T>(capacity: nat, k: nat, v: T): State<T> {
    State(k, 0, seq(capacity, _ => Slot(0, None)), map j: Thread | 0 <= j < k :: Op(Write, j, Waiting, Some(v)),
          History(seq(capacity, _ => 0), seq(k, j => j), seq(k, _ => v), [], map[]))
  }

  lemma CrowdGrows<T(!new)>(capacity: nat, k: nat, v: T)
    requires capacity > 0
    ensures Step(Crowd(capacity, k, v), Start(k, Write, Some(v)), Crowd(capacity, k + 1, v))
  {
    var s, s' := Crowd(capacity, k, v), Crowd(capacity, k + 1, v);
    assert s.past.writers + [k] == s'.past.writers;
    assert s.past.written + [v] == s'.past.written;
    assert s.ops[k := Op(Write, k, Waiting, Some(v))] == s'.ops;
  }

  lemma CrowdStarts<T(!new)>(capacity: nat, v: T)
    ensures Crowd(capacity, 0, v) == Init(capacity)
  {
    assert seq<Thread>(0, j => j) == [] && seq<T>(0, _ => v) == [];
    assert (map j: Thread | 0 <= j < 0 :: Op(Write, j, Waiting, Some(v))) == map[];
  }

  /** Two writers of the same slot, 2^31 laps apart, both see their turn. */
  lemma CrowdEnters<T(!new)>(capacity: nat, k: nat, v: T) returns (s1: State<T>, s2: State<T>)
    requires capacity > 0 && k == TWO31 * capacity
    ensures Step(Crowd(capacity, k + 1, v), Enter(0), s1) && Step(s1, Enter(k), s2)
    ensures |s2.slots| == capacity && !Safe(s2)
  {
    DivOfSum(capacity, 0, TWO31);
    DivOfSum(capacity, 0, 0);
    var s := Crowd(capacity, k + 1, v);
    assert Turn(capacity, Write, k) == TWO32;
    s1 := Apply(s, Enter(0));
    s2 := Apply(s1, Enter(k));
    assert 0 in s2.ops && k in s2.ops && SlotOf(s2, s2.ops[0]) == SlotOf(s2, s2.ops[k]);
  }

  ghost function CrowdStates<T>(capacity: nat, k: nat, v: T, s1: State<T>, s2: State<T>): seq<State<T>> {
    seq(k + 2, (j: nat) => Crowd(capacity, j, v)) + [s1, s2]
  }

  ghost function CrowdActions<T>(k: nat, v: T): seq<Action<T>> {
    seq(k + 1, (j: nat) => Start(j, Write, Some(v))) + [Enter(0), Enter(k)]
  }

  lemma CrowdStep<T(!new)>(capacity: nat, k: nat, v: T, s1: State<T>, s2: State<T>, i: nat)
    requires capacity > 0 && i < k + 3
    requires Step(Crowd(capacity, k + 1, v), Enter(0), s1) && Step(s1, Enter(k), s2)
    ensures var states := CrowdStates(capacity, k, v, s1, s2);
            Step(states[i], CrowdActions(k, v)[i], states[i + 1])
  {
    var states, actions := CrowdStates(capacity, k, v, s1, s2), CrowdActions(k, v);
    if i <= k {
      CrowdGrows(capacity, i, v);
      assert states[i] == Crowd(capacity, i, v) && states[i + 1] == Crowd(capacity, i + 1, v);
      assert actions[i] == Start(i, Write, Some(v));
    } else if i == k + 1 {
      assert states[i] == Crowd(capacity, k + 1, v);
    }
  }

  /**
    Some bound is needed: an interleaving from the empty queue, with 2^31 laps of writes under
    way at once, after which two writers are inside the same slot.
   */
  lemma CrowdCollides<T(!new)>(capacity: nat, v: T) returns (states: seq<State<T>>, actions: seq<Action<T>>)
    requires capacity > 0
    ensures |states| == |actions| + 1 && |actions| == TWO31 * capacity + 3 && states[0] == Init(capacity)
    ensures forall i {:trigger actions[i]} | 0 <= i < |actions| :: Step(states[i], actions[i], states[i + 1])
    ensures |states[|actions|].slots| == capacity && !Safe(states[|actions|])
  {
    var k: nat := TWO31 * capacity;
    var s1, s2 := CrowdEnters(capacity, k, v);
    CrowdStarts(capacity, v);
    states, actions := CrowdStates(capacity, k, v, s1, s2), CrowdActions(k, v);
    forall i {:trigger actions[i]} | 0 <= i < |actions|
      ensures Step(states[i], actions[i], states[i + 1])
    {
      CrowdStep(capacity, k, v, s1, s2, i);
    }
  }
}
