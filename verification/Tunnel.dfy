/**
 * ChatTunnel: a ring of message slots shared by one sender and one receiver without a lock. Every load, every store
 * and every byte copied is a step of its own, and the steps of the two sides interleave in any order.
 */
module Tunnel {

  import opened Bits
  import opened Wrappers

  const TUNNEL_SIZE: nat := 256
  const MSG_LEN: nat := 64

  /** What strncpy may read: a NUL ends it, or there are enough bytes without one. */
  type Text = d: seq<Byte> | |d| >= MSG_LEN - 1 || 0 in d witness [0]

  type Message = m: seq<Byte> | |m| == MSG_LEN witness seq(MSG_LEN, _ => 0)

  function Zeros(n: nat): (z: seq<Byte>)
    ensures |z| == n
  {
    seq(n, _ => 0)
  }

  /** How many of the first bytes are copied: up to the first NUL, 63 at most. */
  function Cut(data: Text): (n: nat)
    ensures n <= MSG_LEN - 1 && n <= |data| && 0 !in data[..n]
    ensures n < MSG_LEN - 1 ==> n < |data| && data[n] == 0
  {
    CutFrom(data, 0)
  }

  function CutFrom(data: Text, k: nat): (n: nat)
    requires k <= MSG_LEN - 1 && k <= |data| && 0 !in data[..k]
    ensures k <= n <= MSG_LEN - 1 && n <= |data| && 0 !in data[..n]
    ensures n < MSG_LEN - 1 ==> n < |data| && data[n] == 0
    decreases MSG_LEN - k
  {
    if k == MSG_LEN - 1 || data[k] == 0 then k
    else
      assert data[..k + 1] == data[..k] + [data[k]];
      CutFrom(data, k + 1)
  }

  /** A message as its slot holds it: the text cut after at most 63 bytes, and zeros. */
  function Payload(data: Text): Message { data[..Cut(data)] + Zeros(MSG_LEN - Cut(data)) }

  // ---------------------------------------------------------------- the simple form: a bounded queue

  /** What an operation amounts to, at the one moment it takes effect. */
  datatype Op = Put(m: Message) | Full | Get(m: Message) | Empty

  const CAPACITY: nat := TUNNEL_SIZE - 1

  predicate Allowed(q: seq<Message>, op: Op) {
    match op
    case Put(_) => |q| < CAPACITY
    case Full => |q| == CAPACITY
    case Get(m) => q != [] && q[0] == m
    case Empty => q == []
  }

  function After(q: seq<Message>, op: Op): seq<Message>
    requires Allowed(q, op)
  {
    match op
    case Put(m) => q + [m]
    case Get(_) => q[1..]
    case Full => q
    case Empty => q
  }

  // ---------------------------------------------------------------- what can be observed

  datatype Side = SENDER | RECEIVER

  datatype Request = Send(data: Text) | Receive

  datatype Reply = Sent(ok: bool) | Received(m: Message) | Nothing

  datatype Action =
    | Call(side: Side, request: Request)
    | Commit(side: Side, op: Op)
    | Return(side: Side, reply: Reply)

  /** The effect an operation may have, and what it then returns. */
  predicate Fits(request: Request, op: Op) {
    match request
    case Send(data) => op == Put(Payload(data)) || op == Full
    case Receive => op.Get? || op.Empty?
  }

  function ReplyOf(op: Op): Reply {
    match op
    case Put(_) => Sent(true)
    case Full => Sent(false)
    case Get(m) => Received(m)
    case Empty => Nothing
  }

  datatype Phase = Outside | Inside(request: Request) | Committed(op: Op) | Wrong

  /** Where a side stands when its calls, effects and returns have come in this order; `Wrong` if it cannot. */
  function PhaseOf(trace: seq<Action>, side: Side): Phase {
    if trace == [] then Outside else
    var last, before := trace[|trace| - 1], PhaseOf(trace[..|trace| - 1], side);
    if last.side != side then before else
    match (before, last)
    case (Outside, Call(_, request)) => if request.Send? == side.SENDER? then Inside(request) else Wrong
    case (Inside(request), Commit(_, op)) => if Fits(request, op) then Committed(op) else Wrong
    case (Committed(op), Return(_, reply)) => if reply == ReplyOf(op) then Outside else Wrong
    case _ => Wrong
  }

  /** The queue after the effects, taken in the order in which they happened, if the queue allows them all. */
  function QueueOf(trace: seq<Action>): Option<seq<Message>> {
    if trace == [] then Some([]) else
    var last, before := trace[|trace| - 1], QueueOf(trace[..|trace| - 1]);
    if before.None? || !last.Commit? then before
    else if Allowed(before.value, last.op) then Some(After(before.value, last.op))
    else None
  }

  /**
   * A trace is linearizable when each operation takes effect once, between its call and its return, with the effects
   * those of a queue of capacity 255 and every reply the one its effect calls for.
   */
  predicate Linearizable(trace: seq<Action>) {
    QueueOf(trace).Some? && PhaseOf(trace, SENDER) != Wrong && PhaseOf(trace, RECEIVER) != Wrong
  }

  function Accepted(trace: seq<Action>): seq<Message> {
    if trace == [] then [] else
    var last, before := trace[|trace| - 1], Accepted(trace[..|trace| - 1]);
    if last.Commit? && last.op.Put? then before + [last.op.m] else before
  }

  function Taken(trace: seq<Action>): seq<Message> {
    if trace == [] then [] else
    var last, before := trace[|trace| - 1], Taken(trace[..|trace| - 1]);
    if last.Commit? && last.op.Get? then before + [last.op.m] else before
  }

  /** The messages taken are the first ones accepted, in order; the rest, at most 255, are pending. */
  lemma {:induction false} TakenIsPrefix(trace: seq<Action>)
    requires QueueOf(trace).Some?
    ensures Accepted(trace) == Taken(trace) + QueueOf(trace).value
    ensures |QueueOf(trace).value| <= 255
  {
    if trace != [] {
      var last, rest := trace[|trace| - 1], trace[..|trace| - 1];
      TakenIsPrefix(rest);
      var q := QueueOf(rest).value;
      if last.Commit? && last.op.Get? {
        assert q == [q[0]] + q[1..];
      }
    }
  }

  // ---------------------------------------------------------------- the ring, step by step

  datatype Sender =
    | Idle
    | Called(data: Text)
    | SawTail(data: Text, tail: nat)
    | Clearing(data: Text, tail: nat, k: nat)
    | Copying(data: Text, tail: nat, k: nat, ended: bool)
    | Done(ok: bool)

  datatype Receiver =
    | Resting
    | Asked
    | SawHead(head: nat)
    | Fetching(head: nat, got: seq<Byte>)
    | Fetched(got: seq<Byte>)
    | FoundNone

  datatype State = State(
    head: nat, tail: nat, buffer: seq<seq<Byte>>, sender: Sender, receiver: Receiver, trace: seq<Action>)

  datatype Event = StartSend(data: Text) | SenderStep | StartReceive | ReceiverStep

  function Slot(from: nat, i: nat): nat { (from + i) % TUNNEL_SIZE }

  predicate Shaped(s: State) {
    s.head < TUNNEL_SIZE && s.tail < TUNNEL_SIZE && |s.buffer| == TUNNEL_SIZE
    && (forall i :: 0 <= i < TUNNEL_SIZE ==> |s.buffer[i]| == MSG_LEN)
    && (s.sender.SawTail? || s.sender.Clearing? || s.sender.Copying? ==> s.sender.tail < TUNNEL_SIZE)
    && (s.receiver.SawHead? || s.receiver.Fetching? ==> s.receiver.head < TUNNEL_SIZE)
    && (s.sender.Clearing? ==> s.sender.k <= MSG_LEN)
    && (s.sender.Copying? ==> s.sender.k <= MSG_LEN - 1 && (!s.sender.ended ==> s.sender.k <= Cut(s.sender.data)))
    && (s.receiver.Fetching? ==> |s.receiver.got| <= MSG_LEN)
    && (s.receiver.Fetched? ==> |s.receiver.got| == MSG_LEN)
  }

  function Written(buffer: seq<seq<Byte>>, slot: nat, k: nat, b: Byte): seq<seq<Byte>>
    requires slot < |buffer| && k < |buffer[slot]|
  {
    var row: seq<Byte> := buffer[slot][k := b];
    buffer[slot := row]
  }

  /** One step of AutumnAPI_Tunnel_Send_Msg. */
  function SenderNext(s: State): (r: State)
    requires Shaped(s)
    ensures Shaped(r)
  {
    match s.sender
    case Idle => s
    case Called(data) => s.(sender := SawTail(data, s.tail))
    case SawTail(data, tail) =>
      if Slot(tail, 1) == s.head then s.(sender := Done(false), trace := s.trace + [Commit(SENDER, Full)])
      else s.(sender := Clearing(data, tail, 0))
    case Clearing(data, tail, k) =>
      if k < MSG_LEN then s.(buffer := Written(s.buffer, tail, k, 0), sender := Clearing(data, tail, k + 1))
      else s.(sender := Copying(data, tail, 0, false))
    case Copying(data, tail, k, ended) =>
      if k < MSG_LEN - 1 then
        var over := ended || data[k] == 0;
        s.(buffer := Written(s.buffer, tail, k, if over then 0 else data[k]),
           sender := Copying(data, tail, k + 1, over))
      else s.(tail := Slot(tail, 1), sender := Done(true), trace := s.trace + [Commit(SENDER, Put(Payload(data)))])
    case Done(ok) => s.(sender := Idle, trace := s.trace + [Return(SENDER, Sent(ok))])
  }

  /** One step of AutumnAPI_Tunnel_ReceiveFromFriend. */
  function ReceiverNext(s: State): (r: State)
    requires Shaped(s)
    ensures Shaped(r)
  {
    match s.receiver
    case Resting => s
    case Asked => s.(receiver := SawHead(s.head))
    case SawHead(head) =>
      if head == s.tail then s.(receiver := FoundNone, trace := s.trace + [Commit(RECEIVER, Empty)])
      else s.(receiver := Fetching(head, []))
    case Fetching(head, got) =>
      if |got| < MSG_LEN then s.(receiver := Fetching(head, got + [s.buffer[head][|got|]]))
      else s.(head := Slot(head, 1), receiver := Fetched(got), trace := s.trace + [Commit(RECEIVER, Get(got))])
    case Fetched(got) => s.(receiver := Resting, trace := s.trace + [Return(RECEIVER, Received(got))])
    case FoundNone => s.(receiver := Resting, trace := s.trace + [Return(RECEIVER, Nothing)])
  }

  /** Any event can come at any time; one that its side is not ready for changes nothing. */
  function Next(s: State, e: Event): (r: State)
    requires Shaped(s)
    ensures Shaped(r)
  {
    match e
    case StartSend(data) =>
      if s.sender.Idle? then s.(sender := Called(data), trace := s.trace + [Call(SENDER, Send(data))]) else s
    case StartReceive =>
      if s.receiver.Resting? then s.(receiver := Asked, trace := s.trace + [Call(RECEIVER, Receive)]) else s
    case SenderStep => SenderNext(s)
    case ReceiverStep => ReceiverNext(s)
  }

  /** A new tunnel, both sides outside. */
  function Start(buffer: seq<seq<Byte>>): State { State(0, 0, buffer, Idle, Resting, []) }

  function Run(s: State, events: seq<Event>): (r: State)
    requires Shaped(s)
    ensures Shaped(r)
  {
    if events == [] then s else Next(Run(s, events[..|events| - 1]), events[|events| - 1])
  }

  // ---------------------------------------------------------------- what every step keeps

  /** The slots from head up to tail hold the pending messages. */
  predicate RingHolds(s: State, q: seq<Message>)
    requires Shaped(s)
  {
    |q| <= CAPACITY && s.tail == Slot(s.head, |q|)
    && forall i :: 0 <= i < |q| ==> s.buffer[Slot(s.head, i)] == q[i]
  }

  predicate HalfCopied(row: seq<Byte>, data: Text, k: nat) {
    |row| == MSG_LEN && forall j :: 0 <= j < MSG_LEN ==> row[j] == if j < k then Payload(data)[j] else 0
  }

  predicate SenderHolds(s: State, q: seq<Message>)
    requires Shaped(s)
  {
    match s.sender
    case SawTail(_, tail) => tail == s.tail
    case Clearing(_, tail, k) => tail == s.tail && |q| < CAPACITY && forall j :: 0 <= j < k ==> s.buffer[tail][j] == 0
    case Copying(data, tail, k, ended) =>
      tail == s.tail && |q| < CAPACITY && HalfCopied(s.buffer[tail], data, k) && (ended ==> Cut(data) < k)
    case _ => true
  }

  predicate ReceiverHolds(s: State, q: seq<Message>)
    requires Shaped(s)
  {
    match s.receiver
    case SawHead(head) => head == s.head
    case Fetching(head, got) => head == s.head && q != [] && got == q[0][..|got|]
    case _ => true
  }

  /** Each side is where its calls, effects and returns say. */
  predicate PhasesHold(s: State) {
    && (match s.sender
        case Idle => PhaseOf(s.trace, SENDER) == Outside
        case Done(ok) => PhaseOf(s.trace, SENDER).Committed? && ReplyOf(PhaseOf(s.trace, SENDER).op) == Sent(ok)
        case _ => PhaseOf(s.trace, SENDER) == Inside(Send(s.sender.data)))
    && (match s.receiver
        case Resting => PhaseOf(s.trace, RECEIVER) == Outside
        case Fetched(got) =>
          PhaseOf(s.trace, RECEIVER).Committed? && |got| == MSG_LEN &&
            ReplyOf(PhaseOf(s.trace, RECEIVER).op) == Received(got)
        case FoundNone => PhaseOf(s.trace, RECEIVER) == Committed(Empty)
        case _ => PhaseOf(s.trace, RECEIVER) == Inside(Receive))
  }

  predicate Invariant(s: State) {
    && Shaped(s) && PhasesHold(s) && QueueOf(s.trace).Some?
    && var q := QueueOf(s.trace).value;
       RingHolds(s, q) && SenderHolds(s, q) && ReceiverHolds(s, q)
  }

  lemma OneMore(trace: seq<Action>, a: Action)
    ensures var t := trace + [a];
            && QueueOf(t) == (if QueueOf(trace).None? || !a.Commit? then QueueOf(trace)
                              else if Allowed(QueueOf(trace).value, a.op) then Some(After(QueueOf(trace).value, a.op))
                              else None)
            && forall side ::
                 PhaseOf(t, side) ==
                   if a.side != side then PhaseOf(trace, side) else
                   match (PhaseOf(trace, side), a)
                   case (Outside, Call(_, request)) => if request.Send? == side.SENDER? then Inside(request) else Wrong
                   case (Inside(request), Commit(_, op)) => if Fits(request, op) then Committed(op) else Wrong
                   case (Committed(op), Return(_, reply)) => if reply == ReplyOf(op) then Outside else Wrong
                   case _ => Wrong
  {
    assert (trace + [a])[..|trace|] == trace;
  }

  lemma SlotValue(from: nat, i: nat)
    requires from < TUNNEL_SIZE && i <= TUNNEL_SIZE
    ensures Slot(from, i) == if from + i < TUNNEL_SIZE then from + i else from + i - TUNNEL_SIZE
  {}

  /** The ring tells all counts from 0 to 255 apart: no pending message shares its slot with the next one. */
  lemma SlotsDiffer(from: nat, i: nat, j: nat)
    requires from < TUNNEL_SIZE && i < j < TUNNEL_SIZE
    ensures Slot(from, i) != Slot(from, j)
  {
    hide Slot;
    SlotValue(from, i);
    SlotValue(from, j);
  }

  lemma SlotAfter(from: nat, i: nat)
    requires from < TUNNEL_SIZE && i < TUNNEL_SIZE
    ensures Slot(from, i) < TUNNEL_SIZE
    ensures Slot(Slot(from, i), 1) == Slot(from, i + 1) == Slot(Slot(from, 1), i)
  {
    hide Slot;
    SlotValue(from, i);
    SlotValue(from, 1);
    SlotValue(from, i + 1);
    SlotValue(Slot(from, i), 1);
    SlotValue(Slot(from, 1), i);
  }

  /** A full ring is what the sender's comparison finds, and an empty one the receiver's. */
  lemma FullAndEmpty(s: State, q: seq<Message>)
    requires Shaped(s) && RingHolds(s, q)
    ensures Slot(s.tail, 1) == s.head <==> |q| == 255
    ensures s.head == s.tail <==> q == []
  {
    hide Slot;
    SlotValue(s.head, |q|);
    SlotValue(s.tail, 1);
  }

  lemma WritingTheTail(s: State, q: seq<Message>, k: nat, b: Byte)
    requires Shaped(s) && RingHolds(s, q) && |q| < CAPACITY && k < MSG_LEN
    ensures var n := s.(buffer := Written(s.buffer, s.tail, k, b)); Shaped(n) && RingHolds(n, q)
  {
    hide Slot, Cut;
    forall i | 0 <= i < |q| ensures Slot(s.head, i) != s.tail {
      SlotsDiffer(s.head, i, |q|);
    }
    forall i | 0 <= i < |q| ensures Slot(s.head, i) < TUNNEL_SIZE { SlotValue(s.head, i); }
  }

  lemma PayloadAt(data: Text, j: nat)
    requires j < MSG_LEN
    ensures Payload(data)[j] == if j < Cut(data) then data[j] else 0
  {
    hide Cut;
  }

  lemma SenderLooks(s: State)
    requires Invariant(s) && (s.sender.Idle? || s.sender.Called? || s.sender.SawTail? || s.sender.Done?)
    ensures Invariant(SenderNext(s))
  {
    hide Slot, Cut, Payload, QueueOf, PhaseOf;
    FullAndEmpty(s, QueueOf(s.trace).value);
    match s.sender
    case Idle =>
    case Called(data) =>
    case SawTail(data, tail) => OneMore(s.trace, Commit(SENDER, Full));
    case Done(ok) => OneMore(s.trace, Return(SENDER, Sent(ok)));
  }

  lemma SenderClears(s: State)
    requires Invariant(s) && s.sender.Clearing?
    ensures Invariant(SenderNext(s))
  {
    hide Slot, Cut, Payload, QueueOf, PhaseOf;
    if s.sender.k < MSG_LEN {
      WritingTheTail(s, QueueOf(s.trace).value, s.sender.k, 0);
    }
  }

  lemma SenderCopies(s: State)
    requires Invariant(s) && s.sender.Copying? && s.sender.k < MSG_LEN - 1
    ensures Invariant(SenderNext(s))
  {
    hide Slot, Payload, QueueOf, PhaseOf, CutFrom;
    var (data, k) := (s.sender.data, s.sender.k);
    var over := s.sender.ended || data[k] == 0;
    WritingTheTail(s, QueueOf(s.trace).value, k, if over then 0 else data[k]);
    PayloadAt(data, k);
    assert k < Cut(data) <==> !over;
  }

  lemma SenderPublishes(s: State)
    requires Invariant(s) && s.sender.Copying? && s.sender.k == MSG_LEN - 1
    ensures Invariant(SenderNext(s))
  {
    hide Slot, Payload, QueueOf, PhaseOf, Cut;
    var (q, data) := (QueueOf(s.trace).value, s.sender.data);
    PayloadAt(data, MSG_LEN - 1);
    assert s.buffer[s.tail] == Payload(data);
    SlotAfter(s.head, |q|);
    OneMore(s.trace, Commit(SENDER, Put(Payload(data))));
  }

  lemma ReceiverLooks(s: State)
    requires Invariant(s) && !s.receiver.Fetching?
    ensures Invariant(ReceiverNext(s))
  {
    hide Slot, Cut, Payload, QueueOf, PhaseOf;
    FullAndEmpty(s, QueueOf(s.trace).value);
    match s.receiver
    case Resting =>
    case Asked =>
    case SawHead(head) => OneMore(s.trace, Commit(RECEIVER, Empty));
    case Fetched(got) => OneMore(s.trace, Return(RECEIVER, Received(got)));
    case FoundNone => OneMore(s.trace, Return(RECEIVER, Nothing));
  }

  lemma ReceiverFetches(s: State)
    requires Invariant(s) && s.receiver.Fetching?
    ensures Invariant(ReceiverNext(s))
  {
    hide Slot, Cut, Payload, QueueOf, PhaseOf;
    var (q, got) := (QueueOf(s.trace).value, s.receiver.got);
    SlotValue(s.head, 0);
    if |got| < MSG_LEN {
      assert q[0][..|got| + 1] == got + [q[0][|got|]];
    } else {
      assert q[0][..MSG_LEN] == q[0];
      OneMore(s.trace, Commit(RECEIVER, Get(got)));
      SlotValue(s.head, 1);
      TakingTheHead(s, q);
    }
  }

  lemma TakingTheHead(s: State, q: seq<Message>)
    requires Shaped(s) && RingHolds(s, q) && q != []
    ensures Slot(s.head, 1) < TUNNEL_SIZE && RingHolds(s.(head := Slot(s.head, 1)), q[1..])
  {
    hide Slot, Cut;
    SlotValue(s.head, 1);
    SlotAfter(s.head, |q| - 1);
    forall i | 0 <= i < |q[1..]|
      ensures Slot(Slot(s.head, 1), i) < TUNNEL_SIZE && s.buffer[Slot(Slot(s.head, 1), i)] == q[1..][i]
    {
      SlotAfter(s.head, i);
      SlotAfter(s.head, i + 1);
    }
  }

  lemma StepKeeps(s: State, e: Event)
    requires Invariant(s)
    ensures Invariant(Next(s, e))
  {
    hide Slot, Cut, Payload, QueueOf, PhaseOf;
    match e
    case StartSend(data) => OneMore(s.trace, Call(SENDER, Send(data)));
    case StartReceive => OneMore(s.trace, Call(RECEIVER, Receive));
    case SenderStep =>
      hide Invariant;
      if s.sender.Clearing? { SenderClears(s); }
      else if s.sender.Copying? {
        if s.sender.k < MSG_LEN - 1 { SenderCopies(s); } else { SenderPublishes(s); }
      } else { SenderLooks(s); }
    case ReceiverStep =>
      if s.receiver.Fetching? { ReceiverFetches(s); } else { ReceiverLooks(s); }
  }

  // ---------------------------------------------------------------- whole runs

  predicate EmptyRing(buffer: seq<seq<Byte>>) {
    |buffer| == TUNNEL_SIZE && forall i :: 0 <= i < TUNNEL_SIZE ==> |buffer[i]| == MSG_LEN
  }

  lemma {:induction false} RunKeeps(buffer: seq<seq<Byte>>, events: seq<Event>)
    requires EmptyRing(buffer)
    ensures Shaped(Start(buffer)) && Invariant(Run(Start(buffer), events))
  {
    hide Slot, Cut, Payload;
    if events == [] {
      SlotValue(0, 0);
    } else {
      hide Invariant;
      RunKeeps(buffer, events[..|events| - 1]);
      StepKeeps(Run(Start(buffer), events[..|events| - 1]), events[|events| - 1]);
    }
  }

  /** Main theorem: however the steps of the two sides interleave, the tunnel behaves as a queue of capacity 255. */
  lemma EveryRunIsLinearizable(buffer: seq<seq<Byte>>, events: seq<Event>)
    requires EmptyRing(buffer) && Shaped(Start(buffer))
    ensures var trace := Run(Start(buffer), events).trace;
            && Linearizable(trace)
            && Taken(trace) <= Accepted(trace)
            && |Accepted(trace)| - |Taken(trace)| <= 255
  {
    hide Slot, Cut, Payload, Run, QueueOf, Accepted, Taken;
    RunKeeps(buffer, events);
    TakenIsPrefix(Run(Start(buffer), events).trace);
  }

  /** How many steps of its own the sender still needs at most, whatever the receiver does. */
  function SenderLeft(sender: Sender): nat {
    match sender
    case Idle => 0
    case Done(_) => 1
    case Copying(_, _, k, _) => 2 + (if k < MSG_LEN - 1 then MSG_LEN - 1 - k else 0)
    case Clearing(_, _, k) => 2 + MSG_LEN + (if k < MSG_LEN then MSG_LEN - k else 0)
    case SawTail(_, _) => 3 + 2 * MSG_LEN
    case Called(_) => 4 + 2 * MSG_LEN
  }

  function ReceiverLeft(receiver: Receiver): nat {
    match receiver
    case Resting => 0
    case Fetched(_) => 1
    case FoundNone => 1
    case Fetching(_, got) => 2 + (if |got| < MSG_LEN then MSG_LEN - |got| else 0)
    case SawHead(_) => 3 + MSG_LEN
    case Asked => 4 + MSG_LEN
  }

  /** Neither side ever waits for the other: each step of a call brings its end nearer and nothing puts it off. */
  lemma WaitFree(s: State, e: Event)
    requires Shaped(s)
    ensures e.SenderStep? && !s.sender.Idle? ==> SenderLeft(Next(s, e).sender) < SenderLeft(s.sender)
    ensures !s.sender.Idle? ==> SenderLeft(Next(s, e).sender) <= SenderLeft(s.sender)
    ensures e.ReceiverStep? && !s.receiver.Resting? ==> ReceiverLeft(Next(s, e).receiver) < ReceiverLeft(s.receiver)
    ensures !s.receiver.Resting? ==> ReceiverLeft(Next(s, e).receiver) <= ReceiverLeft(s.receiver)
  {
    hide Cut, Slot, Payload;
  }

  // ---------------------------------------------------------------- the calls, undisturbed

  /** The shared memory, and the two calls when nothing interrupts them. */
  class ChatTunnel {
    var head: nat
    var tail: nat
    const buffer: array2<Byte>

    constructor (buffer: array2<Byte>)
      requires buffer.Length0 == TUNNEL_SIZE && buffer.Length1 == MSG_LEN
      ensures Valid() && this.buffer == buffer && Pending() == []
    {
      head, tail, this.buffer := 0, 0, buffer;
    }

    ghost predicate Valid()
      reads this
    {
      head < TUNNEL_SIZE && tail < TUNNEL_SIZE && buffer.Length0 == TUNNEL_SIZE && buffer.Length1 == MSG_LEN
    }

    ghost function Row(i: nat): Message
      requires i < TUNNEL_SIZE && buffer.Length0 == TUNNEL_SIZE && buffer.Length1 == MSG_LEN
      reads buffer
    {
      seq(MSG_LEN, j requires 0 <= j < MSG_LEN reads buffer => buffer[i, j])
    }

    ghost function Count(): (n: nat)
      requires Valid()
      reads this
      ensures n <= CAPACITY && tail == Slot(head, n)
    {
      if head <= tail then tail - head else tail + TUNNEL_SIZE - head
    }

    /** The messages sent and not yet received, oldest first. */
    ghost function Pending(): seq<Message>
      requires Valid()
      reads this, buffer
    {
      seq(Count(), i requires 0 <= i && Valid() reads this, buffer => Row(Slot(head, i)))
    }

    method Send(data: Text) returns (ok: bool)
      requires Valid()
      modifies this`tail, buffer
      ensures Valid() && (ok <==> |old(Pending())| < 255)
      ensures Pending() == if ok then old(Pending()) + [Payload(data)] else old(Pending())
      ensures var op := if ok then Put(Payload(data)) else Full;
              Allowed(old(Pending()), op) && Pending() == After(old(Pending()), op)
    {
      hide Cut, Payload;
      var nextTail := (tail + 1) % TUNNEL_SIZE;
      if nextTail == head {
        return false;
      }
      var k := 0;
      while k < MSG_LEN
        invariant k <= MSG_LEN && head == old(head) && tail == old(tail)
        invariant forall j :: 0 <= j < k ==> buffer[tail, j] == 0
        invariant forall i, j :: 0 <= i < TUNNEL_SIZE && 0 <= j < MSG_LEN && i != tail ==>
                    buffer[i, j] == old(buffer[i, j])
      {
        buffer[tail, k] := 0;
        k := k + 1;
      }
      k := 0;
      var ended := false;
      while k < MSG_LEN - 1
        invariant k <= MSG_LEN - 1 && head == old(head) && tail == old(tail)
        invariant if ended then Cut(data) < k else k <= Cut(data)
        invariant forall j :: 0 <= j < MSG_LEN ==> buffer[tail, j] == if j < k then Payload(data)[j] else 0
        invariant forall i, j :: 0 <= i < TUNNEL_SIZE && 0 <= j < MSG_LEN && i != tail ==>
                    buffer[i, j] == old(buffer[i, j])
      {
        PayloadAt(data, k);
        ended := ended || data[k] == 0;
        buffer[tail, k] := if ended then 0 else data[k];
        k := k + 1;
      }
      PayloadAt(data, MSG_LEN - 1);
      assert Row(tail) == Payload(data);
      ghost var n := Count();
      forall i | 0 <= i < n ensures Slot(head, i) < TUNNEL_SIZE && Row(Slot(head, i)) == old(Row(Slot(head, i))) {
        SlotsDiffer(head, i, n);
      }
      tail := nextTail;
      assert Count() == n + 1;
      return true;
    }

    method ReceiveFromFriend(out: array<Byte>) returns (ok: bool)
      requires Valid() && out.Length >= MSG_LEN
      modifies this`head, out
      ensures Valid() && out[MSG_LEN..] == old(out[MSG_LEN..])
      ensures !ok ==> out[..] == old(out[..])
      ensures ok <==> old(Pending()) != []
      ensures Pending() == if ok then old(Pending())[1..] else []
      ensures ok ==> out[..64] == old(Pending())[0]
      ensures var op := if ok then Get(out[..MSG_LEN]) else Empty;
              Allowed(old(Pending()), op) && Pending() == After(old(Pending()), op)
    {
      hide Slot, Cut, Payload;
      if head == tail {
        return false;
      }
      var k := 0;
      while k < MSG_LEN
        invariant k <= MSG_LEN && head == old(head)
        invariant out[..k] == Row(head)[..k] && out[MSG_LEN..] == old(out[MSG_LEN..])
      {
        out[k] := buffer[head, k];
        k := k + 1;
      }
      ghost var n := Count();
      forall i | 0 <= i < n ensures Slot(head, i) < TUNNEL_SIZE && Slot(Slot(head, 1), i) == Slot(head, i + 1) {
        SlotAfter(head, i);
      }
      SlotValue(head, 0);
      SlotValue(head, 1);
      head := Slot(head, 1);
      assert Count() == n - 1;
      return true;
    }
  }
}
