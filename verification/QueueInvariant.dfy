/** The inductive invariant of the work queue, relating each reachable state to the
    simple queue of module Fifo. */
module QueueInvariant {
  import opened Basics
  import opened WorkQueue
  import opened Fifo

  // ----- counting sends

  /** Groups of sends that hold or owe a token. */
  datatype Group =
    | HoldsToken          // took a writer token, record not yet inserted
    | Unposted            // record inserted, reader token not yet posted
    | Awaits(slot: nat)   // asked for an acknowledgement on the slot and has not got it
    | Ahead(steps: nat)   // has at least so many steps to take before it returns

  /** Steps of a WQ_send up to its wait for an acknowledgement. */
  function SendStepsLeft(pc: SendPc): nat {
    match pc
    case AtWriter => 9
    case AtLock => 8
    case AtClear => 7
    case AtCopy => 6
    case AtSize => 5
    case AtFlag => 4
    case AtAdvance => 3
    case AtUnlock => 2
    case AtPost => 1
    case _ => 0
  }

  /** Steps of a WQ_send up to its return. */
  function StepsAhead(pc: SendPc): nat { if pc.SendDone? then 0 else 1 + SendStepsLeft(pc) }

  predicate In(g: Group, t: Send) {
    match g
    case HoldsToken => t.pc in {AtLock, AtClear, AtCopy, AtSize, AtFlag, AtAdvance}
    case Unposted => t.pc in {AtUnlock, AtPost}
    case Awaits(k) => t.ackSema == Some(k) && t.pc in {AtAdvance, AtUnlock, AtPost, AtAck}
    case Ahead(n) => n <= StepsAhead(t.pc)
  }

  ghost function Members(m: map<nat, Send>, g: Group): set<nat> {
    set id | id in m && In(g, m[id])
  }

  ghost function Count(m: map<nat, Send>, g: Group): nat { |Members(m, g)| }

  function One(b: bool): nat { if b then 1 else 0 }

  lemma SizeWithout(ids: set<nat>, id: nat)
    ensures |ids| == |ids - {id}| + One(id in ids)
  {
    if id in ids {
      assert ids == (ids - {id}) + {id};
    } else {
      assert ids == ids - {id};
    }
  }

  lemma CountAfter(m: map<nat, Send>, id: nat, t: Send, g: Group)
    ensures Count(m[id := t], g) == Count(m, g) - One(id in m && In(g, m[id])) + One(In(g, t))
  {
    var was, now := Members(m, g), Members(m[id := t], g);
    assert now - {id} == was - {id};
    SizeWithout(was, id);
    SizeWithout(now, id);
  }

  lemma CountsAfter(m: map<nat, Send>, id: nat, t: Send)
    ensures forall g :: Count(m[id := t], g) == Count(m, g) - One(id in m && In(g, m[id])) + One(In(g, t))
  {
    forall g ensures Count(m[id := t], g) == Count(m, g) - One(id in m && In(g, m[id])) + One(In(g, t)) {
      CountAfter(m, id, t, g);
    }
  }

  lemma CountAtLeast(m: map<nat, Send>, id: nat, g: Group)
    requires id in m && In(g, m[id])
    ensures Count(m, g) > 0
  {
    assert id in Members(m, g);
  }

  // ----- the parts of the invariant

  /** The slot `i` places after `head` in a ring of `length`. */
  function Ring(head: nat, i: nat, length: nat): nat {
    if head + i < length then head + i else head + i - length
  }

  /** Number of records in the ring: inserted and not yet released. */
  function Occupied(f: Fifo): int { |f.inserted| - f.released }

  predicate OnLoan(f: Fifo) { f.delivered > f.released }

  predicate SendInSection(pc: SendPc) { pc in {AtClear, AtCopy, AtSize, AtFlag, AtAdvance, AtUnlock} }

  predicate RecvInSection(pc: RecvPc) {
    pc in {ReTest, RePostAck, ReClearAck, ReClearSignal, ReAdvance, ReUnlock, ReSkip, DePar, DeSize, DeMark, DeUnlock}
  }

  predicate Inserted(pc: SendPc) { pc in {AtUnlock, AtPost, AtAck, SendDone(Signaled)} }

  ghost predicate Shape(s: State, f: Fifo) {
    && s.Wf()
    && f.released <= f.delivered <= f.released + 1
    && f.delivered <= |f.inserted|
    && Occupied(f) <= |s.slots|
    && s.tail == Ring(s.head, Occupied(f), |s.slots|)
  }

  /** Exactly the owner of the mutex is inside a critical section. */
  ghost predicate Mutex(s: State) {
    && (forall id :: id in s.sends ==> (SendInSection(s.sends[id].pc) <==> s.owner == BySend(id)))
    && (s.owner.BySend? ==> s.owner.id in s.sends)
    && (RecvInSection(s.recv.pc) <==> s.owner == ByRecv)
  }

  ghost predicate WriterTokens(s: State, f: Fifo) {
    s.writer + Count(s.sends, HoldsToken) + Occupied(f) + One(s.recv.pc in {ReUnlock, RePostWriter}) == |s.slots|
  }

  ghost predicate ReaderTokens(s: State, f: Fifo) {
    s.reader + Count(s.sends, Unposted) + One(s.recv.pc in {DeLock, DePar, DeSize, DeMark}) + One(OnLoan(f))
      == Occupied(f)
  }

  /** The send in the critical section has just flagged the tail slot. */
  predicate TailFlagged(s: State) {
    s.owner.BySend? && s.owner.id in s.sends && s.sends[s.owner.id].pc == AtAdvance && s.sends[s.owner.id].block
  }

  /** The flag bits the slot `i` places after head must have. */
  predicate SignalExpected(s: State, f: Fifo, i: nat) { i == 0 && OnLoan(f) && s.recv.pc != ReAdvance }

  predicate AckExpected(s: State, f: Fifo, i: nat)
    requires f.released <= |f.inserted|
  {
    if i < Occupied(f) then
      f.inserted[f.released + i].block && !(i == 0 && s.recv.pc in {ReClearSignal, ReAdvance})
    else
      i == Occupied(f) && TailFlagged(s)
  }

  predicate SignalAt(s: State, f: Fifo, i: nat)
    requires s.head < |s.slots| && i < |s.slots|
  {
    s.slots[Ring(s.head, i, |s.slots|)].signaled <==> SignalExpected(s, f, i)
  }

  predicate RequestAt(s: State, f: Fifo, i: nat)
    requires f.released <= |f.inserted| && s.head < |s.slots| && i < |s.slots|
  {
    s.slots[Ring(s.head, i, |s.slots|)].semaAck <==> AckExpected(s, f, i)
  }

  predicate FlagsAt(s: State, f: Fifo, i: nat)
    requires f.released <= |f.inserted| && s.head < |s.slots| && i < |s.slots|
  {
    SignalAt(s, f, i) && RequestAt(s, f, i)
  }

  ghost predicate Flags(s: State, f: Fifo)
    requires Shape(s, f)
  {
    forall i :: 0 <= i < |s.slots| ==> FlagsAt(s, f, i)
  }

  /** The ring holds exactly the unreleased records, in order. */
  ghost predicate Contents(s: State, f: Fifo)
    requires Shape(s, f)
  {
    forall i :: 0 <= i < Occupied(f) ==> ContentAt(s, f, i)
  }

  predicate ContentAt(s: State, f: Fifo, i: nat)
    requires s.head < |s.slots| && f.released <= |f.inserted| && i < Occupied(f) <= |s.slots|
  {
    var e, r := s.slots[Ring(s.head, i, |s.slots|)], f.inserted[f.released + i];
    |r.par| <= s.size && e.par == Padded(r.par, s.size) && e.npar == |r.par|
  }

  /** What the send in the critical section has written to the tail slot so far. */
  ghost predicate Writing(s: State)
    requires s.Wf()
  {
    forall id :: id in s.sends ==> WritingAt(s, s.sends[id])
  }

  predicate WritingAt(s: State, t: Send)
    requires s.tail < |s.slots| && |t.par| <= s.size
  {
    var e := s.slots[s.tail];
    && (t.pc == AtCopy ==> e.par == Zeros(s.size))
    && (t.pc in {AtSize, AtFlag, AtAdvance} ==> e.par == Padded(t.par, s.size))
    && (t.pc in {AtFlag, AtAdvance} ==> e.npar == |t.par|)
  }

  /** Where the receiver is determines whether a slot is on loan and what its locals hold. */
  ghost predicate Receiver(s: State, f: Fifo)
    requires Shape(s, f)
  {
    && (match s.recv.pc
        case Idle(last) => OnLoan(f) <==> last == Signaled
        case ReLock => true
        case ReTest => true
        case RePostAck => OnLoan(f) && s.slots[s.head].semaAck
        case ReClearAck => OnLoan(f) && s.slots[s.head].semaAck
        case ReClearSignal => OnLoan(f)
        case ReAdvance => OnLoan(f)
        case DeUnlock => OnLoan(f)
        case DeSize => !OnLoan(f) && s.recv.slot == s.head
        case DeMark => !OnLoan(f) && s.recv.slot == s.head && s.recv.npar == s.slots[s.head].npar
        case _ => !OnLoan(f))
    && (OnLoan(f) ==> s.recv.slot == s.head == f.lent && s.recv.npar == s.slots[s.head].npar)
  }

  ghost predicate Senders(s: State)
    requires s.Wf()
  {
    forall id :: id in s.sends ==> SenderAt(s, s.sends[id])
  }

  /** A send knows where to wait once it has asked for an acknowledgement. */
  predicate SenderAt(s: State, t: Send) {
    && (t.ackSema.Some? <==> t.block && (t.pc == AtAdvance || Inserted(t.pc)))
    && (t.pc == AtAdvance && t.block ==> t.ackSema == Some(s.tail))
  }

  /** For every slot: the sends still owed an acknowledgement equal the request flag plus
      the acknowledgements posted and not yet taken.  (Between posting an acknowledgement
      and clearing its request, both are there for the same send.) */
  ghost predicate Acks(s: State)
    requires s.Wf()
  {
    forall k :: 0 <= k < |s.slots| ==> AcksAt(s, k)
  }

  ghost predicate AcksAt(s: State, k: nat)
    requires k < |s.slots|
  {
    Count(s.sends, Awaits(k)) + One(s.recv.pc == ReClearAck && s.head == k) == One(s.slots[k].semaAck) + s.slots[k].ack
  }

  /** Every inserted record is that of a send that got through its critical section. */
  ghost predicate Origins(s: State, f: Fifo) {
    forall j :: 0 <= j < |f.inserted| ==> OriginOf(s, f.inserted[j])
  }

  predicate OriginOf(s: State, r: Record) {
    && r.id in s.sends && Inserted(s.sends[r.id].pc)
    && r.par == s.sends[r.id].par && r.block == s.sends[r.id].block
  }

  /** No send inserts twice. */
  ghost predicate Once(f: Fifo) {
    forall j, k :: 0 <= j < k < |f.inserted| ==> f.inserted[j].id != f.inserted[k].id
  }

  /** Every send that got through its critical section has its record inserted. */
  ghost predicate Recorded(s: State, f: Fifo) {
    forall id :: id in s.sends && Inserted(s.sends[id].pc) ==> HasRecord(f, id)
  }

  /** A blocking send whose record is in the ring waits on the slot of that record. */
  ghost predicate AckSlots(s: State, f: Fifo)
    requires Shape(s, f)
  {
    forall i :: 0 <= i < Occupied(f) ==> AckSlotAt(s, f, i)
  }

  predicate AckSlotAt(s: State, f: Fifo, i: nat)
    requires f.released <= |f.inserted| && i < Occupied(f)
  {
    var r := f.inserted[f.released + i];
    r.block ==> r.id in s.sends && s.sends[r.id].ackSema == Some(Ring(s.head, i, |s.slots|))
  }

  ghost predicate HasRecord(f: Fifo, id: nat) {
    exists j :: 0 <= j < |f.inserted| && f.inserted[j].id == id
  }

  /** The ring, the tokens and who is in a critical section. */
  ghost predicate InvRing(s: State, f: Fifo) {
    && Shape(s, f)
    && Mutex(s)
    && WriterTokens(s, f)
    && ReaderTokens(s, f)
    && Flags(s, f)
    && Contents(s, f)
    && Writing(s)
    && Receiver(s, f)
  }

  /** The sends, their records and their acknowledgements. */
  ghost predicate InvCalls(s: State, f: Fifo) {
    && Shape(s, f)
    && Senders(s)
    && Acks(s)
    && Origins(s, f)
    && Once(f)
    && Recorded(s, f)
    && AckSlots(s, f)
  }

  ghost predicate Inv(s: State, f: Fifo) { InvRing(s, f) && InvCalls(s, f) }

  lemma InitInv(size: nat, length: nat)
    requires length > 0
    ensures Inv(Init(size, length), EMPTY)
  {
    forall g ensures Count(map[], g) == 0 {
      assert Members(map[], g) == {};
    }
  }

  /** The step is one the simple queue allows, and the invariant holds after it. */
  ghost predicate Keeps(s: State, f: Fifo, l: Label)
    requires s.Wf() && Enabled(s, l)
  {
    Allows(f, EventOf(s, l), s.size, |s.slots|) && Inv(Apply(s, l), After(f, EventOf(s, l)))
  }
}
