/** What holds of the work queue in every run, for any number of sends and one receiver. */
module QueueTheorems {
  import opened Basics
  import opened WorkQueue
  import opened Fifo
  import opened QueueInvariant
  import QueueSendSteps
  import QueueRecvSteps

  // ----- the invariant holds throughout

  /** Steps that touch no slot, cursor or mutex leave the ring as it was. */
  lemma RingKept(s: State, f: Fifo, l: Label)
    requires Inv(s, f) && Enabled(s, l) && !l.SendStep? && !l.RecvStep?
    ensures Shape(Apply(s, l), f) && Flags(Apply(s, l), f) && Contents(Apply(s, l), f)
  {
    forall i | 0 <= i < |s.slots| ensures FlagsAt(Apply(s, l), f, i) {
      assert FlagsAt(s, f, i);
    }
    forall i | 0 <= i < Occupied(f) ensures ContentAt(Apply(s, l), f, i) {
      assert ContentAt(s, f, i);
    }
  }

  lemma RecordsKept(s: State, f: Fifo, l: Label)
    requires Inv(s, f) && Enabled(s, l) && !l.SendStep? && !l.RecvStep?
    ensures Origins(Apply(s, l), f) && Recorded(Apply(s, l), f)
    ensures Shape(Apply(s, l), f) && AckSlots(Apply(s, l), f)
  {
    forall j | 0 <= j < |f.inserted| ensures OriginOf(Apply(s, l), f.inserted[j]) {
      assert OriginOf(s, f.inserted[j]);
    }
    forall i | 0 <= i < Occupied(f) ensures AckSlotAt(Apply(s, l), f, i) {
      assert AckSlotAt(s, f, i) && OriginOf(s, f.inserted[f.released + i]);
    }
  }

  lemma CountsKept(s: State, f: Fifo, l: Label)
    requires Shape(s, f) && WriterTokens(s, f) && ReaderTokens(s, f) && Enabled(s, l) && !l.SendStep? && !l.RecvStep?
    ensures WriterTokens(Apply(s, l), f) && ReaderTokens(Apply(s, l), f)
  {
    if l.CallSend? || l.SendTimeout? {
      CountsAfter(s.sends, l.id, Apply(s, l).sends[l.id]);
    }
  }

  lemma AcksKept(s: State, f: Fifo, l: Label)
    requires Shape(s, f) && Senders(s) && Acks(s) && Enabled(s, l) && !l.SendStep? && !l.RecvStep?
    ensures Acks(Apply(s, l))
  {
    if l.CallSend? || l.SendTimeout? {
      CountsAfter(s.sends, l.id, Apply(s, l).sends[l.id]);
    }
    forall k | 0 <= k < |s.slots| ensures AcksAt(Apply(s, l), k) {
      assert AcksAt(s, k);
    }
  }

  lemma MutexKept(s: State, f: Fifo, l: Label)
    requires Shape(s, f) && Mutex(s) && Enabled(s, l) && !l.SendStep? && !l.RecvStep?
    ensures Mutex(Apply(s, l))
  {
  }

  lemma WritingKept(s: State, f: Fifo, l: Label)
    requires Shape(s, f) && Writing(s) && Enabled(s, l) && !l.SendStep? && !l.RecvStep?
    ensures Writing(Apply(s, l))
  {
    forall id | id in Apply(s, l).sends ensures WritingAt(Apply(s, l), Apply(s, l).sends[id]) {
      assert id in s.sends ==> WritingAt(s, s.sends[id]);
    }
  }

  lemma SendersKept(s: State, f: Fifo, l: Label)
    requires Shape(s, f) && Senders(s) && Enabled(s, l) && !l.SendStep? && !l.RecvStep?
    ensures Senders(Apply(s, l))
  {
  }

  lemma ReceiverKept(s: State, f: Fifo, l: Label)
    requires Shape(s, f) && Receiver(s, f) && Enabled(s, l) && !l.SendStep? && !l.RecvStep?
    ensures Shape(Apply(s, l), f) && Receiver(Apply(s, l), f)
  {
  }

  /** Starting a call and giving up a wait are internal and keep the invariant. */
  lemma CallKeeps(s: State, f: Fifo, l: Label)
    requires Inv(s, f) && Enabled(s, l) && !l.SendStep? && !l.RecvStep?
    ensures Keeps(s, f, l)
  {
    RingKept(s, f, l);
    RecordsKept(s, f, l);
    CountsKept(s, f, l);
    AcksKept(s, f, l);
    MutexKept(s, f, l);
    WritingKept(s, f, l);
    SendersKept(s, f, l);
    ReceiverKept(s, f, l);
  }

  lemma StepKeeps(s: State, f: Fifo, l: Label)
    requires Inv(s, f) && Enabled(s, l)
    ensures Keeps(s, f, l)
  {
    match l
    case SendStep(id) => QueueSendSteps.SendKeeps(s, f, id);
    case RecvStep => QueueRecvSteps.RecvKeeps(s, f);
    case _ => CallKeeps(s, f, l);
  }

  /** From an empty queue the labels lead to `s`, and `tr` is what an observer sees. */
  ghost predicate Run(size: nat, length: nat, ls: seq<Label>, s: State, tr: seq<Event>) {
    length > 0 && Exec(Init(size, length), ls) == Some(s) && tr == Trace(Init(size, length), ls)
  }

  /** Refinement: whatever the interleaving, the simple queue accepts what happens, and the
      ring always represents its state. */
  lemma {:induction false} RunRefines(size: nat, length: nat, ls: seq<Label>, s: State, tr: seq<Event>)
    requires Run(size, length, ls, s, tr)
    ensures Accept(tr, size, length).Some? && Inv(s, Accept(tr, size, length).value)
    decreases |ls|
  {
    if ls == [] {
      InitInv(size, length);
    } else {
      var before := Exec(Init(size, length), Front(ls)).value;
      assert Front(tr) == Trace(Init(size, length), Front(ls));
      RunRefines(size, length, Front(ls), before, Front(tr));
      StepKeeps(before, Accept(Front(tr), size, length).value, Last(ls));
    }
  }

  /** The simple queue that the state reached represents. */
  lemma Reached(size: nat, length: nat, ls: seq<Label>, s: State, tr: seq<Event>) returns (f: Fifo)
    requires Run(size, length, ls, s, tr)
    ensures s.size == size && |s.slots| == length && Inv(s, f)
    ensures f.inserted == Inserts(tr) && f.delivered == |Deliveries(tr)| && f.released == |Releases(tr)|
    ensures f.delivered > 0 ==>
      Carries(Last(Deliveries(tr)), f.inserted[f.delivered - 1], size) && Last(Deliveries(tr)).slot == f.lent
  {
    RunRefines(size, length, ls, s, tr);
    AcceptedIsFifo(tr, size, length);
    f := Accept(tr, size, length).value;
    LatestDelivery(f, Inserts(tr), Deliveries(tr), Releases(tr), size, length);
  }

  /** The invariant, once it holds, holds along any further run. */
  lemma {:induction false} InvAlong(s: State, f0: Fifo, ls: seq<Label>, t: State) returns (f: Fifo)
    requires Inv(s, f0) && Exec(s, ls) == Some(t)
    ensures Inv(t, f)
    decreases |ls|
  {
    if ls == [] {
      f := f0;
    } else {
      var before := Exec(s, Front(ls)).value;
      f := InvAlong(s, f0, Front(ls), before);
      StepKeeps(before, f, Last(ls));
      f := After(f, EventOf(before, Last(ls)));
    }
  }

  // ----- first in, first out

  /** In every run the receiver gets the records in the order of the sends' critical
      sections, byte for byte, none lost, repeated or reordered, and each delivered slot is
      released exactly once, before the next delivery. */
  lemma DeliversInOrder(size: nat, length: nat, ls: seq<Label>, s: State, tr: seq<Event>)
    requires Run(size, length, ls, s, tr)
    ensures var ins, ds, rs := Inserts(tr), Deliveries(tr), Releases(tr);
      && |ds| <= |ins| <= |rs| + length
      && (forall k :: 0 <= k < |ds| ==> Carries(ds[k], ins[k], size))
      && |rs| <= |ds| <= |rs| + 1
      && (forall k :: 0 <= k < |rs| ==> rs[k] == ds[k].slot)
  {
    RunRefines(size, length, ls, s, tr);
    AcceptedIsFifo(tr, size, length);
  }

  /** The slot represents the record. */
  predicate Holds(e: Slot, r: Record) {
    && e.npar == |r.par| <= |e.par|
    && e.par[..e.npar] == r.par
    && (forall j :: e.npar <= j < |e.par| ==> e.par[j] == 0)
  }

  /** Read from head to tail, the ring holds exactly these records. */
  ghost predicate RingHolds(s: State, pending: seq<Record>)
    requires s.head < |s.slots|
  {
    && |pending| <= |s.slots| && s.tail == Ring(s.head, |pending|, |s.slots|)
    && (forall i :: 0 <= i < |pending| ==> Holds(s.slots[Ring(s.head, i, |s.slots|)], pending[i]))
  }

  lemma InvRingHolds(s: State, f: Fifo)
    requires Inv(s, f)
    ensures RingHolds(s, f.inserted[f.released..])
  {
    forall i | 0 <= i < Occupied(f)
      ensures Holds(s.slots[Ring(s.head, i, |s.slots|)], f.inserted[f.released..][i])
    {
      assert ContentAt(s, f, i);
    }
  }

  /** In every run the ring holds exactly what was inserted and not yet released. */
  lemma RingHoldsPending(size: nat, length: nat, ls: seq<Label>, s: State, tr: seq<Event>)
    requires Run(size, length, ls, s, tr)
    ensures |Releases(tr)| <= |Inserts(tr)| && s.head < |s.slots|
    ensures RingHolds(s, Inserts(tr)[|Releases(tr)|..])
  {
    var f := Reached(size, length, ls, s, tr);
    InvRingHolds(s, f);
  }

  /** In every run, a call has inserted its record exactly once if it got past its critical
      section (so also if it returned SIGNALED), and not at all otherwise (so also if it
      timed out or was refused). */
  lemma InsertsOnce(size: nat, length: nat, ls: seq<Label>, s: State, tr: seq<Event>, id: nat)
    requires Run(size, length, ls, s, tr) && id in s.sends
    ensures var ins := Inserts(tr);
      && (Inserted(s.sends[id].pc) <==> exists j :: 0 <= j < |ins| && ins[j].id == id)
      && (forall j, k :: 0 <= j < k < |ins| ==> ins[j].id != ins[k].id)
      && (forall j :: 0 <= j < |ins| && ins[j].id == id ==> ins[j].par == s.sends[id].par)
  {
    var f := Reached(size, length, ls, s, tr);
    if Inserted(s.sends[id].pc) {
      assert HasRecord(f, id);
    }
    assert forall j :: 0 <= j < |f.inserted| ==> OriginOf(s, f.inserted[j]);
  }

  /** The receiver's slot still has the delivered bytes and count. */
  predicate LentAs(s: State, d: Event) {
    && d.Deliver? && s.recv.slot == d.slot < |s.slots|
    && s.slots[d.slot].par == d.buffer && s.slots[d.slot].npar == d.npar
  }

  lemma InvLent(s: State, f: Fifo, d: Event)
    requires Inv(s, f) && OnLoan(f) && Carries(d, f.inserted[f.released], s.size) && d.slot == f.lent
    ensures LentAs(s, d)
  {
    assert ContentAt(s, f, 0);
    assert d.buffer == d.buffer[..d.npar] + d.buffer[d.npar..];
    assert d.buffer[d.npar..] == Zeros(s.size - d.npar);
  }

  /** Loan stability: from its delivery until its release, whatever the senders do, the
      lent slot keeps exactly the bytes and the count that were delivered. */
  lemma LoanIsStable(size: nat, length: nat, ls: seq<Label>, s: State, tr: seq<Event>)
    requires Run(size, length, ls, s, tr) && |Releases(tr)| < |Deliveries(tr)|
    ensures LentAs(s, Last(Deliveries(tr)))
  {
    var f := Reached(size, length, ls, s, tr);
    InvLent(s, f, Last(Deliveries(tr)));
  }

  /** Tokens are conserved, those in flight counted. */
  lemma TokensConserved(size: nat, length: nat, ls: seq<Label>, s: State, tr: seq<Event>)
    requires Run(size, length, ls, s, tr)
    ensures var occupied, held := |Inserts(tr)| - |Releases(tr)|, |Deliveries(tr)| - |Releases(tr)|;
      && s.writer + Count(s.sends, HoldsToken) + occupied + One(s.recv.pc in {ReUnlock, RePostWriter}) == length
      && s.reader + Count(s.sends, Unposted) + One(s.recv.pc in {DeLock, DePar, DeSize, DeMark}) + held == occupied
  {
    var f := Reached(size, length, ls, s, tr);
  }

  // ----- reachable states

  ghost predicate Reachable(s: State) {
    exists size: nat, length: nat, ls: seq<Label> :: length > 0 && Exec(Init(size, length), ls) == Some(s)
  }

  lemma ReachableInv(s: State) returns (f: Fifo)
    requires Reachable(s)
    ensures Inv(s, f)
  {
    var size: nat, length: nat, ls: seq<Label> :| length > 0 && Exec(Init(size, length), ls) == Some(s);
    f := Reached(size, length, ls, s, Trace(Init(size, length), ls));
  }

  /** At most one thread is inside a critical section. */
  lemma MutualExclusion(s: State, i: nat, j: nat)
    requires Reachable(s) && i in s.sends && j in s.sends
    ensures SendInSection(s.sends[i].pc) && SendInSection(s.sends[j].pc) ==> i == j
    ensures SendInSection(s.sends[i].pc) ==> !RecvInSection(s.recv.pc)
  {
    var f := ReachableInv(s);
  }

  /** No acknowledgement is lost or invented, however often the slot is reused. */
  lemma AcksConserved(s: State, k: nat)
    requires Reachable(s) && k < |s.slots|
    ensures Count(s.sends, Awaits(k)) + One(s.recv.pc == ReClearAck && s.head == k)
      == One(s.slots[k].semaAck) + s.slots[k].ack
  {
    var f := ReachableInv(s);
    assert AcksAt(s, k);
  }

  // ----- deadlock

  /** No call in progress can take a step (wait times aside). */
  ghost predicate Stuck(s: State) {
    !CanRecv(s) && forall id :: id in s.sends ==> !CanSend(s, id)
  }

  lemma StuckMutexFree(s: State, f: Fifo)
    requires Inv(s, f) && Stuck(s)
    ensures s.owner == Free
    ensures s.recv.pc.Idle? || (s.recv.pc == DeWait && s.reader == 0)
    ensures forall id :: id in s.sends ==> s.sends[id].pc in {AtWriter, AtAck} || s.sends[id].pc.SendDone?
    ensures Count(s.sends, HoldsToken) == 0 && Count(s.sends, Unposted) == 0
  {
    assert s.owner == Free;
    assert Members(s.sends, HoldsToken) == {};
    assert Members(s.sends, Unposted) == {};
  }

  /** A stuck send that waits for an acknowledgement has its slot's record in the ring. */
  lemma StuckAck(s: State, f: Fifo, id: nat)
    requires Inv(s, f) && Stuck(s) && id in s.sends && s.sends[id].pc == AtAck
    ensures s.sends[id].ackSema.Some? && s.slots[s.sends[id].ackSema.value].semaAck
    ensures Occupied(f) > 0
  {
    assert !CanSend(s, id);
    StuckMutexFree(s, f);
    var k := s.sends[id].ackSema.value;
    assert AcksAt(s, k);
    CountAtLeast(s.sends, id, Awaits(k));
    var i := if k >= s.head then k - s.head else k + |s.slots| - s.head;
    assert Ring(s.head, i, |s.slots|) == k;
    assert FlagsAt(s, f, i);
  }

  lemma JointlyBlocked(s: State, f: Fifo)
    requires Inv(s, f) && s.recv.pc == DeWait
    ensures Stuck(s) <==> s.reader == 0 && forall id :: id in s.sends ==> s.sends[id].pc.SendDone?
    ensures Stuck(s) ==> s.writer == |s.slots| && s.head == s.tail
  {
    if Stuck(s) {
      StuckMutexFree(s, f);
      forall id | id in s.sends ensures s.sends[id].pc.SendDone? {
        assert !CanSend(s, id);
        if s.sends[id].pc == AtAck { StuckAck(s, f, id); }
      }
    }
  }

  /** Deadlock-freedom: senders on `writer` or on an acknowledgement and a receiver on
      `reader` are never jointly blocked.  While the receiver waits, everything stands
      still exactly when no send is unfinished and nothing is there to be read; and then
      the ring is empty and all writer tokens are back. */
  lemma NeverJointlyBlocked(s: State)
    requires Reachable(s) && s.recv.pc == DeWait
    ensures Stuck(s) <==> s.reader == 0 && forall id :: id in s.sends ==> s.sends[id].pc.SendDone?
    ensures Stuck(s) ==> s.writer == |s.slots| && s.head == s.tail
  {
    var f := ReachableInv(s);
    JointlyBlocked(s, f);
  }

  /** If the receiver has stopped calling, only a full ring and unreleased records can
      hold sends up. */
  lemma StuckWithoutReceiver(s: State, id: nat)
    requires Reachable(s) && s.recv.pc.Idle? && Stuck(s) && id in s.sends && !s.sends[id].pc.SendDone?
    ensures (s.sends[id].pc == AtWriter && s.reader + One(s.recv.pc == Idle(Signaled)) == |s.slots|)
         || (s.sends[id].pc == AtAck && s.sends[id].ackSema.Some? && s.slots[s.sends[id].ackSema.value].semaAck)
  {
    var f := ReachableInv(s);
    StuckMutexFree(s, f);
    assert !CanSend(s, id);
    if s.sends[id].pc == AtAck { StuckAck(s, f, id); }
  }
}
