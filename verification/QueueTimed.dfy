/** A receiver that calls with time limits, as a host does between its alarms. */
module QueueTimed {
  import opened Basics
  import opened WorkQueue
  import opened Fifo
  import opened QueueInvariant
  import opened QueueTheorems
  import opened QueueProgress

  /** Only the receiver moves. */
  predicate Receives(l: Label) { l.CallRecv? || l.RecvStep? || l.RecvTimeout? }

  /** No send can take a step, wait times aside. */
  ghost predicate AllBlocked(s: State) { forall id :: id in s.sends ==> !CanSend(s, id) }

  /** The call has not got a reader token yet. */
  predicate Fetching(pc: RecvPc) { !pc.Idle? && !Delivering(pc) }

  /** Nothing is to be read, and the call, or the last one, will not or did not deliver. */
  predicate Spent(s: State) { s.reader == 0 && (Fetching(s.recv.pc) || s.recv.pc == Idle(TimedOut)) }

  /** As long as nothing has timed out, every call has taken a record or is about to. */
  predicate CallsCounted(s: State, calls: nat, unread: nat) {
    Spent(s) || calls + s.reader == unread + One(Fetching(s.recv.pc))
  }

  lemma CountedOn(s: State, l: Label, calls: nat, unread: nat)
    requires s.Wf() && Enabled(s, l) && Receives(l) && CallsCounted(s, calls, unread)
    ensures CallsCounted(Apply(s, l), calls + One(l.CallRecv?), unread) && Apply(s, l).sends == s.sends
  {
    if l.RecvStep? { RecvNearer(s); FetchingOn(s); }
  }

  lemma FetchingOn(s: State)
    requires s.Wf() && CanRecv(s)
    ensures var s' := StepRecv(s);
      && (Fetching(s'.recv.pc) <==> Fetching(s.recv.pc) && s.recv.pc != DeWait)
      && (s'.recv.pc.Idle? ==> s.recv.pc == DeUnlock)
  {
  }

  lemma {:induction false} CountedAlong(s: State, ls: seq<Label>, t: State)
    requires s.Wf() && s.recv.pc.Idle? && Exec(s, ls) == Some(t) && forall l <- ls :: Receives(l)
    ensures CallsCounted(t, Calls(ls), s.reader) && t.sends == s.sends
    decreases |ls|
  {
    if ls != [] {
      var before := Exec(s, Front(ls)).value;
      assert Last(ls) in ls;
      CountedAlong(s, Front(ls), before);
      CountedOn(before, Last(ls), Calls(Front(ls)), s.reader);
    }
  }

  lemma BlockedOutside(s: State, f: Fifo, id: nat)
    requires Inv(s, f) && AllBlocked(s) && s.recv.pc.Idle? && id in s.sends
    ensures s.sends[id].pc in {AtWriter, AtAck} || s.sends[id].pc.SendDone?
  {
    assert !CanSend(s, id);
    if s.owner.BySend? {
      assert !CanSend(s, s.owner.id);
    }
  }

  lemma NoneBetween(s: State, f: Fifo)
    requires Inv(s, f) && AllBlocked(s) && s.recv.pc.Idle?
    ensures forall id :: id in s.sends ==> s.sends[id].pc in {AtWriter, AtAck} || s.sends[id].pc.SendDone?
    ensures Count(s.sends, HoldsToken) == 0 && Count(s.sends, Unposted) == 0
  {
    forall id | id in s.sends ensures s.sends[id].pc in {AtWriter, AtAck} || s.sends[id].pc.SendDone? {
      BlockedOutside(s, f, id);
    }
    assert Members(s.sends, HoldsToken) == {} && Members(s.sends, Unposted) == {};
  }

  /** When nothing is left in the ring, every unfinished send can go on. */
  lemma AllFreed(s: State, f: Fifo)
    requires Inv(s, f) && s.recv.pc == Idle(TimedOut) && s.reader == 0
    requires forall id :: id in s.sends ==> s.sends[id].pc in {AtWriter, AtAck} || s.sends[id].pc.SendDone?
    requires Count(s.sends, HoldsToken) == 0 && Count(s.sends, Unposted) == 0
    ensures forall id :: id in s.sends && !s.sends[id].pc.SendDone? ==> CanSend(s, id)
  {
    assert Occupied(f) == 0;
    forall id | id in s.sends && !s.sends[id].pc.SendDone? ensures CanSend(s, id) {
      if s.sends[id].pc == AtAck && s.sends[id].ackSema.Some? {
        AckReady(s, f, id);
      }
    }
  }

  lemma AckReady(s: State, f: Fifo, id: nat)
    requires Inv(s, f) && s.recv.pc == Idle(TimedOut) && Occupied(f) == 0
    requires Count(s.sends, HoldsToken) == 0
    requires id in s.sends && s.sends[id].pc == AtAck && s.sends[id].ackSema.Some?
    ensures s.slots[s.sends[id].ackSema.value].ack > 0
  {
    var k := s.sends[id].ackSema.value;
    CountAtLeast(s.sends, id, Awaits(k));
    assert AcksAt(s, k);
    var i := if k >= s.head then k - s.head else k + |s.slots| - s.head;
    assert Ring(s.head, i, |s.slots|) == k;
    assert FlagsAt(s, f, i);
    if s.owner.BySend? && s.sends[s.owner.id].pc == AtAdvance {
      CountAtLeast(s.sends, s.owner.id, HoldsToken);
    }
  }

  /** When all unfinished sends are blocked and the receiver is outside a call, one call more
      than there are unread records, with whatever time limits, makes every one of them able
      to go on. */
  lemma TimedCallsFree(s: State, ls: seq<Label>, t: State)
    requires s.Wf() && Reachable(s) && s.recv.pc.Idle? && AllBlocked(s)
    requires Exec(s, ls) == Some(t) && (forall l <- ls :: Receives(l)) && t.recv.pc.Idle? && Calls(ls) > s.reader
    ensures t.sends == s.sends
    ensures forall id :: id in t.sends && !t.sends[id].pc.SendDone? ==> CanSend(t, id)
  {
    var f0 := ReachableInv(s);
    var f := InvAlong(s, f0, ls, t);
    NoneBetween(s, f0);
    CountedAlong(s, ls, t);
    AllFreed(t, f);
  }

  predicate HasLimit(l: Label) { l.CallRecv? ==> l.time != INFINITE }

  lemma {:induction false} LimitKept(s: State, ls: seq<Label>, t: State)
    requires s.Wf() && s.recv.pc.Idle? && Exec(s, ls) == Some(t) && forall l <- ls :: Receives(l) && HasLimit(l)
    ensures t.recv.pc.Idle? || t.recv.time != INFINITE
    decreases |ls|
  {
    if ls != [] {
      var before := Exec(s, Front(ls)).value;
      assert Last(ls) in ls;
      LimitKept(s, Front(ls), before);
      if Last(ls).RecvStep? { RecvNearer(before); }
    }
  }

  lemma NeverHeldUp(s: State, f: Fifo)
    requires Inv(s, f) && (s.recv.pc.Idle? || s.recv.time != INFINITE)
    requires forall id :: id in s.sends ==> s.sends[id].pc in {AtWriter, AtAck} || s.sends[id].pc.SendDone?
    ensures s.recv.pc.Idle? || Enabled(s, RecvStep) || Enabled(s, RecvTimeout)
  {
    assert !s.owner.BySend?;
  }

  /** And these calls come to their end: in such a run every call can go on, and a call takes
      a bounded number of steps. */
  lemma TimedCallsEnd(s: State, ls: seq<Label>, t: State)
    requires s.Wf() && Reachable(s) && s.recv.pc.Idle? && AllBlocked(s)
    requires Exec(s, ls) == Some(t) && forall l <- ls :: Receives(l) && HasLimit(l)
    ensures t.recv.pc.Idle? || Enabled(t, RecvStep) || Enabled(t, RecvTimeout)
    ensures |ls| <= CALL_STEPS * Calls(ls)
  {
    var f0 := ReachableInv(s);
    var f := InvAlong(s, f0, ls, t);
    NoneBetween(s, f0);
    LimitKept(s, ls, t);
    ReceivesAreBounded(s, ls, t);
    NeverHeldUp(t, f);
  }

  lemma ReceivesAreBounded(s: State, ls: seq<Label>, t: State)
    requires s.Wf() && s.recv.pc.Idle? && Exec(s, ls) == Some(t) && forall l <- ls :: Receives(l)
    ensures t.sends == s.sends && |ls| <= CALL_STEPS * Calls(ls)
  {
    CountedAlong(s, ls, t);
    assert NoNewSend(ls);
    RunsAreBounded(s, ls, t);
  }
}
