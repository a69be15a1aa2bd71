/** Closing the queue: the `threshold` loop of WQ_close receives with a 20 ms limit until
    a call times out. */
module QueueDrain {
  import opened Basics
  import opened WorkQueue
  import opened Fifo
  import opened QueueInvariant
  import opened QueueTheorems
  import opened QueueProgress

  const THRESHOLD_TIME: nat := 20

  /** The receiver is not in a call, and no send can still post the reader semaphore. */
  ghost predicate Quiescent(s: State) {
    && s.recv.pc.Idle?
    && (forall id :: id in s.sends ==> s.sends[id].pc == AtAck || s.sends[id].pc.SendDone?)
  }

  /** A stage of the loop: the state, the number of WQ_recv calls made, and the number of
      records that sends have posted since the loop began. */
  datatype Stage = Stage(s: State, calls: nat, posted: nat)

  /** The loop ends when a call of its own timed out. */
  predicate Ended(g: Stage) { g.calls > 0 && g.s.recv.pc == Idle(TimedOut) }

  /** What can happen while the queue is being closed: the loop calls WQ_recv as long as
      calls succeed, and sends that are under way go on.  No new send starts. */
  predicate Closes(g: Stage, l: Label) {
    match l
    case CallRecv(time) => time == THRESHOLD_TIME && !Ended(g)
    case CallSend(_, _, _, _) => false
    case _ => true
  }

  function NextStage(g: Stage, l: Label): Stage
    requires g.s.Wf() && Enabled(g.s, l)
  {
    Stage(Apply(g.s, l), g.calls + (if l.CallRecv? then 1 else 0), g.posted + One(Posts(g.s, l)))
  }

  /** The stage after the labels, from the start of the loop in `s`, or None if that is not
      how closing can go. */
  function Close(s: State, ls: seq<Label>): (r: Option<Stage>)
    requires s.Wf()
    ensures r.Some? ==> r.value.s.Wf()
    decreases |ls|
  {
    if ls == [] then Some(Stage(s, 0, 0))
    else
      var g := Close(s, Front(ls));
      if g.Some? && Closes(g.value, Last(ls)) && Enabled(g.value.s, Last(ls)) then
        Some(NextStage(g.value, Last(ls)))
      else None
  }

  // ----- the accounts of the loop

  /** Records still to be delivered. */
  function Unread(s: State): nat { s.reader + One(s.recv.pc in {DeLock, DePar, DeSize, DeMark}) }

  /** The sends that can still post the reader semaphore. */
  ghost function Pending(s: State): nat { Count(s.sends, Ahead(2)) }

  /** The current call, or the last one if it timed out, has not delivered. */
  predicate Fruitless(g: Stage) { Ended(g) || !(g.s.recv.pc.Idle? || g.s.recv.pc == DeUnlock) }

  /** Deliveries account for the calls, and posts for the sends that were under way. */
  ghost predicate Accounts(g: Stage, unread: nat, pending: nat) {
    && g.calls + Unread(g.s) == unread + g.posted + One(Fruitless(g))
    && g.posted + Pending(g.s) <= pending
    && (Ended(g) ==> g.s.reader <= g.posted)
    && (g.calls == 0 ==> g.s.recv.pc.Idle?)
    && (!g.s.recv.pc.Idle? ==> g.s.recv.time == THRESHOLD_TIME)
  }

  lemma AccountsSend(g: Stage, unread: nat, pending: nat, l: Label)
    requires g.s.Wf() && Accounts(g, unread, pending) && Enabled(g.s, l) && (l.SendStep? || l.SendTimeout?)
    ensures Accounts(NextStage(g, l), unread, pending)
  {
    SendNearer(g.s, l);
    CountAfter(g.s.sends, l.id, Apply(g.s, l).sends[l.id], Ahead(2));
  }

  lemma UnreadAfter(s: State)
    requires s.Wf() && CanRecv(s)
    ensures var s' := StepRecv(s);
      && s'.sends == s.sends && s'.recv.time == s.recv.time && s'.reader <= s.reader
      && Unread(s') + One(s.recv.pc == DeMark) == Unread(s)
      && (s'.recv.pc == DeUnlock <==> s.recv.pc == DeMark)
      && (s'.recv.pc.Idle? <==> s.recv.pc == DeUnlock)
      && (s'.recv.pc.Idle? ==> s'.recv.pc == Idle(Signaled))
  {
  }

  lemma AccountsRecvStep(g: Stage, unread: nat, pending: nat)
    requires g.s.Wf() && Accounts(g, unread, pending) && CanRecv(g.s)
    ensures Accounts(NextStage(g, RecvStep), unread, pending)
  {
    UnreadAfter(g.s);
  }

  lemma AccountsRecv(g: Stage, unread: nat, pending: nat, l: Label)
    requires g.s.Wf() && Accounts(g, unread, pending) && Closes(g, l) && Enabled(g.s, l)
    requires l.CallRecv? || l.RecvStep? || l.RecvTimeout?
    ensures Accounts(NextStage(g, l), unread, pending)
  {
    if l.RecvStep? { AccountsRecvStep(g, unread, pending); }
  }

  lemma AccountsStep(g: Stage, unread: nat, pending: nat, l: Label)
    requires g.s.Wf() && Accounts(g, unread, pending) && Closes(g, l) && Enabled(g.s, l)
    ensures Accounts(NextStage(g, l), unread, pending)
  {
    if l.SendStep? || l.SendTimeout? {
      AccountsSend(g, unread, pending, l);
    } else {
      AccountsRecv(g, unread, pending, l);
    }
  }

  /** Along every way of closing, the accounts are kept and the number of steps is bounded. */
  lemma {:induction false} CloseKeeps(s: State, f0: Fifo, ls: seq<Label>, g: Stage) returns (f: Fifo)
    requires Inv(s, f0) && s.recv.pc.Idle? && Close(s, ls) == Some(g)
    ensures Inv(g.s, f) && Accounts(g, s.reader, Pending(s))
    ensures |ls| + WorkLeft(g.s) <= WorkLeft(s) + CALL_STEPS * g.calls
    decreases |ls|
  {
    if ls == [] {
      f := f0;
    } else {
      var g0 := Close(s, Front(ls)).value;
      var f1 := CloseKeeps(s, f0, Front(ls), g0);
      f := KeptOnce(g0, f1, Last(ls), s.reader, Pending(s));
    }
  }

  lemma KeptOnce(g: Stage, f0: Fifo, l: Label, unread: nat, pending: nat) returns (f: Fifo)
    requires Inv(g.s, f0) && Accounts(g, unread, pending) && Closes(g, l) && Enabled(g.s, l)
    ensures Inv(NextStage(g, l).s, f) && Accounts(NextStage(g, l), unread, pending)
    ensures WorkLeft(NextStage(g, l).s) < WorkLeft(g.s) + (if l.CallRecv? then CALL_STEPS else 0)
  {
    StepKeeps(g.s, f0, l);
    AccountsStep(g, unread, pending, l);
    WorkAfter(g.s, l);
    f := After(f0, EventOf(g.s, l));
  }

  // ----- what the loop leaves

  /** Nothing is left, every token is back, and each send that still waits has what it waits
      for. */
  ghost predicate Drained(s: State) {
    && s.reader == 0 && s.writer == |s.slots| && s.head == s.tail && s.owner == Free
    && (forall k :: 0 <= k < |s.slots| ==>
          !s.slots[k].signaled && !s.slots[k].semaAck && s.slots[k].ack == Count(s.sends, Awaits(k)))
    && (forall id :: id in s.sends ==> s.sends[id].pc.SendDone? || CanSend(s, id))
  }

  /** When the last call timed out, the queue is drained exactly if nothing is to be read, the
      mutex is free and no send is between its writer token and its reader token. */
  lemma DrainedExactly(s: State, f: Fifo)
    requires Inv(s, f) && s.recv.pc == Idle(TimedOut)
    ensures Drained(s) <==>
      s.reader == 0 && s.owner == Free && Count(s.sends, HoldsToken) == 0 && Count(s.sends, Unposted) == 0
  {
    if s.reader == 0 && s.owner == Free && Count(s.sends, HoldsToken) == 0 && Count(s.sends, Unposted) == 0 {
      EmptyIsDrained(s, f);
    }
  }

  lemma EmptyIsDrained(s: State, f: Fifo)
    requires Inv(s, f) && s.recv.pc == Idle(TimedOut) && s.reader == 0 && s.owner == Free
    requires Count(s.sends, HoldsToken) == 0 && Count(s.sends, Unposted) == 0
    ensures Drained(s)
  {
    assert Occupied(f) == 0;
    forall k | 0 <= k < |s.slots|
      ensures !s.slots[k].signaled && !s.slots[k].semaAck && s.slots[k].ack == Count(s.sends, Awaits(k))
    {
      var i := if k >= s.head then k - s.head else k + |s.slots| - s.head;
      assert Ring(s.head, i, |s.slots|) == k;
      assert FlagsAt(s, f, i) && AcksAt(s, k);
    }
    forall id | id in s.sends ensures s.sends[id].pc.SendDone? || CanSend(s, id) {
      NotInSection(s, id);
      if s.sends[id].pc == AtAck && s.sends[id].ackSema.Some? {
        CountAtLeast(s.sends, id, Awaits(s.sends[id].ackSema.value));
      }
    }
  }

  lemma NotInSection(s: State, id: nat)
    requires id in s.sends && Count(s.sends, HoldsToken) == 0 && Count(s.sends, Unposted) == 0
    ensures s.sends[id].pc in {AtWriter, AtAck} || s.sends[id].pc.SendDone?
  {
    assert id !in Members(s.sends, HoldsToken) && id !in Members(s.sends, Unposted);
  }

  /** When nothing was posted and no send can post any more, what the loop leaves is drained. */
  lemma EndedIsDrained(g: Stage, f: Fifo, unread: nat)
    requires Inv(g.s, f) && Accounts(g, unread, 0) && Ended(g)
    ensures g.calls == unread + 1 && Drained(g.s)
  {
    NothingPending(g.s, f);
    DrainedExactly(g.s, f);
  }

  lemma NothingPending(s: State, f: Fifo)
    requires Inv(s, f) && Pending(s) == 0 && s.recv.pc.Idle?
    ensures s.owner == Free && Count(s.sends, HoldsToken) == 0 && Count(s.sends, Unposted) == 0
    ensures Quiescent(s)
  {
    NoneAhead(s);
    assert Members(s.sends, HoldsToken) == {} && Members(s.sends, Unposted) == {};
  }

  lemma NoneAhead(s: State)
    requires Pending(s) == 0
    ensures forall id :: id in s.sends ==> s.sends[id].pc == AtAck || s.sends[id].pc.SendDone?
  {
    forall id | id in s.sends ensures s.sends[id].pc == AtAck || s.sends[id].pc.SendDone? {
      assert id !in Members(s.sends, Ahead(2));
    }
  }

  lemma QuiescentHasNonePending(s: State)
    requires Quiescent(s)
    ensures Pending(s) == 0
  {
    assert Members(s.sends, Ahead(2)) == {};
  }

  /** Closing, from any reachable state outside a call and however the sends under way
      interleave: the number of steps is bounded, and the loop makes at most one call more
      than there were unread records and sends under way.  Until it has ended the receiver
      or the owner of the mutex can go on; when it ends, the calls account exactly for what
      was unread, what was posted since and what is left, and the queue is drained exactly
      if nothing is left and no send is between its two tokens.  Without sends under way it
      has then made exactly one call more than there were unread records, and the queue is
      drained. */
  lemma CloseDrains(s: State, ls: seq<Label>, g: Stage)
    requires Reachable(s) && s.recv.pc.Idle? && s.Wf() && Close(s, ls) == Some(g)
    ensures g.calls <= s.reader + Pending(s) + 1
    ensures |ls| <= SEND_STEPS * Count(s.sends, Ahead(1)) + CALL_STEPS * g.calls
    ensures !Ended(g) ==> exists l: Label :: GoesOn(g, l)
    ensures Ended(g) ==> g.calls + g.s.reader == s.reader + g.posted + 1
    ensures Ended(g) ==>
      (Drained(g.s) <==> g.s.reader == 0 && g.s.owner == Free &&
                         Count(g.s.sends, HoldsToken) == 0 && Count(g.s.sends, Unposted) == 0)
    ensures Quiescent(s) && Ended(g) ==> g.calls == s.reader + 1 && Drained(g.s)
  {
    var f0 := ReachableInv(s);
    var f := CloseKeeps(s, f0, ls, g);
    AheadAtMost(s.sends, SEND_STEPS);
    if Ended(g) {
      DrainedExactly(g.s, f);
      if Quiescent(s) {
        QuiescentHasNonePending(s);
        EndedIsDrained(g, f, s.reader);
      }
    } else {
      LoopGoesOn(g, f, s.reader, Pending(s));
    }
  }

  /** The receiver takes a step, or the send that owns the mutex does. */
  predicate GoesOn(g: Stage, l: Label) {
    && Closes(g, l) && Enabled(g.s, l)
    && (l.CallRecv? || l.RecvStep? || l.RecvTimeout? || (l.SendStep? && g.s.owner == BySend(l.id)))
  }

  lemma LoopGoesOn(g: Stage, f: Fifo, unread: nat, pending: nat)
    requires Inv(g.s, f) && Accounts(g, unread, pending) && !Ended(g)
    ensures exists l: Label :: GoesOn(g, l)
  {
    var s := g.s;
    if s.recv.pc.Idle? {
      assert GoesOn(g, CallRecv(THRESHOLD_TIME));
    } else if s.recv.pc == DeWait && s.reader == 0 {
      assert GoesOn(g, RecvTimeout);
    } else if s.owner.BySend? {
      assert SendInSection(s.sends[s.owner.id].pc);
      assert GoesOn(g, SendStep(s.owner.id));
    } else {
      assert GoesOn(g, RecvStep);
    }
  }
}
