/** Progress: how long the calls of the work queue can go on, whatever the interleaving. */
module QueueProgress {
  import opened Basics
  import opened WorkQueue
  import opened Fifo
  import opened QueueInvariant
  import opened QueueTheorems

  /** An upper bound on the steps the receiver still takes in its current call. */
  function CallStepsLeft(pc: RecvPc): nat {
    match pc
    case Idle(_) => 0
    case DeUnlock => 1
    case DeMark => 2
    case DeSize => 3
    case DePar => 4
    case DeLock => 5
    case DeWait => 6
    case ReSkip => 7
    case RePostWriter => 7
    case ReUnlock => 8
    case ReAdvance => 9
    case ReClearSignal => 10
    case ReClearAck => 11
    case RePostAck => 12
    case ReTest => 13
    case ReLock => 14
  }

  /** The steps that the sends have ahead of them, of each at most `n`. */
  ghost function AheadUpTo(m: map<nat, Send>, n: nat): nat {
    if n == 0 then 0 else AheadUpTo(m, n - 1) + Count(m, Ahead(n))
  }

  function AtMost(a: nat, n: nat): nat { if a < n then a else n }

  function AheadOf(m: map<nat, Send>, id: nat): nat { if id in m then StepsAhead(m[id].pc) else 0 }

  lemma {:induction false} AheadAfter(m: map<nat, Send>, id: nat, t: Send, n: nat)
    ensures AheadUpTo(m[id := t], n)
      == AheadUpTo(m, n) - AtMost(AheadOf(m, id), n) + AtMost(StepsAhead(t.pc), n)
  {
    if n > 0 {
      AheadAfter(m, id, t, n - 1);
      CountAfter(m, id, t, Ahead(n));
    }
  }

  lemma {:induction false} AheadAtMost(m: map<nat, Send>, n: nat)
    ensures AheadUpTo(m, n) <= n * Count(m, Ahead(1))
  {
    if n > 0 {
      AheadAtMost(m, n - 1);
      FewerAhead(m, n);
      OneTimesMore(n, Count(m, Ahead(1)));
    }
  }

  lemma OneTimesMore(n: nat, c: nat)
    requires n > 0
    ensures n * c == (n - 1) * c + c
  {
  }

  lemma FewerAhead(m: map<nat, Send>, n: nat)
    requires n > 0
    ensures Count(m, Ahead(n)) <= Count(m, Ahead(1))
  {
    assert Members(m, Ahead(n)) <= Members(m, Ahead(1));
    SubsetSize(Members(m, Ahead(n)), Members(m, Ahead(1)));
  }

  lemma {:induction false} SubsetSize(a: set<nat>, b: set<nat>)
    requires a <= b
    ensures |a| <= |b|
  {
    if a != {} {
      var x :| x in a;
      SubsetSize(a - {x}, b - {x});
    }
  }

  /** The call has its reader token. */
  predicate Delivering(pc: RecvPc) { pc in {DeLock, DePar, DeSize, DeMark, DeUnlock} }

  const SEND_STEPS := 10
  const CALL_STEPS := 15

  /** The steps that the calls in progress can still take. */
  ghost function WorkLeft(s: State): nat { AheadUpTo(s.sends, SEND_STEPS) + CallStepsLeft(s.recv.pc) }

  lemma SendStepNearer(s: State, id: nat)
    requires s.Wf() && CanSend(s, id)
    ensures var s' := StepSend(s, id);
      s'.sends == s.sends[id := s'.sends[id]] && StepsAhead(s'.sends[id].pc) < StepsAhead(s.sends[id].pc)
  {
  }

  lemma SendStepPosts(s: State, id: nat)
    requires s.Wf() && CanSend(s, id)
    ensures var s' := StepSend(s, id);
      s'.recv == s.recv && s'.reader == s.reader + One(s.sends[id].pc == AtPost)
  {
  }

  /** What the step of a send does to what is ahead. */
  lemma SendNearer(s: State, l: Label)
    requires s.Wf() && Enabled(s, l) && (l.SendStep? || l.SendTimeout?)
    ensures var s' := Apply(s, l);
      && l.id in s.sends && s'.sends == s.sends[l.id := s'.sends[l.id]] && s'.recv == s.recv
      && StepsAhead(s'.sends[l.id].pc) < StepsAhead(s.sends[l.id].pc)
      && s'.reader == s.reader + One(Posts(s, l))
      && (Posts(s, l) ==> StepsAhead(s.sends[l.id].pc) == 2)
  {
    if l.SendStep? {
      SendStepNearer(s, l.id);
      SendStepPosts(s, l.id);
    }
  }

  predicate Posts(s: State, l: Label)
    requires Enabled(s, l)
  {
    l.SendStep? && s.sends[l.id].pc == AtPost
  }

  lemma SendWorkFalls(s: State, l: Label)
    requires s.Wf() && Enabled(s, l) && (l.SendStep? || l.SendTimeout?)
    ensures WorkLeft(Apply(s, l)) < WorkLeft(s)
  {
    SendNearer(s, l);
    AheadAfter(s.sends, l.id, Apply(s, l).sends[l.id], SEND_STEPS);
  }

  /** What the step of the receiver does to what is ahead. */
  lemma RecvNearer(s: State)
    requires s.Wf() && CanRecv(s)
    ensures var s' := StepRecv(s);
      && s'.sends == s.sends && s'.recv.time == s.recv.time
      && CallStepsLeft(s'.recv.pc) < CallStepsLeft(s.recv.pc)
      && s'.reader + One(s.recv.pc == DeWait) == s.reader
      && One(Delivering(s'.recv.pc)) + One(s'.recv.pc.Idle?) == One(Delivering(s.recv.pc)) + One(s.recv.pc == DeWait)
  {
  }

  lemma RecvWorkFalls(s: State, l: Label)
    requires s.Wf() && Enabled(s, l) && (l.RecvStep? || l.RecvTimeout?)
    ensures WorkLeft(Apply(s, l)) < WorkLeft(s)
  {
    if l.RecvStep? { RecvNearer(s); }
  }

  lemma CallWork(s: State, l: Label)
    requires s.Wf() && Enabled(s, l) && l.CallRecv?
    ensures WorkLeft(Apply(s, l)) < WorkLeft(s) + CALL_STEPS
  {
  }

  function Calls(ls: seq<Label>): nat {
    if ls == [] then 0 else Calls(Front(ls)) + (if Last(ls).CallRecv? then 1 else 0)
  }

  ghost predicate NoNewSend(ls: seq<Label>) { forall l <- ls :: !l.CallSend? }

  /** Whatever the interleaving, a run in which no send starts has at most as many steps as
      the calls in progress have left, and a fixed number more for each WQ_recv it starts. */
  lemma {:induction false} RunsAreBounded(s: State, ls: seq<Label>, t: State)
    requires s.Wf() && Exec(s, ls) == Some(t) && NoNewSend(ls)
    ensures |ls| + WorkLeft(t) <= WorkLeft(s) + CALL_STEPS * Calls(ls)
    decreases |ls|
  {
    if ls != [] {
      var before := Exec(s, Front(ls)).value;
      RunsAreBounded(s, Front(ls), before);
      WorkAfter(before, Last(ls));
    }
  }

  lemma WorkAfter(s: State, l: Label)
    requires s.Wf() && Enabled(s, l) && !l.CallSend?
    ensures WorkLeft(Apply(s, l)) < WorkLeft(s) + (if l.CallRecv? then CALL_STEPS else 0)
  {
    match l
    case SendStep(_) => SendWorkFalls(s, l);
    case SendTimeout(_) => SendWorkFalls(s, l);
    case CallRecv(_) => CallWork(s, l);
    case _ => RecvWorkFalls(s, l);
  }

  // ----- a receiver that keeps calling

  /** No send starts, and the receiver waits without limit. */
  predicate Waits(l: Label) {
    match l
    case CallSend(_, _, _, _) => false
    case CallRecv(time) => time == INFINITE
    case _ => true
  }

  predicate WaitsForever(r: Recv) { r.pc.Idle? || r.time == INFINITE }

  /** Records that the receiver may still deliver, and one for a call it may still start. */
  ghost function Deliverable(s: State): nat {
    s.reader + Count(s.sends, Ahead(2)) + One(Delivering(s.recv.pc)) + One(s.recv.pc.Idle?)
  }

  lemma DeliverableAfter(s: State, l: Label)
    requires s.Wf() && Enabled(s, l) && Waits(l) && WaitsForever(s.recv)
    ensures WaitsForever(Apply(s, l).recv)
    ensures Deliverable(Apply(s, l)) + (if l.CallRecv? then 1 else 0) <= Deliverable(s)
  {
    if l.SendStep? || l.SendTimeout? {
      SendNearer(s, l);
      CountAfter(s.sends, l.id, Apply(s, l).sends[l.id], Ahead(2));
    } else if l.RecvStep? {
      RecvNearer(s);
    }
  }

  lemma {:induction false} CallsAreBounded(s: State, ls: seq<Label>, t: State)
    requires s.Wf() && Exec(s, ls) == Some(t) && WaitsForever(s.recv) && forall l <- ls :: Waits(l)
    ensures WaitsForever(t.recv) && Calls(ls) + Deliverable(t) <= Deliverable(s)
    decreases |ls|
  {
    if ls != [] {
      var before := Exec(s, Front(ls)).value;
      assert Last(ls) in ls;
      CallsAreBounded(s, Front(ls), before);
      DeliverableAfter(before, Last(ls));
    }
  }

  /** A bound on every run in which the receiver keeps calling and no send starts. */
  ghost function RunBound(s: State): nat {
    SEND_STEPS * Count(s.sends, Ahead(1)) + CALL_STEPS * (Deliverable(s) + 1)
  }

  /** Every send finishes while the receiver keeps calling: from any reachable state, however
      the threads interleave, a run in which no new send starts is bounded, and when it can
      not be continued every send has returned, the ring is empty, all writer tokens are back
      and the receiver waits for the next record. */
  lemma EverySendFinishes(s: State, ls: seq<Label>, t: State)
    requires s.Wf() && Reachable(s) && WaitsForever(s.recv)
    requires Exec(s, ls) == Some(t) && forall l <- ls :: Waits(l)
    ensures |ls| <= RunBound(s)
    ensures (forall l :: Waits(l) ==> !Enabled(t, l)) ==>
      && t.recv.pc == DeWait && t.reader == 0 && t.writer == |t.slots| && t.head == t.tail
      && forall id :: id in t.sends ==> t.sends[id].pc.SendDone?
  {
    WaitingRunsAreBounded(s, ls, t);
    var f0 := ReachableInv(s);
    var f := InvAlong(s, f0, ls, t);
    if forall l :: Waits(l) ==> !Enabled(t, l) {
      NothingLeft(t, f);
    }
  }

  lemma WaitingRunsAreBounded(s: State, ls: seq<Label>, t: State)
    requires s.Wf() && WaitsForever(s.recv) && Exec(s, ls) == Some(t) && forall l <- ls :: Waits(l)
    ensures |ls| <= RunBound(s)
  {
    CallsAreBounded(s, ls, t);
    assert NoNewSend(ls);
    RunsAreBounded(s, ls, t);
    WorkAtMost(s);
    MoreCalls(Calls(ls), Deliverable(s));
  }

  lemma WorkAtMost(s: State)
    ensures WorkLeft(s) <= SEND_STEPS * Count(s.sends, Ahead(1)) + CALL_STEPS
  {
    AheadAtMost(s.sends, SEND_STEPS);
  }

  lemma MoreCalls(a: nat, b: nat)
    requires a <= b
    ensures CALL_STEPS * a + CALL_STEPS <= CALL_STEPS * (b + 1)
  {
  }

  lemma NothingLeft(s: State, f: Fifo)
    requires Inv(s, f) && forall l :: Waits(l) ==> !Enabled(s, l)
    ensures s.recv.pc == DeWait && s.reader == 0 && s.writer == |s.slots| && s.head == s.tail
    ensures forall id :: id in s.sends ==> s.sends[id].pc.SendDone?
  {
    assert !Enabled(s, CallRecv(INFINITE));
    assert !Enabled(s, RecvStep);
    forall id | id in s.sends ensures !CanSend(s, id) {
      assert !Enabled(s, SendStep(id));
    }
    StuckMutexFree(s, f);
    JointlyBlocked(s, f);
  }
}
