/** Closing the queue while sends are under way: the loop of WQ_close drains the queue in
    every case exactly when no send can still post a record. */
module QueueClosing {
  import opened Basics
  import opened WorkQueue
  import opened Fifo
  import opened QueueInvariant
  import opened QueueTheorems
  import opened QueueAlone
  import opened QueueProgress
  import opened QueueDrain

  /** Closing can get from `s` to the stage. */
  ghost predicate ClosesTo(s: State, g: Stage)
    requires s.Wf()
  {
    exists ls: seq<Label> :: Close(s, ls) == Some(g)
  }

  lemma Begin(s: State)
    requires s.Wf()
    ensures ClosesTo(s, Stage(s, 0, 0))
  {
    assert Close(s, []) == Some(Stage(s, 0, 0));
  }

  lemma GoOn(s: State, g: Stage, l: Label)
    requires s.Wf() && g.s.Wf() && ClosesTo(s, g) && Closes(g, l) && Enabled(g.s, l)
    ensures ClosesTo(s, NextStage(g, l))
  {
    var ls: seq<Label> :| Close(s, ls) == Some(g);
    assert Front(ls + [l]) == ls;
    assert Close(s, ls + [l]) == Some(NextStage(g, l));
  }

  /** Some steps of one thread in a row. */
  lemma {:induction false} GoOnAlone(s: State, g: Stage, l: Label, n: nat, t: State) returns (g': Stage)
    requires s.Wf() && g.s.Wf() && ClosesTo(s, g) && (l.SendStep? || l.RecvStep?)
    requires Exec(g.s, Times(l, n)) == Some(t)
    ensures ClosesTo(s, g') && g'.s == t && g'.calls == g.calls
    decreases n
  {
    g' := g;
    if n > 0 {
      assert Front(Times(l, n)) == Times(l, n - 1);
      g' := GoOnAlone(s, g, l, n - 1, Exec(g.s, Times(l, n - 1)).value);
      GoOn(s, g', l);
      g' := NextStage(g', l);
    }
  }

  /** The same sends can still post. */
  ghost predicate StillUnderWay(m: map<nat, Send>, m': map<nat, Send>) {
    forall id :: id in m && In(Ahead(2), m[id]) ==> id in m' && In(Ahead(2), m'[id])
  }

  lemma SectionStep(s: State)
    requires s.Wf() && Mutex(s) && s.owner.BySend?
    ensures CanSend(s, s.owner.id)
    ensures var s' := StepSend(s, s.owner.id);
      && s'.recv == s.recv
      && StillUnderWay(s.sends, s'.sends)
      && (s'.owner.BySend? ==>
            s'.owner == s.owner && SendStepsLeft(s'.sends[s.owner.id].pc) < SendStepsLeft(s.sends[s.owner.id].pc))
  {
    assert SendInSection(s.sends[s.owner.id].pc);
    UnderWayOn(s.sends, s.owner.id, StepSend(s, s.owner.id).sends[s.owner.id]);
  }

  lemma UnderWayOn(m: map<nat, Send>, id: nat, t: Send)
    requires In(Ahead(2), t)
    ensures StillUnderWay(m, m[id := t])
  {
  }

  /** The send that owns the mutex runs out of its critical section. */
  lemma {:induction false} LeavesSection(s: State, g: Stage, f: Fifo) returns (g': Stage, f': Fifo)
    requires s.Wf() && g.s.Wf() && ClosesTo(s, g) && Inv(g.s, f) && g.s.owner.BySend?
    ensures ClosesTo(s, g') && Inv(g'.s, f') && !g'.s.owner.BySend?
    ensures g'.s.recv == g.s.recv && g'.calls == g.calls && StillUnderWay(g.s.sends, g'.s.sends)
    decreases SendStepsLeft(g.s.sends[g.s.owner.id].pc)
  {
    var l := SendStep(g.s.owner.id);
    SectionStep(g.s);
    StepKeeps(g.s, f, l);
    GoOn(s, g, l);
    g', f' := NextStage(g, l), After(f, EventOf(g.s, l));
    if g'.s.owner.BySend? {
      g', f' := LeavesSection(s, g', f');
    }
  }

  /** The steps the receiver takes to the end of the loop if no send moves. */
  function LoopLeft(g: Stage): nat {
    if Ended(g) then 0 else
      1 + CALL_STEPS * (g.s.reader + One(Delivering(g.s.recv.pc)) + One(g.s.recv.pc.Idle?))
        + CallStepsLeft(g.s.recv.pc)
  }

  /** What the receiver does next. */
  function NextOfLoop(g: Stage): Label {
    if g.s.recv.pc.Idle? then CallRecv(THRESHOLD_TIME)
    else if g.s.recv.pc == DeWait && g.s.reader == 0 then RecvTimeout
    else RecvStep
  }

  lemma LoopStep(g: Stage, f: Fifo)
    requires Inv(g.s, f) && !g.s.owner.BySend? && !Ended(g)
    requires g.s.recv.pc.Idle? || (g.s.recv.time == THRESHOLD_TIME && g.calls > 0)
    ensures var l := NextOfLoop(g);
      && Closes(g, l) && Enabled(g.s, l)
      && var g' := NextStage(g, l);
         && g'.s.sends == g.s.sends && !g'.s.owner.BySend? && g'.calls > 0
         && (g'.s.recv.pc.Idle? || g'.s.recv.time == THRESHOLD_TIME)
         && LoopLeft(g') < LoopLeft(g)
  {
    if NextOfLoop(g).RecvStep? {
      RecvNearer(g.s);
      assert SendsAside(g.s);
    }
  }

  /** A step of the receiver leaves the sends, and gives the mutex to none. */
  predicate SendsAside(s: State)
    requires s.Wf() && CanRecv(s)
  {
    StepRecv(s).sends == s.sends && (!s.owner.BySend? ==> !StepRecv(s).owner.BySend?)
  }

  /** While no send moves, the loop ends. */
  lemma {:induction false} LoopEnds(s: State, g: Stage, f: Fifo) returns (g': Stage, f': Fifo)
    requires s.Wf() && g.s.Wf() && ClosesTo(s, g) && Inv(g.s, f) && !g.s.owner.BySend?
    requires g.s.recv.pc.Idle? || (g.s.recv.time == THRESHOLD_TIME && g.calls > 0)
    ensures ClosesTo(s, g') && Inv(g'.s, f') && Ended(g') && g'.s.sends == g.s.sends
    decreases LoopLeft(g)
  {
    g', f' := g, f;
    if !Ended(g) {
      var l := NextOfLoop(g);
      LoopStep(g, f);
      StepKeeps(g.s, f, l);
      GoOn(s, g, l);
      g', f' := LoopEnds(s, NextStage(g, l), After(f, EventOf(g.s, l)));
    }
  }

  /** After the loop, some send under way has all that it waits for. */
  lemma SomeReady(s: State, f: Fifo, id: nat) returns (x: nat)
    requires Inv(s, f) && s.recv.pc == Idle(TimedOut) && !s.owner.BySend? && s.reader == 0
    requires id in s.sends && In(Ahead(2), s.sends[id])
    ensures SendReady(s, x)
  {
    assert s.owner == Free;
    if s.sends[id].pc != AtWriter || s.writer > 0 {
      x := id;
    } else {
      assert Occupied(f) == Count(s.sends, Unposted);
      x := Member(s.sends, if Count(s.sends, HoldsToken) > 0 then HoldsToken else Unposted);
    }
    assert !SendInSection(s.sends[x].pc);
  }

  lemma Member(m: map<nat, Send>, g: Group) returns (x: nat)
    requires Count(m, g) > 0
    ensures x in m && In(g, m[x])
  {
    x :| x in Members(m, g);
  }

  /** With a send under way, closing can end and leave a record behind that nobody receives. */
  lemma CanLeaveRecord(s: State, id: nat) returns (g: Stage)
    requires s.Wf() && Reachable(s) && s.recv.pc.Idle? && id in s.sends && In(Ahead(2), s.sends[id])
    ensures ClosesTo(s, g) && Ended(g) && g.s.reader > 0 && !Drained(g.s)
  {
    var f := ReachableInv(s);
    Begin(s);
    g := Stage(s, 0, 0);
    if s.owner.BySend? {
      g, f := LeavesSection(s, g, f);
    }
    g, f := LoopEnds(s, g, f);
    if g.s.reader == 0 {
      assert In(Ahead(2), g.s.sends[id]);
      var x := SomeReady(g.s, f, id);
      g := SendsRecord(s, g, x);
    }
  }

  lemma SendsRecord(s: State, g: Stage, x: nat) returns (g': Stage)
    requires s.Wf() && ClosesTo(s, g) && Ended(g) && g.s.Wf() && SendReady(g.s, x)
    ensures ClosesTo(s, g') && Ended(g') && g'.s.reader > 0
  {
    SendAlone(g.s, x);
    g' := GoOnAlone(s, g, SendStep(x), SendStepsLeft(g.s.sends[x].pc), Sent(g.s, x));
  }

  lemma EndsDrained(s: State, g: Stage)
    requires s.Wf() && Reachable(s) && Quiescent(s) && ClosesTo(s, g) && Ended(g)
    ensures Drained(g.s)
  {
    var ls: seq<Label> :| Close(s, ls) == Some(g);
    CloseDrains(s, ls, g);
  }

  /** Whatever the interleaving, when closing ends the queue is drained. */
  ghost predicate AlwaysDrains(s: State)
    requires s.Wf()
  {
    forall g: Stage :: ClosesTo(s, g) && Ended(g) ==> Drained(g.s)
  }

  /** Whatever the interleaving, when closing ends nothing is left to be read. */
  ghost predicate NeverLeavesRecord(s: State)
    requires s.Wf()
  {
    forall g: Stage :: ClosesTo(s, g) && Ended(g) ==> g.s.reader == 0
  }

  /** From a reachable state outside a call, every way of closing that ends leaves the queue
      drained if and only if no send is under way; and otherwise some way leaves a record. */
  lemma DrainsExactly(s: State)
    requires s.Wf() && Reachable(s) && s.recv.pc.Idle?
    ensures AlwaysDrains(s) <==> Quiescent(s)
    ensures NeverLeavesRecord(s) <==> Quiescent(s)
  {
    if Quiescent(s) {
      forall g: Stage | ClosesTo(s, g) && Ended(g) ensures Drained(g.s) && g.s.reader == 0 {
        EndsDrained(s, g);
      }
    } else {
      var id := SomeUnderWay(s);
      var g := CanLeaveRecord(s, id);
    }
  }

  lemma SomeUnderWay(s: State) returns (id: nat)
    requires s.recv.pc.Idle? && !Quiescent(s)
    ensures id in s.sends && In(Ahead(2), s.sends[id])
  {
    id :| id in s.sends && s.sends[id].pc != AtAck && !s.sends[id].pc.SendDone?;
  }

  /** One slot and one send at the start of WQ_send.  The loop finds nothing to receive and
      ends, before the send has moved. */
  lemma EndsEmpty(id: nat, b: byte) returns (s: State, g: Stage)
    ensures s.Wf() && Reachable(s) && s.recv.pc.Idle?
    ensures s.sends == map[id := Send([b], false, INFINITE, None, AtWriter)]
    ensures ClosesTo(s, g) && Ended(g) && g.s.Wf() && g.s.sends == s.sends
    ensures g.s.size == 1 && |g.s.slots| == 1 && g.s.head == g.s.tail == 0
    ensures g.s.owner == Free && g.s.writer == 1 && g.s.reader == 0
  {
    var call := CallSend(id, Some([b]), false, INFINITE);
    s := Apply(Init(1, 1), call);
    assert Front([call]) == [] && Exec(Init(1, 1), []) == Some(Init(1, 1));
    assert Exec(Init(1, 1), [call]) == Some(s);
    Begin(s);
    g := Stage(s, 0, 0);
    GoOn(s, g, CallRecv(THRESHOLD_TIME));
    g := NextStage(g, CallRecv(THRESHOLD_TIME));
    GiveBackAlone(g.s);
    g := GoOnAlone(s, g, RecvStep, RecvStepsLeft(g.s), GivenBack(g.s));
    GoOn(s, g, RecvTimeout);
    g := NextStage(g, RecvTimeout);
  }

  /** Then the send goes on, and its record stays in the queue for nobody to receive. */
  lemma RecordLeftBehind(id: nat, b: byte) returns (s: State, g: Stage)
    ensures s.Wf() && Reachable(s) && s.recv.pc.Idle?
    ensures s.sends == map[id := Send([b], false, INFINITE, None, AtWriter)]
    ensures ClosesTo(s, g) && Ended(g) && !Drained(g.s) && g.s.reader == 1
    ensures g.s.Wf() && g.s.slots[g.s.head].par == [b] && id in g.s.sends && g.s.sends[id].pc == AtAck
  {
    s, g := EndsEmpty(id, b);
    SendAlone(g.s, id);
    g := GoOnAlone(s, g, SendStep(id), SendStepsLeft(g.s.sends[id].pc), Sent(g.s, id));
  }
}
