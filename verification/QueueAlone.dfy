/** What a WQ_send or WQ_recv amounts to when no other thread runs in between. */
module QueueAlone {
  import opened Basics
  import opened WorkQueue
  import opened Fifo
  import opened QueueInvariant

  function Times(l: Label, n: nat): seq<Label> { seq(n, _ => l) }

  lemma {:induction false} ExecConcat(s: State, a: seq<Label>, b: seq<Label>, t: State)
    requires s.Wf() && t.Wf() && Exec(s, a) == Some(t)
    ensures Exec(s, a + b) == Exec(t, b)
    decreases |b|
  {
    if b == [] {
      assert a + b == a;
    } else {
      assert Front(a + b) == a + Front(b);
      ExecConcat(s, a, Front(b), t);
    }
  }

  /** A step and then the rest of a run. */
  lemma ExecStep(s: State, l: Label, n: nat)
    requires s.Wf() && Enabled(s, l)
    ensures Exec(s, Times(l, n + 1)) == Exec(Apply(s, l), Times(l, n))
  {
    assert Front([l]) == [];
    ExecConcat(s, [l], Times(l, n), Apply(s, l));
    assert Times(l, n + 1) == [l] + Times(l, n);
  }

  // ----- WQ_send up to its wait for an acknowledgement

  predicate Sending(pc: SendPc) {
    pc in {AtWriter, AtLock, AtClear, AtCopy, AtSize, AtFlag, AtAdvance, AtUnlock, AtPost}
  }

  /** Nothing the call still has to wait for is missing. */
  predicate SendReady(s: State, id: nat) {
    && id in s.sends && Sending(s.sends[id].pc)
    && (s.sends[id].pc in {AtWriter, AtLock} ==> s.owner == Free)
    && (s.sends[id].pc == AtWriter ==> s.writer > 0)
  }

  /** The tail slot when the call, now at `t.pc`, has written the rest of it. */
  function WrittenOut(s: State, t: Send): Slot
    requires s.Wf() && |t.par| <= s.size
  {
    var e, left := s.slots[s.tail], SendStepsLeft(t.pc);
    Slot(e.signaled,
         e.semaAck || (left >= 4 && t.block),
         e.ack,
         if left >= 7 then Padded(t.par, s.size) else if left == 6 then CopyInto(e.par, t.par) else e.par,
         if left >= 5 then |t.par| else e.npar)
  }

  /** The state when the call has run on to its wait for an acknowledgement. */
  function Sent(s: State, id: nat): State
    requires s.Wf() && SendReady(s, id)
  {
    var t, left := s.sends[id], SendStepsLeft(s.sends[id].pc);
    s.(writer := if left == 9 then s.writer - 1 else s.writer,
       reader := s.reader + 1,
       owner := if left == 1 then s.owner else Free,
       slots := if left >= 3 then s.slots[s.tail := WrittenOut(s, t)] else s.slots,
       tail := if left >= 3 then Next(s.tail, |s.slots|) else s.tail,
       sends := s.sends[id := t.(pc := AtAck, ackSema := if left >= 4 && t.block then Some(s.tail) else t.ackSema)])
  }

  /** One step brings the send nearer to the same end. */
  predicate SentStepOk(s: State, id: nat)
    requires s.Wf() && SendReady(s, id)
  {
    && CanSend(s, id)
    && var s' := StepSend(s, id);
       if s.sends[id].pc == AtPost then s' == Sent(s, id) else SendReady(s', id) && Sent(s', id) == Sent(s, id)
  }

  lemma SentStepEnter(s: State, id: nat)
    requires s.Wf() && SendReady(s, id) && s.sends[id].pc in {AtWriter, AtLock}
    ensures SentStepOk(s, id)
  {
    var s', t' := StepSend(s, id), Sent(s, id).sends[id];
    assert s.sends[id := s'.sends[id]][id := t'] == s.sends[id := t'];
  }

  lemma WriteStep(s: State, id: nat)
    requires s.Wf() && SendReady(s, id) && s.sends[id].pc in {AtClear, AtCopy, AtSize, AtFlag}
    ensures CanSend(s, id)
    ensures WrittenOut(StepSend(s, id), StepSend(s, id).sends[id]) == WrittenOut(s, s.sends[id])
  {
    assert CopyInto(Zeros(s.size), s.sends[id].par) == Padded(s.sends[id].par, s.size);
  }

  lemma WriteKeeps(s: State, id: nat)
    requires s.Wf() && SendReady(s, id) && s.sends[id].pc in {AtClear, AtCopy, AtSize, AtFlag}
    ensures CanSend(s, id) && SendReady(StepSend(s, id), id)
    ensures var s' := StepSend(s, id);
      && s'.sends == s.sends[id := s'.sends[id]] && Sent(s', id).sends[id] == Sent(s, id).sends[id]
      && s' == s.(slots := s.slots[s.tail := s'.slots[s.tail]], sends := s'.sends)
  {
    assert s.slots[s.tail := s.slots[s.tail]] == s.slots;
  }

  lemma SentStepWrite(s: State, id: nat)
    requires s.Wf() && SendReady(s, id) && s.sends[id].pc in {AtClear, AtCopy, AtSize, AtFlag}
    ensures SentStepOk(s, id)
  {
    var s', t, t' := StepSend(s, id), s.sends[id], Sent(s, id).sends[id];
    WriteKeeps(s, id);
    WriteStep(s, id);
    assert s.sends[id := s'.sends[id]][id := t'] == s.sends[id := t'];
    assert s'.slots[s.tail := WrittenOut(s, t)] == s.slots[s.tail := WrittenOut(s, t)];
  }

  lemma SentStepLeave(s: State, id: nat)
    requires s.Wf() && SendReady(s, id) && s.sends[id].pc in {AtAdvance, AtUnlock, AtPost}
    ensures SentStepOk(s, id)
  {
    var s', t' := StepSend(s, id), Sent(s, id).sends[id];
    assert s.sends[id := s'.sends[id]][id := t'] == s.sends[id := t'];
    assert s.slots[s.tail := s.slots[s.tail]] == s.slots;
  }

  lemma SentStep(s: State, id: nat)
    requires s.Wf() && SendReady(s, id)
    ensures SentStepOk(s, id)
  {
    match s.sends[id].pc
    case AtWriter => SentStepEnter(s, id);
    case AtLock => SentStepEnter(s, id);
    case AtAdvance => SentStepLeave(s, id);
    case AtUnlock => SentStepLeave(s, id);
    case AtPost => SentStepLeave(s, id);
    case _ => SentStepWrite(s, id);
  }

  /** Left alone, a send runs on to its wait for an acknowledgement: its record is in the
      tail slot, the cursor moved, and one writer token turned into a reader token. */
  lemma {:induction false} SendAlone(s: State, id: nat)
    requires s.Wf() && SendReady(s, id)
    ensures Exec(s, Times(SendStep(id), SendStepsLeft(s.sends[id].pc))) == Some(Sent(s, id))
    decreases SendStepsLeft(s.sends[id].pc)
  {
    SentStep(s, id);
    StepFromSend(s, id);
    if s.sends[id].pc == AtPost {
      assert Times(SendStep(id), 0) == [];
    } else {
      SendAlone(StepSend(s, id), id);
    }
  }

  lemma SendCounts(s: State, id: nat)
    requires s.Wf() && SendReady(s, id) && CanSend(s, id)
    ensures id in StepSend(s, id).sends
    ensures SendStepsLeft(StepSend(s, id).sends[id].pc) == SendStepsLeft(s.sends[id].pc) - 1
  {
  }

  lemma StepFromSend(s: State, id: nat)
    requires s.Wf() && SendReady(s, id) && CanSend(s, id)
    ensures var n := SendStepsLeft(s.sends[id].pc);
      && n > 0 && id in StepSend(s, id).sends
      && SendStepsLeft(StepSend(s, id).sends[id].pc) == n - 1
      && Exec(s, Times(SendStep(id), n)) == Exec(StepSend(s, id), Times(SendStep(id), n - 1))
  {
    SendCounts(s, id);
    ExecStep(s, SendStep(id), SendStepsLeft(s.sends[id].pc) - 1);
  }

  /** The whole of WQ_send up to its last wait, spelled out. */
  lemma SentInFull(s: State, id: nat, call: Send, slots: seq<Slot>)
    requires s.Wf() && s.owner == Free && s.writer > 0 && 0 < |call.par| <= s.size
    requires call.pc == AtWriter && call.ackSema.None?
    requires var e := s.slots[s.tail];
      slots == s.slots[s.tail := Slot(e.signaled, e.semaAck || call.block, e.ack, Padded(call.par, s.size), |call.par|)]
    ensures var begun := s.(sends := s.sends[id := call]);
      begun.Wf() && SendReady(begun, id) &&
      Sent(begun, id) == s.(writer := s.writer - 1, reader := s.reader + 1,
        slots := slots, tail := Next(s.tail, |s.slots|),
        sends := s.sends[id := call.(pc := AtAck, ackSema := if call.block then Some(s.tail) else None)])
  {
    var done := call.(pc := AtAck, ackSema := if call.block then Some(s.tail) else None);
    assert s.sends[id := call][id := done] == s.sends[id := done];
  }

  // ----- WQ_recv

  predicate GivingBack(pc: RecvPc) {
    pc in {ReLock, ReTest, RePostAck, ReClearAck, ReClearSignal, ReAdvance, ReUnlock, ReSkip, RePostWriter}
  }

  predicate Taking(pc: RecvPc) { pc in {DeWait, DeLock, DePar, DeSize, DeMark, DeUnlock} }

  /** Nothing the receiver still has to wait for is missing, and its tests, if behind it,
      saw what is still there. */
  predicate RecvReady(s: State)
    requires s.Wf()
  {
    && (s.recv.pc in {ReLock, DeWait, DeLock} ==> s.owner == Free)
    && (s.recv.pc == DeWait ==> s.reader > 0)
    && (s.recv.pc in {RePostAck, ReClearAck} ==> s.slots[s.head].signaled && s.slots[s.head].semaAck)
    && (s.recv.pc == ReClearSignal ==> s.slots[s.head].signaled && !s.slots[s.head].semaAck)
  }

  /** Number of steps left in the half of WQ_recv that the receiver is in. */
  function RecvStepsLeft(s: State): nat
    requires s.Wf()
  {
    var e := s.slots[s.head];
    match s.recv.pc
    case ReLock => if !e.signaled then 3 else if e.semaAck then 8 else 6
    case ReTest => if !e.signaled then 2 else if e.semaAck then 7 else 5
    case RePostAck => 6
    case ReClearAck => 5
    case ReClearSignal => 4
    case ReAdvance => 3
    case ReUnlock => 2
    case ReSkip => 1
    case RePostWriter => 1
    case DeWait => 6
    case DeLock => 5
    case DePar => 4
    case DeSize => 3
    case DeMark => 2
    case DeUnlock => 1
    case Idle(_) => 0
  }

  /** The state when the receiver has run through its first half: the slot on loan, if
      there was one, is acknowledged if that was requested, unmarked and passed over, and
      its writer token is back. */
  function GivenBack(s: State): State
    requires s.Wf() && GivingBack(s.recv.pc)
  {
    var e, pc := s.slots[s.head], s.recv.pc;
    if pc == ReSkip || (pc in {ReLock, ReTest} && !e.signaled) then
      s.(owner := Free, recv := s.recv.(pc := DeWait))
    else
      var post := pc == RePostAck || (pc in {ReLock, ReTest} && e.semaAck);
      var marked := pc !in {ReAdvance, ReUnlock, RePostWriter};
      s.(slots := if marked
                  then s.slots[s.head := e.(signaled := false, semaAck := false, ack := e.ack + One(post))]
                  else s.slots,
         head := if marked || pc == ReAdvance then Next(s.head, |s.slots|) else s.head,
         writer := s.writer + 1,
         owner := if pc == RePostWriter then s.owner else Free,
         recv := s.recv.(pc := DeWait))
  }

  /** The state when it has run through its second half: the head slot is on loan. */
  function TakenOnLoan(s: State): State
    requires s.Wf() && Taking(s.recv.pc) && RecvReady(s)
  {
    var e, left := s.slots[s.head], RecvStepsLeft(s);
    s.(slots := if left >= 2 then s.slots[s.head := e.(signaled := true)] else s.slots,
       reader := if left == 6 then s.reader - 1 else s.reader,
       owner := Free,
       recv := Recv(Idle(Signaled), s.recv.time,
                    if left >= 4 then s.head else s.recv.slot, if left >= 3 then e.npar else s.recv.npar))
  }

  /** One step brings the receiver nearer to the same end. */
  predicate GivenStepOk(s: State)
    requires s.Wf() && GivingBack(s.recv.pc) && RecvReady(s)
  {
    && CanRecv(s)
    && var s' := StepRecv(s);
       if RecvStepsLeft(s) == 1 then s' == GivenBack(s)
       else GivingBack(s'.recv.pc) && RecvReady(s') &&
            RecvStepsLeft(s') == RecvStepsLeft(s) - 1 && GivenBack(s') == GivenBack(s)
  }

  lemma GiveBackStepTest(s: State)
    requires s.Wf() && RecvReady(s) && s.recv.pc in {ReLock, ReTest, ReSkip}
    ensures GivenStepOk(s)
  {
  }

  lemma GiveBackStepAck(s: State)
    requires s.Wf() && RecvReady(s) && s.recv.pc in {RePostAck, ReClearAck}
    ensures GivenStepOk(s)
  {
  }

  lemma GiveBackStepClear(s: State)
    requires s.Wf() && RecvReady(s) && s.recv.pc == ReClearSignal
    ensures GivenStepOk(s)
  {
    var e := s.slots[s.head];
    assert e.(signaled := false) == e.(signaled := false, semaAck := false, ack := e.ack + One(false));
  }

  lemma GiveBackStepLeave(s: State)
    requires s.Wf() && RecvReady(s) && s.recv.pc in {ReAdvance, ReUnlock, RePostWriter}
    ensures GivenStepOk(s)
  {
  }

  lemma GiveBackStep(s: State)
    requires s.Wf() && GivingBack(s.recv.pc) && RecvReady(s)
    ensures GivenStepOk(s)
  {
    if s.recv.pc in {ReLock, ReTest, ReSkip} {
      GiveBackStepTest(s);
    } else if s.recv.pc in {RePostAck, ReClearAck} {
      GiveBackStepAck(s);
    } else if s.recv.pc == ReClearSignal {
      GiveBackStepClear(s);
    } else {
      GiveBackStepLeave(s);
    }
  }

  /** The first half of WQ_recv, left alone. */
  lemma {:induction false} GiveBackAlone(s: State)
    requires s.Wf() && GivingBack(s.recv.pc) && RecvReady(s)
    ensures Exec(s, Times(RecvStep, RecvStepsLeft(s))) == Some(GivenBack(s))
    decreases RecvStepsLeft(s)
  {
    GiveBackStep(s);
    ExecStep(s, RecvStep, RecvStepsLeft(s) - 1);
    if RecvStepsLeft(s) > 1 {
      GiveBackAlone(StepRecv(s));
    }
  }

  lemma TakeStep(s: State)
    requires s.Wf() && Taking(s.recv.pc) && RecvReady(s)
    ensures CanRecv(s)
    ensures var s' := StepRecv(s);
      if RecvStepsLeft(s) == 1 then s' == TakenOnLoan(s)
      else Taking(s'.recv.pc) && RecvReady(s') &&
           RecvStepsLeft(s') == RecvStepsLeft(s) - 1 && TakenOnLoan(s') == TakenOnLoan(s)
  {
  }

  /** The second half of WQ_recv, left alone. */
  lemma {:induction false} TakeAlone(s: State)
    requires s.Wf() && Taking(s.recv.pc) && RecvReady(s)
    ensures Exec(s, Times(RecvStep, RecvStepsLeft(s))) == Some(TakenOnLoan(s))
    decreases RecvStepsLeft(s)
  {
    TakeStep(s);
    ExecStep(s, RecvStep, RecvStepsLeft(s) - 1);
    if RecvStepsLeft(s) > 1 {
      TakeAlone(StepRecv(s));
    }
  }
}
