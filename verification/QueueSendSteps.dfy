/** Every step of a WQ_send call keeps the queue invariant. */
module QueueSendSteps {
  import opened Basics
  import opened WorkQueue
  import opened Fifo
  import opened QueueInvariant

  /** A send past the writer semaphore and short of inserting finds the ring not full. */
  ghost predicate Room(s: State, f: Fifo, id: nat)
    requires id in s.sends
  {
    In(HoldsToken, s.sends[id]) ==> Occupied(f) < |s.slots|
  }

  lemma TokenMeansRoom(s: State, f: Fifo, id: nat)
    requires id in s.sends && WriterTokens(s, f)
    ensures Room(s, f, id)
  {
    if In(HoldsToken, s.sends[id]) { CountAtLeast(s.sends, id, HoldsToken); }
  }

  ghost function AfterSend(s: State, f: Fifo, id: nat): Fifo
    requires s.Wf() && CanSend(s, id)
  {
    After(f, EventOf(s, SendStep(id)))
  }

  lemma SendShape(s: State, f: Fifo, id: nat)
    requires Shape(s, f) && CanSend(s, id) && Room(s, f, id)
    ensures Shape(StepSend(s, id), AfterSend(s, f, id))
  {
  }

  lemma SendMutex(s: State, f: Fifo, id: nat)
    requires Shape(s, f) && CanSend(s, id) && Room(s, f, id)
    requires Mutex(s)
    ensures Mutex(StepSend(s, id))
  {
  }

  lemma SendWriterTokens(s: State, f: Fifo, id: nat)
    requires Shape(s, f) && CanSend(s, id) && Room(s, f, id)
    requires WriterTokens(s, f)
    ensures WriterTokens(StepSend(s, id), AfterSend(s, f, id))
  {
    CountAfter(s.sends, id, StepSend(s, id).sends[id], HoldsToken);
  }

  lemma PostedOnce(s: State, f: Fifo, id: nat)
    requires Shape(s, f) && CanSend(s, id)
    ensures var s', f' := StepSend(s, id), AfterSend(s, f, id);
      && s'.sends == s.sends[id := s'.sends[id]] && s'.recv == s.recv
      && OnLoan(f') == OnLoan(f)
      && Occupied(f') == Occupied(f) + One(s.sends[id].pc == AtAdvance)
      && s'.reader + One(In(Unposted, s'.sends[id]))
         == s.reader + One(In(Unposted, s.sends[id])) + One(s.sends[id].pc == AtAdvance)
  {
  }

  lemma SendReaderTokens(s: State, f: Fifo, id: nat)
    requires Shape(s, f) && CanSend(s, id) && Room(s, f, id)
    requires ReaderTokens(s, f)
    ensures ReaderTokens(StepSend(s, id), AfterSend(s, f, id))
  {
    PostedOnce(s, f, id);
    CountAfter(s.sends, id, StepSend(s, id).sends[id], Unposted);
  }

  lemma SendSignalAt(s: State, f: Fifo, id: nat, i: nat)
    requires Shape(s, f) && CanSend(s, id) && Room(s, f, id)
    requires Shape(StepSend(s, id), AfterSend(s, f, id))
    requires i < |s.slots| && SignalAt(s, f, i)
    ensures SignalAt(StepSend(s, id), AfterSend(s, f, id), i)
  {
  }

  lemma FlagRequestAt(s: State, f: Fifo, id: nat, i: nat)
    requires Shape(s, f) && CanSend(s, id) && Room(s, f, id) && s.sends[id].pc in {AtFlag, AtAdvance}
    requires Shape(StepSend(s, id), AfterSend(s, f, id)) && Mutex(s)
    requires i < |s.slots| && RequestAt(s, f, i)
    ensures RequestAt(StepSend(s, id), AfterSend(s, f, id), i)
  {
  }

  lemma OtherRequestAt(s: State, f: Fifo, id: nat, i: nat)
    requires Shape(s, f) && CanSend(s, id) && Room(s, f, id) && s.sends[id].pc !in {AtFlag, AtAdvance}
    requires Shape(StepSend(s, id), AfterSend(s, f, id)) && Mutex(s)
    requires i < |s.slots| && RequestAt(s, f, i)
    ensures RequestAt(StepSend(s, id), AfterSend(s, f, id), i)
  {
  }

  lemma SendFlags(s: State, f: Fifo, id: nat)
    requires Shape(s, f) && CanSend(s, id) && Room(s, f, id)
    requires Mutex(s) && Flags(s, f)
    requires Shape(StepSend(s, id), AfterSend(s, f, id))
    ensures Flags(StepSend(s, id), AfterSend(s, f, id))
  {
    var s', f' := StepSend(s, id), AfterSend(s, f, id);
    forall i | 0 <= i < |s.slots| ensures FlagsAt(s', f', i) {
      assert FlagsAt(s, f, i);
      SendSignalAt(s, f, id, i);
      if s.sends[id].pc in {AtFlag, AtAdvance} { FlagRequestAt(s, f, id, i); } else { OtherRequestAt(s, f, id, i); }
    }
  }

  lemma SendContents(s: State, f: Fifo, id: nat)
    requires Shape(s, f) && CanSend(s, id) && Room(s, f, id)
    requires Contents(s, f) && Writing(s)
    requires Shape(StepSend(s, id), AfterSend(s, f, id))
    ensures Contents(StepSend(s, id), AfterSend(s, f, id))
  {
    var s', f' := StepSend(s, id), AfterSend(s, f, id);
    forall i | 0 <= i < Occupied(f') ensures ContentAt(s', f', i) {
      assert i < Occupied(f) ==> ContentAt(s, f, i);
    }
  }

  lemma OwnWriting(s: State, f: Fifo, id: nat)
    requires Shape(s, f) && CanSend(s, id) && WritingAt(s, s.sends[id])
    ensures WritingAt(StepSend(s, id), StepSend(s, id).sends[id])
  {
  }

  lemma OtherWriting(s: State, f: Fifo, id: nat, x: nat)
    requires Shape(s, f) && CanSend(s, id) && Mutex(s) && x in s.sends && x != id && WritingAt(s, s.sends[x])
    ensures WritingAt(StepSend(s, id), s.sends[x])
  {
  }

  lemma SendWriting(s: State, f: Fifo, id: nat)
    requires Shape(s, f) && CanSend(s, id) && Room(s, f, id)
    requires Mutex(s) && Writing(s)
    ensures Writing(StepSend(s, id))
  {
    var s' := StepSend(s, id);
    forall x | x in s'.sends ensures WritingAt(s', s'.sends[x]) {
      if x == id { OwnWriting(s, f, id); } else { OtherWriting(s, f, id, x); }
    }
  }

  lemma SendReceiver(s: State, f: Fifo, id: nat)
    requires Shape(s, f) && CanSend(s, id) && Room(s, f, id)
    requires Mutex(s) && Receiver(s, f)
    requires Shape(StepSend(s, id), AfterSend(s, f, id))
    ensures Receiver(StepSend(s, id), AfterSend(s, f, id))
  {
  }

  lemma OwnSender(s: State, id: nat)
    requires s.Wf() && CanSend(s, id) && SenderAt(s, s.sends[id])
    ensures SenderAt(StepSend(s, id), StepSend(s, id).sends[id])
  {
  }

  lemma OtherSender(s: State, id: nat, x: nat)
    requires s.Wf() && CanSend(s, id) && Mutex(s) && x in s.sends && x != id && SenderAt(s, s.sends[x])
    ensures SenderAt(StepSend(s, id), s.sends[x])
  {
  }

  lemma SendSenders(s: State, f: Fifo, id: nat)
    requires Shape(s, f) && CanSend(s, id) && Room(s, f, id)
    requires Mutex(s) && Senders(s)
    ensures Senders(StepSend(s, id))
  {
    var s' := StepSend(s, id);
    forall x | x in s'.sends ensures SenderAt(s', s'.sends[x]) {
      if x == id { OwnSender(s, id); } else { OtherSender(s, id, x); }
    }
  }

  lemma NeutralAwaits(s: State, id: nat, k: nat)
    requires s.Wf() && CanSend(s, id) && s.sends[id].pc !in {AtFlag, AtAck}
    requires SenderAt(s, s.sends[id]) && k < |s.slots|
    ensures var s' := StepSend(s, id);
      && s'.sends == s.sends[id := s'.sends[id]] && s'.recv == s.recv && s'.head == s.head
      && (In(Awaits(k), s'.sends[id]) <==> In(Awaits(k), s.sends[id]))
      && s'.slots[k].semaAck == s.slots[k].semaAck && s'.slots[k].ack == s.slots[k].ack
  {
  }

  /** A step that neither requests nor takes an acknowledgement. */
  lemma NeutralAcksAt(s: State, id: nat, k: nat)
    requires s.Wf() && CanSend(s, id) && s.sends[id].pc !in {AtFlag, AtAck}
    requires SenderAt(s, s.sends[id]) && k < |s.slots| && AcksAt(s, k)
    ensures AcksAt(StepSend(s, id), k)
  {
    NeutralAwaits(s, id, k);
    CountAfter(s.sends, id, StepSend(s, id).sends[id], Awaits(k));
  }

  lemma FlagAcksAt(s: State, id: nat, k: nat)
    requires s.Wf() && CanSend(s, id) && s.sends[id].pc == AtFlag && !s.slots[s.tail].semaAck
    requires SenderAt(s, s.sends[id]) && k < |s.slots| && AcksAt(s, k)
    ensures AcksAt(StepSend(s, id), k)
  {
    CountAfter(s.sends, id, StepSend(s, id).sends[id], Awaits(k));
  }

  lemma TakeAcksAt(s: State, id: nat, k: nat)
    requires s.Wf() && CanSend(s, id) && s.sends[id].pc == AtAck
    requires SenderAt(s, s.sends[id]) && k < |s.slots| && AcksAt(s, k)
    ensures AcksAt(StepSend(s, id), k)
  {
    CountAfter(s.sends, id, StepSend(s, id).sends[id], Awaits(k));
  }

  lemma TailUnflagged(s: State, f: Fifo, id: nat)
    requires Shape(s, f) && CanSend(s, id) && Room(s, f, id) && s.sends[id].pc == AtFlag
    requires Flags(s, f) && Mutex(s)
    ensures !s.slots[s.tail].semaAck
  {
    assert FlagsAt(s, f, Occupied(f));
  }

  lemma SendAcks(s: State, f: Fifo, id: nat)
    requires Shape(s, f) && CanSend(s, id) && Room(s, f, id)
    requires Flags(s, f) && Senders(s) && Acks(s) && Mutex(s)
    ensures Acks(StepSend(s, id))
  {
    forall k | 0 <= k < |s.slots| ensures AcksAt(StepSend(s, id), k) {
      assert AcksAt(s, k) && SenderAt(s, s.sends[id]);
      if s.sends[id].pc == AtFlag {
        TailUnflagged(s, f, id);
        FlagAcksAt(s, id, k);
      } else if s.sends[id].pc == AtAck {
        TakeAcksAt(s, id, k);
      } else {
        NeutralAcksAt(s, id, k);
      }
    }
  }

  lemma SendOrigins(s: State, f: Fifo, id: nat)
    requires Shape(s, f) && CanSend(s, id) && Origins(s, f)
    ensures Origins(StepSend(s, id), AfterSend(s, f, id))
  {
    var s', f' := StepSend(s, id), AfterSend(s, f, id);
    forall j | 0 <= j < |f'.inserted| ensures OriginOf(s', f'.inserted[j]) {
      assert j < |f.inserted| ==> OriginOf(s, f.inserted[j]);
    }
  }

  lemma SendOnce(s: State, f: Fifo, id: nat)
    requires Shape(s, f) && CanSend(s, id) && Origins(s, f) && Once(f)
    ensures Once(AfterSend(s, f, id))
  {
    assert forall j :: 0 <= j < |f.inserted| ==> OriginOf(s, f.inserted[j]);
  }

  lemma SendRecorded(s: State, f: Fifo, id: nat)
    requires Shape(s, f) && CanSend(s, id) && Recorded(s, f)
    ensures Recorded(StepSend(s, id), AfterSend(s, f, id))
  {
    var s', f' := StepSend(s, id), AfterSend(s, f, id);
    forall x | x in s'.sends && Inserted(s'.sends[x].pc) ensures HasRecord(f', x) {
      if x == id && s.sends[id].pc == AtAdvance {
        assert f'.inserted[|f.inserted|].id == x;
      } else {
        assert HasRecord(f, x);
        var j :| 0 <= j < |f.inserted| && f.inserted[j].id == x;
        assert f'.inserted[j].id == x;
      }
    }
  }

  lemma SendAckSlots(s: State, f: Fifo, id: nat)
    requires Shape(s, f) && CanSend(s, id) && Senders(s) && Origins(s, f) && AckSlots(s, f)
    requires Shape(StepSend(s, id), AfterSend(s, f, id))
    ensures AckSlots(StepSend(s, id), AfterSend(s, f, id))
  {
    var s', f' := StepSend(s, id), AfterSend(s, f, id);
    forall i | 0 <= i < Occupied(f') ensures AckSlotAt(s', f', i) {
      if i < Occupied(f) {
        assert AckSlotAt(s, f, i) && OriginOf(s, f.inserted[f.released + i]);
      }
    }
  }

  lemma SendAllowed(s: State, f: Fifo, id: nat)
    requires Shape(s, f) && CanSend(s, id) && Room(s, f, id)
    ensures Allows(f, EventOf(s, SendStep(id)), s.size, |s.slots|)
  {
  }

  lemma SendKeepsRing(s: State, f: Fifo, id: nat)
    requires Inv(s, f) && CanSend(s, id) && Room(s, f, id)
    ensures InvRing(StepSend(s, id), AfterSend(s, f, id))
  {
    SendShape(s, f, id);
    SendMutex(s, f, id);
    SendWriterTokens(s, f, id);
    SendReaderTokens(s, f, id);
    SendFlags(s, f, id);
    SendContents(s, f, id);
    SendWriting(s, f, id);
    SendReceiver(s, f, id);
  }

  lemma SendKeepsCalls(s: State, f: Fifo, id: nat)
    requires Inv(s, f) && CanSend(s, id) && Room(s, f, id)
    ensures InvCalls(StepSend(s, id), AfterSend(s, f, id))
  {
    SendShape(s, f, id);
    SendSenders(s, f, id);
    SendAcks(s, f, id);
    SendOrigins(s, f, id);
    SendOnce(s, f, id);
    SendRecorded(s, f, id);
    SendAckSlots(s, f, id);
  }

  lemma SendKeeps(s: State, f: Fifo, id: nat)
    requires Inv(s, f) && CanSend(s, id)
    ensures Keeps(s, f, SendStep(id))
  {
    TokenMeansRoom(s, f, id);
    SendAllowed(s, f, id);
    SendKeepsRing(s, f, id);
    SendKeepsCalls(s, f, id);
  }
}
