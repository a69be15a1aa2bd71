/** Every step of a WQ_recv call keeps the queue invariant. */
module QueueRecvSteps {
  import opened Basics
  import opened WorkQueue
  import opened Fifo
  import opened QueueInvariant

  ghost function AfterRecv(s: State, f: Fifo): Fifo
    requires s.Wf() && CanRecv(s)
  {
    After(f, EventOf(s, RecvStep))
  }

  lemma RecvAllowed(s: State, f: Fifo)
    requires Shape(s, f) && CanRecv(s) && ReaderTokens(s, f) && Contents(s, f) && Receiver(s, f)
    ensures Allows(f, EventOf(s, RecvStep), s.size, |s.slots|)
  {
    if s.recv.pc == DeMark { assert ContentAt(s, f, 0); }
  }

  lemma RecvShape(s: State, f: Fifo)
    requires Shape(s, f) && CanRecv(s) && Receiver(s, f) && ReaderTokens(s, f)
    ensures Shape(StepRecv(s), AfterRecv(s, f))
  {
  }

  lemma RecvMutex(s: State, f: Fifo)
    requires Shape(s, f) && CanRecv(s) && Mutex(s)
    ensures Mutex(StepRecv(s))
  {
  }

  lemma RecvWriterTokens(s: State, f: Fifo)
    requires Shape(s, f) && CanRecv(s) && WriterTokens(s, f) && Receiver(s, f)
    ensures WriterTokens(StepRecv(s), AfterRecv(s, f))
  {
  }

  lemma RecvReaderTokens(s: State, f: Fifo)
    requires Shape(s, f) && CanRecv(s) && Receiver(s, f) && ReaderTokens(s, f)
    ensures ReaderTokens(StepRecv(s), AfterRecv(s, f))
  {
  }

  /** Where the slot `i` places after the head was before the step. */
  function Before(s: State, i: nat): nat
    requires i < |s.slots|
  {
    if s.recv.pc != ReAdvance then i else if i + 1 < |s.slots| then i + 1 else 0
  }

  lemma AdvanceSignalAt(s: State, f: Fifo, i: nat)
    requires Shape(s, f) && s.recv.pc == ReAdvance && Receiver(s, f)
    requires Shape(StepRecv(s), AfterRecv(s, f))
    requires i < |s.slots| && FlagsAt(s, f, Before(s, i))
    ensures SignalAt(StepRecv(s), AfterRecv(s, f), i)
  {
  }

  lemma StaySignalAt(s: State, f: Fifo, i: nat)
    requires Shape(s, f) && CanRecv(s) && s.recv.pc != ReAdvance && Receiver(s, f)
    requires Shape(StepRecv(s), AfterRecv(s, f))
    requires i < |s.slots| && FlagsAt(s, f, i)
    ensures SignalAt(StepRecv(s), AfterRecv(s, f), i)
  {
  }

  lemma AdvanceRequestAt(s: State, f: Fifo, i: nat)
    requires Shape(s, f) && s.recv.pc == ReAdvance && Mutex(s) && Receiver(s, f)
    requires Shape(StepRecv(s), AfterRecv(s, f))
    requires i < |s.slots| && RequestAt(s, f, Before(s, i))
    ensures RequestAt(StepRecv(s), AfterRecv(s, f), i)
  {
  }

  lemma StayRequestAt(s: State, f: Fifo, i: nat)
    requires Shape(s, f) && CanRecv(s) && s.recv.pc != ReAdvance && Mutex(s) && Receiver(s, f)
    requires i < |s.slots| && RequestAt(s, f, i)
    requires Shape(StepRecv(s), AfterRecv(s, f))
    ensures RequestAt(StepRecv(s), AfterRecv(s, f), i)
  {
  }

  lemma RecvFlags(s: State, f: Fifo)
    requires Shape(s, f) && CanRecv(s) && Mutex(s) && Flags(s, f) && Receiver(s, f)
    requires Shape(StepRecv(s), AfterRecv(s, f))
    ensures Flags(StepRecv(s), AfterRecv(s, f))
  {
    forall i | 0 <= i < |s.slots| ensures FlagsAt(StepRecv(s), AfterRecv(s, f), i) {
      assert FlagsAt(s, f, Before(s, i));
      if s.recv.pc == ReAdvance {
        AdvanceSignalAt(s, f, i);
        AdvanceRequestAt(s, f, i);
      } else {
        StaySignalAt(s, f, i);
        StayRequestAt(s, f, i);
      }
    }
  }

  lemma AdvanceContentAt(s: State, f: Fifo, i: nat)
    requires Shape(s, f) && s.recv.pc == ReAdvance && Shape(StepRecv(s), AfterRecv(s, f))
    requires i < Occupied(AfterRecv(s, f)) && i + 1 < Occupied(f) && ContentAt(s, f, i + 1)
    ensures ContentAt(StepRecv(s), AfterRecv(s, f), i)
  {
  }

  lemma StayContentAt(s: State, f: Fifo, i: nat)
    requires Shape(s, f) && CanRecv(s) && s.recv.pc != ReAdvance && Shape(StepRecv(s), AfterRecv(s, f))
    requires i < Occupied(f) && ContentAt(s, f, i)
    ensures i < Occupied(AfterRecv(s, f)) && ContentAt(StepRecv(s), AfterRecv(s, f), i)
  {
  }

  lemma RecvContents(s: State, f: Fifo)
    requires Shape(s, f) && CanRecv(s) && Contents(s, f)
    requires Shape(StepRecv(s), AfterRecv(s, f))
    ensures Contents(StepRecv(s), AfterRecv(s, f))
  {
    forall i | 0 <= i < Occupied(AfterRecv(s, f)) ensures ContentAt(StepRecv(s), AfterRecv(s, f), i) {
      if s.recv.pc == ReAdvance { AdvanceContentAt(s, f, i); } else { StayContentAt(s, f, i); }
    }
  }

  lemma RecvWriting(s: State, f: Fifo)
    requires Shape(s, f) && CanRecv(s) && Mutex(s) && Writing(s)
    ensures Writing(StepRecv(s))
  {
  }

  lemma RecvReceiver(s: State, f: Fifo)
    requires Shape(s, f) && CanRecv(s) && Flags(s, f) && Receiver(s, f)
    requires Shape(StepRecv(s), AfterRecv(s, f))
    ensures Receiver(StepRecv(s), AfterRecv(s, f))
  {
    assert FlagsAt(s, f, 0);
  }

  lemma RecvSenders(s: State, f: Fifo)
    requires Shape(s, f) && CanRecv(s) && Senders(s)
    ensures Senders(StepRecv(s))
  {
  }

  lemma RecvAcks(s: State, f: Fifo)
    requires Shape(s, f) && CanRecv(s) && Flags(s, f) && Receiver(s, f) && Acks(s)
    ensures Acks(StepRecv(s))
  {
    forall k | 0 <= k < |s.slots| ensures AcksAt(StepRecv(s), k) {
      assert AcksAt(s, k);
    }
  }

  lemma RecvOrigins(s: State, f: Fifo)
    requires Shape(s, f) && CanRecv(s) && Origins(s, f)
    ensures Origins(StepRecv(s), AfterRecv(s, f))
  {
  }

  lemma RecvRecorded(s: State, f: Fifo)
    requires Shape(s, f) && CanRecv(s) && Recorded(s, f)
    ensures Recorded(StepRecv(s), AfterRecv(s, f))
  {
  }

  lemma RecvAckSlots(s: State, f: Fifo)
    requires Shape(s, f) && CanRecv(s) && AckSlots(s, f)
    requires Shape(StepRecv(s), AfterRecv(s, f))
    ensures AckSlots(StepRecv(s), AfterRecv(s, f))
  {
    forall i | 0 <= i < Occupied(AfterRecv(s, f)) ensures AckSlotAt(StepRecv(s), AfterRecv(s, f), i) {
      if s.recv.pc == ReAdvance { AdvanceAckSlotAt(s, f, i); } else { StayAckSlotAt(s, f, i); }
    }
  }

  lemma AdvanceAckSlotAt(s: State, f: Fifo, i: nat)
    requires Shape(s, f) && s.recv.pc == ReAdvance && Shape(StepRecv(s), AfterRecv(s, f))
    requires i < Occupied(AfterRecv(s, f)) && i + 1 < Occupied(f) && AckSlotAt(s, f, i + 1)
    ensures AckSlotAt(StepRecv(s), AfterRecv(s, f), i)
  {
  }

  lemma StayAckSlotAt(s: State, f: Fifo, i: nat)
    requires Shape(s, f) && CanRecv(s) && s.recv.pc != ReAdvance && Shape(StepRecv(s), AfterRecv(s, f))
    requires i < Occupied(f) && AckSlotAt(s, f, i)
    ensures i < Occupied(AfterRecv(s, f)) && AckSlotAt(StepRecv(s), AfterRecv(s, f), i)
  {
  }

  lemma RecvKeepsRing(s: State, f: Fifo)
    requires Inv(s, f) && CanRecv(s)
    ensures InvRing(StepRecv(s), AfterRecv(s, f))
  {
    RecvShape(s, f);
    RecvMutex(s, f);
    RecvWriterTokens(s, f);
    RecvReaderTokens(s, f);
    RecvFlags(s, f);
    RecvContents(s, f);
    RecvWriting(s, f);
    RecvReceiver(s, f);
  }

  lemma RecvKeepsCalls(s: State, f: Fifo)
    requires InvCalls(s, f) && CanRecv(s) && ReaderTokens(s, f) && Flags(s, f) && Receiver(s, f)
    ensures InvCalls(StepRecv(s), AfterRecv(s, f))
  {
    RecvShape(s, f);
    RecvSenders(s, f);
    RecvAcks(s, f);
    RecvOrigins(s, f);
    RecvRecorded(s, f);
    RecvAckSlots(s, f);
  }

  lemma RecvKeeps(s: State, f: Fifo)
    requires Inv(s, f) && CanRecv(s)
    ensures Keeps(s, f, RecvStep)
  {
    RecvAllowed(s, f);
    RecvKeepsRing(s, f);
    RecvKeepsCalls(s, f);
  }
}
