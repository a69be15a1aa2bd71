/** The work queue as the object WQ.c keeps: its fields and buffers updated in place by one
    call at a time.  Each method is tied to the step model: what it does to the object is
    what the steps of the same call do when no other thread runs in between. */
module WorkQueueObject {
  import opened Basics
  import opened WorkQueue
  import opened Fifo
  import opened QueueInvariant
  import opened QueueTheorems
  import opened QueueAlone
  import opened QueueDrain

  const FLAG_SEMA_ACK: bv8 := 1
  const FLAG_SIGNALED: bv8 := 2

  /** The state after a WQ_recv that nothing interrupts. */
  function AfterCall(s: State, time: nat): State
    requires s.Wf() && s.owner == Free
  {
    var back := GivenBack(s.(recv := s.recv.(pc := ReLock, time := time)));
    if s.reader > 0 then TakenOnLoan(back) else back.(recv := back.recv.(pc := Idle(TimedOut)))
  }

  lemma FirstHalf(s: State, f0: Fifo) returns (f: Fifo)
    requires Inv(s, f0) && s.recv.pc == ReLock && s.owner == Free
    ensures Inv(GivenBack(s), f)
  {
    GiveBackAlone(s);
    f := InvAlong(s, f0, Times(RecvStep, RecvStepsLeft(s)), GivenBack(s));
  }

  lemma SecondHalf(s: State, f0: Fifo) returns (f: Fifo)
    requires Inv(s, f0) && s.recv.pc == DeWait && s.owner == Free && s.reader > 0
    ensures Inv(TakenOnLoan(s), f)
  {
    TakeAlone(s);
    f := InvAlong(s, f0, Times(RecvStep, RecvStepsLeft(s)), TakenOnLoan(s));
  }

  lemma WholeCall(s: State, f0: Fifo, time: nat) returns (f: Fifo)
    requires Inv(s, f0) && s.recv.pc.Idle? && s.owner == Free && time != INFINITE
    ensures Inv(AfterCall(s, time), f)
  {
    var s1 := Apply(s, CallRecv(time));
    StepKeeps(s, f0, CallRecv(time));
    f := FirstHalf(s1, f0);
    if s.reader > 0 {
      f := SecondHalf(GivenBack(s1), f);
    } else {
      StepKeeps(GivenBack(s1), f, RecvTimeout);
    }
  }

  /** Where the closing loop is after `calls` calls, the last of which returned `ret`. */
  ghost predicate Looping(s: State, f: Fifo, calls: nat, unread: nat, ret: Ret) {
    && Inv(s, f) && s.recv.pc.Idle? && s.owner == Free
    && calls + s.reader == unread + One(ret != Signaled)
    && (ret != Signaled ==> calls > 0 && s.reader == 0 && s.recv.pc == Idle(TimedOut))
  }

  lemma LoopingOn(s: State, f0: Fifo, calls: nat, unread: nat) returns (f: Fifo)
    requires Looping(s, f0, calls, unread, Signaled)
    ensures Looping(AfterCall(s, THRESHOLD_TIME), f, calls + 1, unread, if s.reader == 0 then TimedOut else Signaled)
  {
    f := WholeCall(s, f0, THRESHOLD_TIME);
    CallResult(s, THRESHOLD_TIME);
  }

  lemma CallResult(s: State, time: nat)
    requires s.Wf() && s.owner == Free
    ensures var t := AfterCall(s, time);
      && t.owner == Free && t.sends == s.sends
      && t.reader == (if s.reader == 0 then 0 else s.reader - 1)
      && t.recv.pc == Idle(if s.reader == 0 then TimedOut else Signaled)
  {
  }

  lemma LoopingDone(s: State, f: Fifo, calls: nat, unread: nat, ret: Ret)
    requires Looping(s, f, calls, unread, ret) && ret != Signaled
    ensures calls == unread + 1 && s.reader == 0
    ensures Drained(s) <==> Count(s.sends, HoldsToken) == 0 && Count(s.sends, Unposted) == 0
  {
    DrainedExactly(s, f);
  }

  /** Zeroes the buffer (memset). */
  method Clear(a: array<byte>)
    modifies a
    ensures a[..] == Zeros(a.Length)
  {
    for i := 0 to a.Length
      invariant forall j :: 0 <= j < i ==> a[j] == 0
    {
      a[i] := 0;
    }
  }

  /** Copies the bytes to the front of the buffer (memcpy). */
  method CopyIn(a: array<byte>, src: seq<byte>)
    requires |src| <= a.Length
    modifies a
    ensures a[..] == CopyInto(old(a[..]), src)
  {
    for i := 0 to |src|
      invariant a[..i] == src[..i] && a[i..] == old(a[i..])
    {
      a[i] := src[i];
    }
    assert a[..] == a[..|src|] + a[|src|..];
  }

  class Element {
    var flags: bv8
    var ack: nat
    const par: array<byte>
    var npar: nat

    constructor (size: nat)
      ensures fresh(par) && par.Length == size
      ensures AsSlot() == EmptySlot(size)
    {
      flags, ack, npar := 0, 0, 0;
      par := new byte[size](_ => 0);
    }

    ghost function AsSlot(): Slot
      reads this, par
    {
      Slot(flags & FLAG_SIGNALED != 0, flags & FLAG_SEMA_ACK != 0, ack, par[..], npar)
    }
  }

  class Queue {
    const elementSize: nat
    const elements: seq<Element>
    var reader: nat
    var writer: nat
    var headCursor: nat
    var tailCursor: nat

    /** The elements and their buffers. */
    ghost function Cells(): (r: set<object>)
      ensures forall e <- elements :: e in r && e.par in r
    {
      (set e: Element | e in elements :: e as object) + (set e: Element | e in elements :: e.par as object)
    }

    ghost function Repr(): (r: set<object>)
      ensures this in r && Cells() <= r
    {
      {this} + Cells()
    }

    ghost predicate Valid()
      reads this
    {
      && headCursor < |elements| && tailCursor < |elements|
      && (forall i :: 0 <= i < |elements| ==> elements[i].par.Length == elementSize)
      && (forall i, j :: 0 <= i < j < |elements| ==> elements[i] != elements[j] && elements[i].par != elements[j].par)
    }

    ghost function Slots(): (slots: seq<Slot>)
      reads Cells()
      ensures |slots| == |elements|
      ensures forall i :: 0 <= i < |elements| ==> slots[i] == elements[i].AsSlot()
    {
      seq(|elements|, i requires 0 <= i < |elements| reads Cells() => elements[i].AsSlot())
    }

    /** The state of the step model that the object is in, with these calls in progress. */
    ghost function AsState(sends: map<nat, Send>, recv: Recv): State
      reads Repr()
    {
      State(elementSize, Slots(), headCursor, tailCursor, reader, writer, Free, sends, recv)
    }

    /** WQ_open for valid arguments. */
    constructor (size: nat, length: nat)
      requires size > 0 && length > 0
      ensures Valid() && fresh(Repr())
      ensures AsState(map[], Recv(Idle(TimedOut), 0, 0, 0)) == Init(size, length)
    {
      elementSize := size;
      reader, writer, headCursor, tailCursor := 0, length, 0, 0;
      var es: seq<Element> := [];
      while |es| < length
        invariant |es| <= length
        invariant forall e <- es :: fresh(e) && fresh(e.par) && e.par.Length == size && e.AsSlot() == EmptySlot(size)
        invariant forall i, j :: 0 <= i < j < |es| ==> es[i] != es[j] && es[i].par != es[j].par
      {
        var e := new Element(size);
        es := es + [e];
      }
      elements := es;
      new;
      assert Slots() == seq(length, _ => EmptySlot(size));
    }

    /** Writing one element changes that slot and no other. */
    twostate lemma OnlySlot(k: nat)
      requires old(Valid()) && k < |elements|
      requires forall e: Element :: e in elements && e != elements[k] ==> unchanged(e) && unchanged(e.par)
      ensures Slots() == old(Slots())[k := elements[k].AsSlot()]
    {
      forall i | 0 <= i < |elements| && i != k
        ensures elements[i].AsSlot() == old(elements[i].AsSlot())
      {
        assert elements[i] in elements && elements[i] != elements[k];
      }
    }

    /** The critical section of WQ_send: write the record to the tail slot and move on. */
    method InsertAtTail(par: seq<byte>, block: bool)
      requires Valid() && |par| <= elementSize
      modifies this`tailCursor, elements[tailCursor], elements[tailCursor].par
      ensures Valid()
      ensures tailCursor == Next(old(tailCursor), |elements|)
      ensures var e := old(Slots()[tailCursor]);
        Slots() == old(Slots())[old(tailCursor) :=
          Slot(e.signaled, e.semaAck || block, e.ack, Padded(par, elementSize), |par|)]
    {
      var e := elements[tailCursor];
      Clear(e.par);
      CopyIn(e.par, par);
      assert CopyInto(Zeros(elementSize), par) == Padded(par, elementSize);
      e.npar := |par|;
      if block {
        e.flags := e.flags | FLAG_SEMA_ACK;
      }
      OnlySlot(tailCursor);
      tailCursor := Next(tailCursor, |elements|);
    }

    /** WQ_send up to its wait for an acknowledgement; `ackSema` is where it would wait.
        `id` names the call among the calls in progress. */
    method SendRecord(par: Option<seq<byte>>, time: nat, block: bool,
                      ghost id: nat, ghost sends: map<nat, Send>, ghost recv: Recv)
      returns (ret: Ret, ackSema: Option<nat>)
      requires Valid() && AsState(sends, recv).Wf()
      requires par.Some? ==> |par.value| <= elementSize
      requires time == INFINITE ==> writer > 0   // it would not return otherwise
      modifies Repr()
      ensures Valid()
      ensures ret == if par.None? || |par.value| == 0 then InvalidArgument
                     else if old(writer) == 0 then TimedOut else Signaled
      ensures ret != Signaled ==> AsState(sends, recv) == old(AsState(sends, recv)) && ackSema.None?
      ensures ret == Signaled ==>
        var call, s0 := Send(par.value, block, time, None, AtWriter), old(AsState(sends, recv));
        var s := s0.(sends := sends[id := call]);
        s.Wf() && SendReady(s, id) &&
        AsState(sends[id := call.(pc := AtAck, ackSema := ackSema)], recv) == Sent(s, id)
    {
      ackSema := None;
      if par.None? || |par.value| == 0 {
        return InvalidArgument, None;
      }
      if writer == 0 {
        return TimedOut, None;
      }
      ackSema := SendAccepted(par.value, time, block, id, sends, recv);
      ret := Signaled;
    }

    /** The rest of the call, once there is a writer token. */
    method SendAccepted(par: seq<byte>, time: nat, block: bool,
                        ghost id: nat, ghost sends: map<nat, Send>, ghost recv: Recv)
      returns (ackSema: Option<nat>)
      requires Valid() && AsState(sends, recv).Wf() && 0 < |par| <= elementSize && writer > 0
      modifies Repr()
      ensures Valid()
      ensures var call, s0 := Send(par, block, time, None, AtWriter), old(AsState(sends, recv));
        var s := s0.(sends := sends[id := call]);
        s.Wf() && SendReady(s, id) &&
        AsState(sends[id := call.(pc := AtAck, ackSema := ackSema)], recv) == Sent(s, id)
    {
      ghost var s0 := AsState(sends, recv);
      ackSema := InsertAndPost(par, block);
      SentInFull(s0, id, Send(par, block, time, None, AtWriter), Slots());
    }

    /** A writer token becomes a record in the tail slot and a reader token. */
    method InsertAndPost(par: seq<byte>, block: bool) returns (ackSema: Option<nat>)
      requires Valid() && |par| <= elementSize && writer > 0
      modifies Repr()
      ensures Valid() && headCursor == old(headCursor) && tailCursor == Next(old(tailCursor), |elements|)
      ensures writer == old(writer) - 1 && reader == old(reader) + 1
      ensures ackSema == if block then Some(old(tailCursor)) else None
      ensures var e := old(Slots()[tailCursor]);
        Slots() == old(Slots())[old(tailCursor) :=
          Slot(e.signaled, e.semaAck || block, e.ack, Padded(par, elementSize), |par|)]
    {
      ackSema := None;
      writer := writer - 1;
      if block {
        ackSema := Some(tailCursor);
      }
      InsertAtTail(par, block);
      reader := reader + 1;
    }

    /** The first critical section of WQ_recv: give back the head slot if it is on loan. */
    method ReleaseHead() returns (released: bool)
      requires Valid()
      modifies this`headCursor, elements[headCursor]
      ensures Valid()
      ensures released == old(Slots()[headCursor].signaled)
      ensures !released ==> headCursor == old(headCursor) && Slots() == old(Slots())
      ensures released ==> headCursor == Next(old(headCursor), |elements|)
      ensures released ==>
        var e := old(Slots()[headCursor]);
        Slots() == old(Slots())[old(headCursor) :=
          e.(signaled := false, semaAck := false, ack := e.ack + One(e.semaAck))]
    {
      var e := elements[headCursor];
      if e.flags & FLAG_SIGNALED == 0 {
        return false;
      }
      if e.flags & FLAG_SEMA_ACK != 0 {
        e.ack := e.ack + 1;
        e.flags := e.flags & !FLAG_SEMA_ACK;
      }
      e.flags := e.flags & !FLAG_SIGNALED;
      OnlySlot(headCursor);
      headCursor := Next(headCursor, |elements|);
      return true;
    }

    /** The second critical section: hand out the head slot and mark it as on loan. */
    method LendHead() returns (slot: nat, npar: nat)
      requires Valid()
      modifies elements[headCursor]
      ensures Valid() && slot == headCursor && npar == old(Slots()[headCursor].npar)
      ensures Slots() == old(Slots())[headCursor := old(Slots()[headCursor]).(signaled := true)]
    {
      slot := headCursor;
      var e := elements[headCursor];
      npar := e.npar;
      e.flags := e.flags | FLAG_SIGNALED;
      OnlySlot(headCursor);
    }

    /** The first half of WQ_recv. */
    method GiveBack(time: nat, ghost sends: map<nat, Send>, ghost recv: Recv)
      requires Valid() && AsState(sends, recv).Wf()
      modifies this`headCursor, this`writer, elements[headCursor]
      ensures Valid()
      ensures AsState(sends, recv.(pc := DeWait, time := time))
        == GivenBack(old(AsState(sends, recv.(pc := ReLock, time := time))))
    {
      var released := ReleaseHead();
      if released {
        writer := writer + 1;
      }
    }

    /** The second half, with something to read. */
    method Take(time: nat, ghost sends: map<nat, Send>, ghost recv: Recv) returns (slot: nat, npar: nat)
      requires Valid() && AsState(sends, recv).Wf() && reader > 0
      modifies this`reader, elements[headCursor]
      ensures Valid()
      ensures AsState(sends, Recv(Idle(Signaled), time, slot, npar))
        == TakenOnLoan(old(AsState(sends, recv.(pc := DeWait, time := time))))
    {
      reader := reader - 1;
      slot, npar := LendHead();
    }

    /** WQ_recv.  `after` is the receiver as the step model leaves it. */
    method Receive(time: nat, ghost sends: map<nat, Send>, ghost recv: Recv)
      returns (ret: Ret, slot: nat, npar: nat, ghost after: Recv)
      requires Valid() && AsState(sends, recv).Wf()
      requires time == INFINITE ==> reader > 0   // it would not return otherwise
      modifies Repr()
      ensures Valid()
      ensures ret == if old(reader) == 0 then TimedOut else Signaled
      ensures AsState(sends, after) == AfterCall(old(AsState(sends, recv)), time)
      ensures after.pc == Idle(ret) && (ret == Signaled ==> slot == after.slot && npar == after.npar)
    {
      slot, npar := 0, 0;
      GiveBack(time, sends, recv);
      if reader == 0 {
        return TimedOut, 0, 0, recv.(pc := Idle(TimedOut), time := time);
      }
      slot, npar := Take(time, sends, recv);
      return Signaled, slot, npar, Recv(Idle(Signaled), time, slot, npar);
    }

    /** The loop of WQ_close: receive until a call times out.  It makes one call more than
        there are unread records, and leaves the queue drained exactly if none of the sends
        in progress is between its two tokens. */
    method Threshold(ghost sends: map<nat, Send>, ghost recv0: Recv, ghost f0: Fifo)
      returns (calls: nat, ghost recv: Recv, ghost f: Fifo)
      requires Valid() && Inv(AsState(sends, recv0), f0) && recv0.pc.Idle?
      modifies Repr()
      ensures Valid() && calls == old(reader) + 1 && reader == 0
      ensures Inv(AsState(sends, recv), f) && recv.pc == Idle(TimedOut)
      ensures Drained(AsState(sends, recv)) <==> Count(sends, HoldsToken) == 0 && Count(sends, Unposted) == 0
    {
      calls, recv, f := 0, recv0, f0;
      var ret := Signaled;
      while ret == Signaled
        invariant Valid() && Looping(AsState(sends, recv), f, calls, old(reader), ret)
        decreases reader + One(ret == Signaled)
      {
        f := LoopingOn(AsState(sends, recv), f, calls, old(reader));
        var slot, npar;
        ret, slot, npar, recv := Receive(THRESHOLD_TIME, sends, recv);
        calls := calls + 1;
      }
      LoopingDone(AsState(sends, recv), f, calls, old(reader), ret);
    }
  }
}
