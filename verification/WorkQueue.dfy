/** The bounded work queue of WQ.c as a labelled transition system.

    Any number of WQ_send calls, each with its own identity and program counter, run
    against one receiver that calls WQ_recv again and again.  A program counter names
    the statement that runs next, and every statement that touches shared memory or a
    synchronisation object is a step of its own.  Semaphores are counters, the mutex has
    an explicit owner, and a wait that cannot proceed is a step that is not enabled. */
module WorkQueue {
  import opened Basics

  /** What WQ_send and WQ_recv return. */
  datatype Ret = Signaled | TimedOut | InvalidArgument

  /** One ring element: its two flag bits, its acknowledgement semaphore, its buffer. */
  datatype Slot = Slot(signaled: bool, semaAck: bool, ack: nat, par: seq<byte>, npar: nat)

  datatype SendPc =
    | AtWriter            // wait on the writer semaphore
    | AtLock              // enter the critical section
    | AtClear             // zero the buffer of the tail slot
    | AtCopy              // copy the caller's bytes into it
    | AtSize              // store their number
    | AtFlag              // request an acknowledgement if blocking
    | AtAdvance           // move the tail cursor
    | AtUnlock            // leave the critical section
    | AtPost              // post the reader semaphore
    | AtAck               // wait for the acknowledgement, if one was requested
    | SendDone(ret: Ret)

  /** A WQ_send call in progress: arguments, the local `ack_sema`, program counter. */
  datatype Send = Send(par: seq<byte>, block: bool, time: nat, ackSema: Option<nat>, pc: SendPc)

  datatype RecvPc =
    | Idle(last: Ret)     // between calls; the previous call returned `last`
    | ReLock              // enter the first critical section
    | ReTest              // is the head slot on loan, and was an acknowledgement requested?
    | RePostAck           // post the acknowledgement
    | ReClearAck          // clear the request
    | ReClearSignal       // clear the loan mark
    | ReAdvance           // move the head cursor
    | ReUnlock            // leave the critical section after a release
    | ReSkip              // leave the critical section with nothing to release
    | RePostWriter        // post the writer semaphore
    | DeWait              // wait on the reader semaphore
    | DeLock              // enter the second critical section
    | DePar               // hand out the buffer of the head slot
    | DeSize              // hand out the number of bytes
    | DeMark              // mark the head slot as on loan
    | DeUnlock            // leave the critical section

  /** The receiver: program counter, wait time of the current call, and the two results
      of the latest delivery (the lent slot and the byte count). */
  datatype Recv = Recv(pc: RecvPc, time: nat, slot: nat, npar: nat)

  datatype Owner = Free | BySend(id: nat) | ByRecv

  datatype State = State(
    size: nat, slots: seq<Slot>, head: nat, tail: nat,
    reader: nat, writer: nat, owner: Owner,
    sends: map<nat, Send>, recv: Recv)
  {
    /** Indices are in range and every buffer has the element size. */
    ghost predicate Wf() {
      && head < |slots| && tail < |slots| && recv.slot < |slots|
      && (forall i :: 0 <= i < |slots| ==> |slots[i].par| == size)
      && (forall id :: id in sends ==>
            |sends[id].par| <= size && (sends[id].ackSema.Some? ==> sends[id].ackSema.value < |slots|))
    }
  }

  datatype Label =
    | CallSend(id: nat, par: Option<seq<byte>>, block: bool, time: nat)
    | SendStep(id: nat)
    | SendTimeout(id: nat)
    | CallRecv(time: nat)
    | RecvStep
    | RecvTimeout

  /** The cursor after `cursor`, wrapping to 0. */
  function Next(cursor: nat, max: nat): nat {
    if cursor + 1 >= max then 0 else cursor + 1
  }

  function Zeros(n: nat): seq<byte> { seq(n, _ => 0 as byte) }

  /** Overwrites the front of `dst` with `src`. */
  function CopyInto(dst: seq<byte>, src: seq<byte>): seq<byte>
    requires |src| <= |dst|
  {
    src + dst[|src|..]
  }

  function EmptySlot(size: nat): Slot { Slot(false, false, 0, Zeros(size), 0) }

  function Init(size: nat, length: nat): State
    requires length > 0
  {
    State(size, seq(length, _ => EmptySlot(size)), 0, 0, 0, length, Free, map[], Recv(Idle(TimedOut), 0, 0, 0))
  }

  // ----- which steps can be taken

  predicate CanSend(s: State, id: nat) {
    && id in s.sends
    && match s.sends[id].pc {
         case AtWriter => s.writer > 0
         case AtLock => s.owner == Free
         case AtAck => s.sends[id].ackSema.None? ||
                       (s.sends[id].ackSema.value < |s.slots| && s.slots[s.sends[id].ackSema.value].ack > 0)
         case SendDone(_) => false
         case _ => true
       }
  }

  predicate CanRecv(s: State) {
    match s.recv.pc
    case Idle(_) => false
    case ReLock => s.owner == Free
    case DeLock => s.owner == Free
    case DeWait => s.reader > 0
    case _ => true
  }

  predicate Enabled(s: State, l: Label) {
    match l
    case CallSend(id, par, _, _) => id !in s.sends && (par.Some? ==> |par.value| <= s.size)
    case SendStep(id) => CanSend(s, id)
    case SendTimeout(id) =>
      id in s.sends && s.sends[id].pc == AtWriter && s.sends[id].time != INFINITE && s.writer == 0
    case CallRecv(_) => s.recv.pc.Idle?
    case RecvStep => CanRecv(s)
    case RecvTimeout => s.recv.pc == DeWait && s.recv.time != INFINITE && s.reader == 0
  }

  // ----- what they do

  function SetSend(s: State, id: nat, t: Send): (r: State)
    requires s.Wf() && |t.par| <= s.size && (t.ackSema.Some? ==> t.ackSema.value < |s.slots|)
    ensures r.Wf()
  {
    s.(sends := s.sends[id := t])
  }

  function SetSlot(s: State, k: nat, e: Slot): (r: State)
    requires s.Wf() && k < |s.slots| && |e.par| == s.size
    ensures r.Wf()
  {
    s.(slots := s.slots[k := e])
  }

  function StepSend(s: State, id: nat): (r: State)
    requires s.Wf() && CanSend(s, id)
    ensures r.Wf() && r.size == s.size && |r.slots| == |s.slots|
  {
    var t := s.sends[id];
    var e := s.slots[s.tail];
    match t.pc
    case AtWriter => SetSend(s.(writer := s.writer - 1), id, t.(pc := AtLock))
    case AtLock => SetSend(s.(owner := BySend(id)), id, t.(pc := AtClear))
    case AtClear => SetSend(SetSlot(s, s.tail, e.(par := Zeros(s.size))), id, t.(pc := AtCopy))
    case AtCopy => SetSend(SetSlot(s, s.tail, e.(par := CopyInto(e.par, t.par))), id, t.(pc := AtSize))
    case AtSize => SetSend(SetSlot(s, s.tail, e.(npar := |t.par|)), id, t.(pc := AtFlag))
    case AtFlag =>
      if t.block then
        SetSend(SetSlot(s, s.tail, e.(semaAck := true)), id, t.(pc := AtAdvance, ackSema := Some(s.tail)))
      else
        SetSend(s, id, t.(pc := AtAdvance))
    case AtAdvance => SetSend(s.(tail := Next(s.tail, |s.slots|)), id, t.(pc := AtUnlock))
    case AtUnlock => SetSend(s.(owner := Free), id, t.(pc := AtPost))
    case AtPost => SetSend(s.(reader := s.reader + 1), id, t.(pc := AtAck))
    case AtAck =>
      if t.ackSema.None? then
        SetSend(s, id, t.(pc := SendDone(Signaled)))
      else
        var k := t.ackSema.value;
        SetSend(SetSlot(s, k, s.slots[k].(ack := s.slots[k].ack - 1)), id, t.(pc := SendDone(Signaled)))
  }

  function SetRecv(s: State, pc: RecvPc): (r: State)
    requires s.Wf()
    ensures r.Wf()
  {
    s.(recv := s.recv.(pc := pc))
  }

  function StepRecv(s: State): (r: State)
    requires s.Wf() && CanRecv(s)
    ensures r.Wf() && r.size == s.size && |r.slots| == |s.slots|
  {
    var e := s.slots[s.head];
    match s.recv.pc
    case ReLock => SetRecv(s.(owner := ByRecv), ReTest)
    case ReTest =>
      SetRecv(s, if !e.signaled then ReSkip else if e.semaAck then RePostAck else ReClearSignal)
    case RePostAck => SetRecv(SetSlot(s, s.head, e.(ack := e.ack + 1)), ReClearAck)
    case ReClearAck => SetRecv(SetSlot(s, s.head, e.(semaAck := false)), ReClearSignal)
    case ReClearSignal => SetRecv(SetSlot(s, s.head, e.(signaled := false)), ReAdvance)
    case ReAdvance => SetRecv(s.(head := Next(s.head, |s.slots|)), ReUnlock)
    case ReUnlock => SetRecv(s.(owner := Free), RePostWriter)
    case ReSkip => SetRecv(s.(owner := Free), DeWait)
    case RePostWriter => SetRecv(s.(writer := s.writer + 1), DeWait)
    case DeWait => SetRecv(s.(reader := s.reader - 1), DeLock)
    case DeLock => SetRecv(s.(owner := ByRecv), DePar)
    case DePar => s.(recv := s.recv.(pc := DeSize, slot := s.head))
    case DeSize => s.(recv := s.recv.(pc := DeMark, npar := e.npar))
    case DeMark => SetRecv(SetSlot(s, s.head, e.(signaled := true)), DeUnlock)
    case DeUnlock => SetRecv(s.(owner := Free), Idle(Signaled))
  }

  function Apply(s: State, l: Label): (r: State)
    requires s.Wf() && Enabled(s, l)
    ensures r.Wf() && r.size == s.size && |r.slots| == |s.slots|
  {
    match l
    case CallSend(id, par, block, time) =>
      if par.None? || |par.value| == 0 then
        SetSend(s, id, Send([], block, time, None, SendDone(InvalidArgument)))
      else
        SetSend(s, id, Send(par.value, block, time, None, AtWriter))
    case SendStep(id) => StepSend(s, id)
    case SendTimeout(id) => SetSend(s, id, s.sends[id].(pc := SendDone(TimedOut)))
    case CallRecv(time) => s.(recv := s.recv.(pc := ReLock, time := time))
    case RecvStep => StepRecv(s)
    case RecvTimeout => SetRecv(s, Idle(TimedOut))
  }

  // ----- runs

  function Front<T>(xs: seq<T>): seq<T>
    requires xs != []
  {
    xs[..|xs| - 1]
  }

  function Last<T>(xs: seq<T>): T
    requires xs != []
  {
    xs[|xs| - 1]
  }

  /** The state after the labels, or None when one of them is not enabled in its turn. */
  function Exec(s: State, ls: seq<Label>): (r: Option<State>)
    requires s.Wf()
    ensures r.Some? ==> r.value.Wf() && r.value.size == s.size && |r.value.slots| == |s.slots|
    decreases |ls|
  {
    if ls == [] then Some(s)
    else
      var t := Exec(s, Front(ls));
      if t.Some? && Enabled(t.value, Last(ls)) then Some(Apply(t.value, Last(ls))) else None
  }

  // ----- what an observer sees

  /** A record as its sender passed it. */
  datatype Record = Record(id: nat, par: seq<byte>, block: bool)

  /** The three steps that matter outside: a send's critical section adds its record, a
      WQ_recv hands out a slot (with the buffer and count then in it), and a later
      WQ_recv gives the slot back. */
  datatype Event =
    | Insert(r: Record)
    | Deliver(slot: nat, buffer: seq<byte>, npar: nat)
    | Release(slot: nat)
    | Internal

  function EventOf(s: State, l: Label): Event
    requires s.Wf() && Enabled(s, l)
  {
    if l.SendStep? && s.sends[l.id].pc == AtAdvance then
      Insert(Record(l.id, s.sends[l.id].par, s.sends[l.id].block))
    else if l.RecvStep? && s.recv.pc == DeMark then
      Deliver(s.recv.slot, s.slots[s.recv.slot].par, s.recv.npar)
    else if l.RecvStep? && s.recv.pc == ReAdvance then
      Release(s.head)
    else
      Internal
  }

  /** The events of a run, internal steps included. */
  function Trace(s: State, ls: seq<Label>): (tr: seq<Event>)
    requires s.Wf() && Exec(s, ls).Some?
    decreases |ls|
  {
    if ls == [] then []
    else Trace(s, Front(ls)) + [EventOf(Exec(s, Front(ls)).value, Last(ls))]
  }
}
