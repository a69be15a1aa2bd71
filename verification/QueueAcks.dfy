/** Whose acknowledgement a blocking WQ_send takes.

    The acknowledgement semaphore belongs to the slot, not to the send, and slots are
    reused.  So a send may take an acknowledgement meant for an earlier send on its slot,
    and exactly when it may is settled here. */
module QueueAcks {
  import opened Basics
  import opened WorkQueue
  import opened Fifo
  import opened QueueInvariant
  import opened QueueTheorems
  import opened QueueAlone

  /** Another send on the slot has not got its acknowledgement yet. */
  ghost predicate OthersAwait(s: State, k: nat, id: nat) {
    exists other :: other in s.sends && other != id && In(Awaits(k), s.sends[other])
  }

  lemma AtLeastTwo(m: map<nat, Send>, g: Group, id: nat)
    requires id in m && In(g, m[id])
    ensures Count(m, g) >= 2 <==> exists other :: other in m && other != id && In(g, m[other])
  {
    var rest := Members(m, g) - {id};
    assert Members(m, g) == rest + {id};
    if other :| other in m && other != id && In(g, m[other]) {
      assert other in rest;
    }
    if rest != {} {
      var other :| other in rest;
      assert other in m && other != id && In(g, m[other]);
    }
  }

  /** The receiver has posted the acknowledgement of the record it is about to release. */
  predicate Acknowledging(s: State) { s.recv.pc in {ReClearAck, ReClearSignal, ReAdvance} }

  /** The record at place `i` of the ring has not been acknowledged, and its send waits. */
  ghost predicate Unacknowledged(s: State, f: Fifo, id: nat, i: nat) {
    && f.released + i < |f.inserted| && f.inserted[f.released + i].id == id
    && id in s.sends && s.sends[id].block && s.sends[id].pc == AtAck
    && !(i == 0 && Acknowledging(s))
  }

  lemma EarlyAckCount(s: State, f: Fifo, id: nat, i: nat)
    requires Inv(s, f) && Unacknowledged(s, f, id, i)
    ensures var k := Ring(s.head, i, |s.slots|);
      s.sends[id].ackSema == Some(k) && Count(s.sends, Awaits(k)) == 1 + s.slots[k].ack
  {
    var k := Ring(s.head, i, |s.slots|);
    assert OriginOf(s, f.inserted[f.released + i]);
    assert AckSlotAt(s, f, i);
    assert FlagsAt(s, f, i);
    assert AcksAt(s, k);
  }

  lemma EarlyReturnAt(s: State, f: Fifo, id: nat, i: nat)
    requires Inv(s, f) && Unacknowledged(s, f, id, i)
    ensures s.sends[id].ackSema.Some?
    ensures CanSend(s, id) <==> OthersAwait(s, s.sends[id].ackSema.value, id)
  {
    EarlyAckCount(s, f, id, i);
    var k := Ring(s.head, i, |s.slots|);
    assert k < |s.slots| && In(Awaits(k), s.sends[id]);
    AtLeastTwo(s.sends, Awaits(k), id);
  }

  lemma EarlyReturnIn(s: State, f: Fifo, id: nat, j: nat)
    requires Inv(s, f) && f.released <= j < |f.inserted| && f.inserted[j].id == id
    requires id in s.sends && s.sends[id].block && s.sends[id].pc == AtAck
    requires !(j == f.released && Acknowledging(s))
    ensures s.sends[id].ackSema.Some?
    ensures CanSend(s, id) <==> OthersAwait(s, s.sends[id].ackSema.value, id)
  {
    EarlyReturnAt(s, f, id, j - f.released);
  }

  /** While its own record is still unacknowledged in the ring, a blocking send can return
      exactly when another send also awaits an acknowledgement on the same slot. */
  lemma EarlyReturnExactly(size: nat, length: nat, ls: seq<Label>, s: State, tr: seq<Event>, id: nat, j: nat)
    requires Run(size, length, ls, s, tr)
    requires |Releases(tr)| <= j < |Inserts(tr)| && Inserts(tr)[j].id == id
    requires id in s.sends && s.sends[id].block && s.sends[id].pc == AtAck
    requires !(j == |Releases(tr)| && Acknowledging(s))
    ensures s.sends[id].ackSema.Some?
    ensures CanSend(s, id) <==> OthersAwait(s, s.sends[id].ackSema.value, id)
  {
    var f := Reached(size, length, ls, s, tr);
    EarlyReturnIn(s, f, id, j);
  }

  /** So when at most one blocking send is outstanding on its slot, a blocking WQ_send
      returns only after the receiver has acknowledged that very record. */
  lemma OwnAcknowledgement(size: nat, length: nat, ls: seq<Label>, s: State, tr: seq<Event>, id: nat, j: nat)
    requires Run(size, length, ls, s, tr)
    requires j < |Inserts(tr)| && Inserts(tr)[j].id == id
    requires id in s.sends && s.sends[id].block && s.sends[id].pc == AtAck && s.sends[id].ackSema.Some?
    requires !OthersAwait(s, s.sends[id].ackSema.value, id) && CanSend(s, id)
    ensures j < |Releases(tr)| || (j == |Releases(tr)| && Acknowledging(s))
  {
    if j >= |Releases(tr)| && !(j == |Releases(tr)| && Acknowledging(s)) {
      EarlyReturnExactly(size, length, ls, s, tr, id, j);
    }
  }

  // ----- a run in which an acknowledgement is taken by the wrong send

  lemma ReachOn(s: State, ls: seq<Label>, t: State)
    requires s.Wf() && Reachable(s) && Exec(s, ls) == Some(t)
    ensures t.Wf() && Reachable(t)
  {
    var size: nat, length: nat, before: seq<Label> :| length > 0 && Exec(Init(size, length), before) == Some(s);
    ExecConcat(Init(size, length), before, ls, s);
  }

  lemma ReachStep(s: State, l: Label)
    requires s.Wf() && Reachable(s) && Enabled(s, l)
    ensures Reachable(Apply(s, l))
  {
    assert Front([l]) == [];
    ReachOn(s, [l], Apply(s, l));
  }

  /** A call that waits without limit, started and left alone up to its last wait. */
  lemma ReachSent(s: State, id: nat, par: seq<byte>, block: bool) returns (t: State)
    requires s.Wf() && Reachable(s) && id !in s.sends && 0 < |par| <= s.size && s.owner == Free && s.writer > 0
    ensures t.Wf() && Reachable(t)
    ensures var e := s.slots[s.tail];
      t == s.(writer := s.writer - 1, reader := s.reader + 1, tail := Next(s.tail, |s.slots|),
              slots := s.slots[s.tail := Slot(e.signaled, e.semaAck || block, e.ack, Padded(par, s.size), |par|)],
              sends := s.sends[id := Send(par, block, INFINITE, if block then Some(s.tail) else None, AtAck)])
  {
    var l, call := CallSend(id, Some(par), block, INFINITE), Send(par, block, INFINITE, None, AtWriter);
    var e := s.slots[s.tail];
    ReachStep(s, l);
    SentInFull(s, id, call,
               s.slots[s.tail := Slot(e.signaled, e.semaAck || block, e.ack, Padded(par, s.size), |par|)]);
    t := ReachAlone(s.(sends := s.sends[id := call]), id);
  }

  lemma ReachAlone(s: State, id: nat) returns (t: State)
    requires s.Wf() && Reachable(s) && SendReady(s, id)
    ensures t.Wf() && Reachable(t) && t == Sent(s, id)
  {
    SendAlone(s, id);
    t := Sent(s, id);
    ReachOn(s, Times(SendStep(id), SendStepsLeft(s.sends[id].pc)), t);
  }

  /** The receiver calls again, without a time limit, and gets through its first half. */
  lemma ReachTurn(s: State) returns (t: State)
    requires s.Wf() && Reachable(s) && s.recv.pc.Idle? && s.owner == Free
    ensures t.Wf() && Reachable(t)
    ensures t == GivenBack(s.(recv := s.recv.(pc := ReLock, time := INFINITE)))
  {
    ReachStep(s, CallRecv(INFINITE));
    var s1 := Apply(s, CallRecv(INFINITE));
    GiveBackAlone(s1);
    t := GivenBack(s1);
    ReachOn(s1, Times(RecvStep, RecvStepsLeft(s1)), t);
  }

  /** Any record that fits can be sent, whether its send blocks or not, and arrives. */
  lemma AnyRecordArrives(size: nat, length: nat, id: nat, par: seq<byte>, block: bool) returns (s: State)
    requires length > 0 && 0 < |par| <= size
    ensures s.Wf() && Reachable(s) && s.size == size && |s.slots| == length
    ensures s.recv.pc == Idle(Signaled) && s.recv.npar == |par|
    ensures s.slots[s.recv.slot].par == Padded(par, size) && s.slots[s.recv.slot].semaAck == block
  {
    var s0 := Init(size, length);
    assert Exec(s0, []) == Some(s0);
    var s1 := ReachSent(s0, id, par, block);
    var s2 := ReachFirstTurn(s1);
    s := ReachLoan(s2);
  }

  /** One slot.  Send 0 blocks, its record is delivered and, in the receiver's next call,
      released and acknowledged; send 0 has not woken up yet. */
  lemma AcknowledgedButAsleep() returns (s: State)
    ensures s.Wf() && Reachable(s) && s.size == 1 && |s.slots| == 1 && s.head == s.tail == 0
    ensures s.owner == Free && s.recv.pc == DeWait && s.reader == 0 && s.writer == 1
    ensures !s.slots[0].signaled && !s.slots[0].semaAck && s.slots[0].ack == 1
    ensures s.sends == map[0 := Send([7], true, INFINITE, Some(0), AtAck)]
  {
    var s3 := Delivered();
    s := ReachTurn(s3);
  }

  lemma Delivered() returns (s: State)
    ensures s.Wf() && Reachable(s) && s.size == 1 && |s.slots| == 1 && s.head == s.tail == 0
    ensures s.owner == Free && s.recv.pc.Idle? && s.reader == 0 && s.writer == 0
    ensures s.slots[0].signaled && s.slots[0].semaAck && s.slots[0].ack == 0
    ensures s.sends == map[0 := Send([7], true, INFINITE, Some(0), AtAck)]
  {
    var s0 := Init(1, 1);
    assert Exec(Init(1, 1), []) == Some(s0);
    var s1 := ReachSent(s0, 0, [7], true);
    var s2 := ReachFirstTurn(s1);
    s := ReachLoan(s2);
  }

  /** The same when nothing is on loan. */
  lemma ReachFirstTurn(s: State) returns (t: State)
    requires s.Wf() && Reachable(s) && s.recv.pc.Idle? && s.owner == Free && !s.slots[s.head].signaled
    ensures t.Wf() && Reachable(t) && t == s.(recv := s.recv.(pc := DeWait, time := INFINITE))
  {
    t := ReachTurn(s);
  }

  /** With a record to read, it gets through its second half. */
  lemma ReachLoan(s: State) returns (t: State)
    requires s.Wf() && Reachable(s) && s.recv.pc == DeWait && s.owner == Free && s.reader > 0
    ensures t.Wf() && Reachable(t)
    ensures t == s.(slots := s.slots[s.head := s.slots[s.head].(signaled := true)], reader := s.reader - 1,
                    recv := Recv(Idle(Signaled), s.recv.time, s.head, s.slots[s.head].npar))
  {
    TakeAlone(s);
    t := TakenOnLoan(s);
    ReachOn(s, Times(RecvStep, 6), t);
  }

  /** From there, send 1 inserts in the same slot and takes the acknowledgement of send 0:
      it returns although its own record has not even been delivered, and send 0 stays
      asleep. */
  lemma AcknowledgementTakenByLaterSend() returns (s: State)
    ensures Reachable(s)
    ensures 0 in s.sends && s.sends[0].pc == AtAck && !CanSend(s, 0)
    ensures 1 in s.sends && s.sends[1].block && s.sends[1].pc == SendDone(Signaled)
    ensures s.slots[s.head].par == s.sends[1].par && s.slots[s.head].semaAck && !s.slots[s.head].signaled
    ensures s.reader == 1
  {
    var s4 := AcknowledgedButAsleep();
    var s5 := ReachSent(s4, 1, [8], true);
    ReachStep(s5, SendStep(1));
    s := Apply(s5, SendStep(1));
  }
}
