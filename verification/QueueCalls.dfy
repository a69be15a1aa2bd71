/** What the calls of the work queue do with their arguments: in every run, what a send
    stores and returns is told from the labels alone. */
module QueueCalls {
  import opened Basics
  import opened WorkQueue
  import opened Fifo
  import opened QueueInvariant
  import opened QueueTheorems

  /** The call was refused: no record, or one without bytes. */
  predicate BadArgument(par: Option<seq<byte>>) { par.None? || par.value == [] }

  /** The call in progress is the one that the label began, and has returned what it must:
      the code of a bad argument exactly for a bad argument, and that of an expired wait
      exactly if its wait expired. */
  predicate AsCalled(t: Send, par: Option<seq<byte>>, block: bool, time: nat, expired: bool) {
    && t.block == block && t.time == time
    && (!BadArgument(par) ==> t.par == par.value)
    && (t.pc == SendDone(InvalidArgument) <==> BadArgument(par))
    && (t.pc == SendDone(TimedOut) <==> expired) && (expired ==> time != INFINITE)
  }

  lemma CallBegins(s: State, id: nat, par: Option<seq<byte>>, block: bool, time: nat)
    requires s.Wf() && Enabled(s, CallSend(id, par, block, time))
    ensures var s' := Apply(s, CallSend(id, par, block, time));
      id !in s.sends && id in s'.sends && AsCalled(s'.sends[id], par, block, time, false)
  {
  }

  lemma CallGoesOn(s: State, l: Label, id: nat, par: Option<seq<byte>>, block: bool, time: nat, expired: bool)
    requires s.Wf() && Enabled(s, l) && id in s.sends && AsCalled(s.sends[id], par, block, time, expired)
    ensures var s' := Apply(s, l);
      id in s'.sends && AsCalled(s'.sends[id], par, block, time, expired || l == SendTimeout(id))
  {
    if l.SendStep? && l.id == id {
      StepKeepsArguments(s, id);
    } else if l.SendStep? {
      assert Apply(s, l).sends[id] == s.sends[id];
    } else if l.RecvStep? {
      assert Apply(s, l).sends == s.sends;
    }
  }

  lemma StepKeepsArguments(s: State, id: nat)
    requires s.Wf() && CanSend(s, id)
    ensures var t, t' := s.sends[id], StepSend(s, id).sends[id];
      && t'.par == t.par && t'.block == t.block && t'.time == t.time
      && !t.pc.SendDone? && t'.pc != SendDone(InvalidArgument) && t'.pc != SendDone(TimedOut)
  {
  }

  lemma LastOf(ls: seq<Label>, l: Label)
    requires ls != []
    ensures l in ls <==> l in Front(ls) || l == Last(ls)
  {
    assert ls == Front(ls) + [Last(ls)];
  }

  /** Over any run, from the labels: the call that a label began has these arguments and has
      returned what it must. */
  lemma {:induction false} ArgumentsKept(s0: State, ls: seq<Label>, s: State,
                                         id: nat, par: Option<seq<byte>>, block: bool, time: nat)
    requires s0.Wf() && id !in s0.sends && Exec(s0, ls) == Some(s) && CallSend(id, par, block, time) in ls
    ensures id in s.sends && AsCalled(s.sends[id], par, block, time, SendTimeout(id) in ls)
    decreases |ls|
  {
    var l, before := Last(ls), Exec(s0, Front(ls)).value;
    LastOf(ls, CallSend(id, par, block, time));
    LastOf(ls, SendTimeout(id));
    if l == CallSend(id, par, block, time) {
      CallBegins(before, id, par, block, time);
      NoTimeoutBefore(s0, Front(ls), before, id);
    } else {
      ArgumentsKept(s0, Front(ls), before, id, par, block, time);
      CallGoesOn(before, l, id, par, block, time, SendTimeout(id) in Front(ls));
    }
  }

  /** Calls in progress stay, and only a call in progress can expire. */
  lemma {:induction false} NoTimeoutBefore(s0: State, ls: seq<Label>, s: State, id: nat)
    requires s0.Wf() && Exec(s0, ls) == Some(s) && id !in s.sends
    ensures SendTimeout(id) !in ls && id !in s0.sends
    decreases |ls|
  {
    if ls != [] {
      var before := Exec(s0, Front(ls)).value;
      LastOf(ls, SendTimeout(id));
      SendsStay(before, Last(ls), id);
      NoTimeoutBefore(s0, Front(ls), before, id);
    }
  }

  lemma SendsStay(s: State, l: Label, id: nat)
    requires s.Wf() && Enabled(s, l) && id !in Apply(s, l).sends
    ensures id !in s.sends && l != SendTimeout(id)
  {
  }

  /** Every call in progress was begun by a label. */
  lemma {:induction false} Begun(s0: State, ls: seq<Label>, s: State, id: nat)
    returns (par: Option<seq<byte>>, block: bool, time: nat)
    requires s0.Wf() && id !in s0.sends && Exec(s0, ls) == Some(s) && id in s.sends
    ensures CallSend(id, par, block, time) in ls
    decreases |ls|
  {
    var l, before := Last(ls), Exec(s0, Front(ls)).value;
    if id in before.sends {
      par, block, time := Begun(s0, Front(ls), before, id);
      LastOf(ls, CallSend(id, par, block, time));
    } else {
      OnlyCallsBegin(before, l, id);
      par, block, time := l.par, l.block, l.time;
      LastOf(ls, l);
    }
  }

  lemma OnlyCallsBegin(s: State, l: Label, id: nat)
    requires s.Wf() && Enabled(s, l) && id !in s.sends && id in Apply(s, l).sends
    ensures l.CallSend? && l.id == id
  {
  }

  /** In every run, each call in progress was begun by a label, and from that label alone: its
      time limit, whether it blocks, its bytes if it has any, and that it returned the code of
      a bad argument exactly if it has none, and the code of an expired wait exactly if its
      wait expired, which only a limited wait does. */
  lemma CallsAsLabelled(size: nat, length: nat, ls: seq<Label>, s: State, tr: seq<Event>, id: nat)
    returns (par: Option<seq<byte>>, block: bool, time: nat)
    requires Run(size, length, ls, s, tr) && id in s.sends
    ensures CallSend(id, par, block, time) in ls
    ensures s.sends[id].time == time && s.sends[id].block == block
    ensures s.sends[id].pc == SendDone(InvalidArgument) <==> par.None? || par.value == []
    ensures par.Some? && par.value != [] ==> s.sends[id].par == par.value
    ensures s.sends[id].pc == SendDone(TimedOut) <==> SendTimeout(id) in ls
    ensures SendTimeout(id) in ls ==> time != INFINITE
  {
    par, block, time := Begun(Init(size, length), ls, s, id);
    ArgumentsKept(Init(size, length), ls, s, id, par, block, time);
  }

  /** A send with a time limit is never held up for want of a writer token: it takes one, or
      its wait can expire, and not both. */
  lemma LimitedWaitsEnd(s: State, id: nat)
    requires id in s.sends && s.sends[id].pc == AtWriter
    ensures s.sends[id].time != INFINITE ==> (Enabled(s, SendStep(id)) <==> !Enabled(s, SendTimeout(id)))
    ensures s.sends[id].time == INFINITE ==> !Enabled(s, SendTimeout(id))
    ensures Enabled(s, SendStep(id)) <==> s.writer > 0
  {
  }

  /** In every run, each inserted record is exactly what some call of that name was given: the
      same bytes, at least one, and the same wish to block. */
  lemma RecordsAsGiven(size: nat, length: nat, ls: seq<Label>, s: State, tr: seq<Event>, j: nat)
    requires Run(size, length, ls, s, tr) && j < |Inserts(tr)|
    ensures var r := Inserts(tr)[j];
      r.par != [] && exists time: nat :: CallSend(r.id, Some(r.par), r.block, time) in ls
  {
    var r := Inserts(tr)[j];
    InsertedCall(size, length, ls, s, tr, j);
    var par, block, time := CallsAsLabelled(size, length, ls, s, tr, r.id);
    assert CallSend(r.id, Some(r.par), r.block, time) in ls;
  }

  lemma InsertedCall(size: nat, length: nat, ls: seq<Label>, s: State, tr: seq<Event>, j: nat)
    requires Run(size, length, ls, s, tr) && j < |Inserts(tr)|
    ensures var r := Inserts(tr)[j];
      r.id in s.sends && Inserted(s.sends[r.id].pc) && r.par == s.sends[r.id].par && r.block == s.sends[r.id].block
  {
    var f := Reached(size, length, ls, s, tr);
    assert OriginOf(s, f.inserted[j]);
  }

  /** In every run, no two labels begin the same call, so what is told from a label of its
      name is told of the call. */
  lemma {:induction false} CalledOnce(size: nat, length: nat, ls: seq<Label>, s: State, i: nat, j: nat)
    requires length > 0 && Exec(Init(size, length), ls) == Some(s)
    requires i < j < |ls| && ls[i].CallSend? && ls[j].CallSend?
    ensures ls[i].id != ls[j].id
    decreases |ls|
  {
    var before := Exec(Init(size, length), Front(ls)).value;
    assert Front(ls)[i] == ls[i];
    if j < |ls| - 1 {
      assert Front(ls)[j] == ls[j];
      CalledOnce(size, length, Front(ls), before, i, j);
    } else {
      var l := ls[i];
      ArgumentsKept(Init(size, length), Front(ls), before, l.id, l.par, l.block, l.time);
    }
  }

  // ----- the receiver

  /** The time limit of the latest WQ_recv; 0 before the first. */
  function LatestLimit(ls: seq<Label>): nat {
    if ls == [] then 0 else if Last(ls).CallRecv? then Last(ls).time else LatestLimit(Front(ls))
  }

  lemma LimitAfter(s: State, l: Label)
    requires s.Wf() && Enabled(s, l)
    ensures Apply(s, l).recv.time == if l.CallRecv? then l.time else s.recv.time
  {
  }

  /** In every run the receiver waits with the limit of its latest call. */
  lemma {:induction false} ReceivesWithLimit(size: nat, length: nat, ls: seq<Label>, s: State)
    requires length > 0 && Exec(Init(size, length), ls) == Some(s)
    ensures s.recv.time == LatestLimit(ls)
    decreases |ls|
  {
    if ls != [] {
      var before := Exec(Init(size, length), Front(ls)).value;
      ReceivesWithLimit(size, length, Front(ls), before);
      LimitAfter(before, Last(ls));
    }
  }
}
