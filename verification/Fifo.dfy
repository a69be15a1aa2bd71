/** The simple queue that the work queue of WQ.c is meant to be: records go in at one
    end, are lent to the receiver one at a time in the same order, and each loan ends
    before the next begins. */
module Fifo {
  import opened Basics
  import opened WorkQueue

  /** `inserted` in order of insertion; the first `delivered` of them have been lent and
      the first `released` of those given back.  `lent` is the slot of the latest loan. */
  datatype Fifo = Fifo(inserted: seq<Record>, delivered: nat, released: nat, lent: nat)

  const EMPTY := Fifo([], 0, 0, 0)

  /** The buffer that holds `par`: its bytes, then zeros. */
  function Padded(par: seq<byte>, size: nat): (r: seq<byte>)
    requires |par| <= size
    ensures |r| == size
  {
    par + Zeros(size - |par|)
  }

  predicate Allows(f: Fifo, e: Event, size: nat, length: nat) {
    match e
    case Internal => true
    case Insert(r) => |f.inserted| - f.released < length
    case Deliver(slot, buffer, npar) =>
      && f.released == f.delivered < |f.inserted|
      && var par := f.inserted[f.delivered].par;
         npar == |par| <= size && buffer == Padded(par, size)
    case Release(slot) => f.released < f.delivered && slot == f.lent
  }

  function After(f: Fifo, e: Event): Fifo {
    match e
    case Internal => f
    case Insert(r) => f.(inserted := f.inserted + [r])
    case Deliver(slot, _, _) => f.(delivered := f.delivered + 1, lent := slot)
    case Release(_) => f.(released := f.released + 1)
  }

  /** The queue after the trace, or None when an event is not allowed in its turn. */
  function Accept(tr: seq<Event>, size: nat, length: nat): Option<Fifo>
    decreases |tr|
  {
    if tr == [] then Some(EMPTY)
    else
      var f := Accept(Front(tr), size, length);
      if f.Some? && Allows(f.value, Last(tr), size, length) then Some(After(f.value, Last(tr))) else None
  }

  // ----- projections of a trace

  function Inserts(tr: seq<Event>): seq<Record>
    decreases |tr|
  {
    if tr == [] then [] else Inserts(Front(tr)) + (if Last(tr).Insert? then [Last(tr).r] else [])
  }

  function Deliveries(tr: seq<Event>): seq<Event>
    decreases |tr|
  {
    if tr == [] then [] else Deliveries(Front(tr)) + (if Last(tr).Deliver? then [Last(tr)] else [])
  }

  function Releases(tr: seq<Event>): seq<nat>
    decreases |tr|
  {
    if tr == [] then [] else Releases(Front(tr)) + (if Last(tr).Release? then [Last(tr).slot] else [])
  }

  /** The delivery hands out exactly the bytes of the record, their number, and zeros behind them. */
  predicate Carries(d: Event, r: Record, size: nat) {
    && d.Deliver?
    && d.npar == |r.par| <= size == |d.buffer|
    && d.buffer[..d.npar] == r.par
    && (forall j :: d.npar <= j < size ==> d.buffer[j] == 0)
  }

  /** The records went through the queue in order: what was delivered is the front of what
      was inserted, unchanged; what was released is the front of what was delivered. */
  ghost predicate InOrder(f: Fifo, ins: seq<Record>, ds: seq<Event>, rs: seq<nat>, size: nat, length: nat) {
    && f.inserted == ins && f.delivered == |ds| && f.released == |rs|
    && |ds| <= |ins| <= |rs| + length
    && (forall k :: 0 <= k < |ds| ==> Carries(ds[k], ins[k], size))
    && |rs| <= |ds| <= |rs| + 1
    && (ds != [] ==> Last(ds).slot == f.lent)
    && (forall k :: 0 <= k < |rs| ==> rs[k] == ds[k].slot)
  }

  lemma LatestDelivery(f: Fifo, ins: seq<Record>, ds: seq<Event>, rs: seq<nat>, size: nat, length: nat)
    requires InOrder(f, ins, ds, rs, size, length)
    ensures f.inserted == ins && f.delivered == |ds| && f.released == |rs|
    ensures ds != [] ==> Carries(Last(ds), f.inserted[f.delivered - 1], size) && Last(ds).slot == f.lent
  {
  }

  lemma InOrderInsert(f: Fifo, r: Record, ins: seq<Record>, ds: seq<Event>, rs: seq<nat>, size: nat, length: nat)
    requires InOrder(f, ins, ds, rs, size, length) && Allows(f, Insert(r), size, length)
    ensures InOrder(After(f, Insert(r)), ins + [r], ds, rs, size, length)
  {
  }

  lemma InOrderDeliver(f: Fifo, e: Event, ins: seq<Record>, ds: seq<Event>, rs: seq<nat>, size: nat, length: nat)
    requires InOrder(f, ins, ds, rs, size, length) && e.Deliver? && Allows(f, e, size, length)
    ensures InOrder(After(f, e), ins, ds + [e], rs, size, length)
  {
    assert Carries(e, ins[|ds|], size);
  }

  lemma InOrderRelease(f: Fifo, e: Event, ins: seq<Record>, ds: seq<Event>, rs: seq<nat>, size: nat, length: nat)
    requires InOrder(f, ins, ds, rs, size, length) && e.Release? && Allows(f, e, size, length)
    ensures InOrder(After(f, e), ins, ds, rs + [e.slot], size, length)
  {
  }

  /** An accepted trace delivers the inserted records in order without loss, duplication
      or change, and releases each delivered slot once, before the next delivery. */
  lemma {:induction false} AcceptedIsFifo(tr: seq<Event>, size: nat, length: nat)
    requires Accept(tr, size, length).Some?
    ensures InOrder(Accept(tr, size, length).value, Inserts(tr), Deliveries(tr), Releases(tr), size, length)
    decreases |tr|
  {
    if tr != [] {
      var front, e := Front(tr), Last(tr);
      AcceptedIsFifo(front, size, length);
      var f, ins, ds, rs := Accept(front, size, length).value, Inserts(front), Deliveries(front), Releases(front);
      assert ins + [] == ins && ds + [] == ds && rs + [] == rs;
      match e
      case Internal =>
      case Insert(r) => InOrderInsert(f, r, ins, ds, rs, size, length);
      case Deliver(_, _, _) => InOrderDeliver(f, e, ins, ds, rs, size, length);
      case Release(_) => InOrderRelease(f, e, ins, ds, rs, size, length);
    }
  }
}
