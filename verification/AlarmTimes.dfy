/** What one pass over a host's alarms does (alarm_schdule in NetGroup.c), on a list of
    alarms whose times are known without wrap-around, and what a run of passes amounts to. */
module AlarmTimes {
  import opened Basics

  /** An alarm and the true time at which it was started; memory keeps only the tick. */
  datatype Entry<Alarm> = Entry(alarm: Alarm, began: nat, time: Word, repeat: bool)

  function Tick(now: nat): Word { now % TWO_32 }

  function Elapsed<A>(e: Entry<A>, now: nat): Word { Sub32(Tick(now), Tick(e.began)) }

  predicate Due<A>(e: Entry<A>, now: nat) { Elapsed(e, now) >= e.time }

  /** What a pass leaves of one alarm. */
  function Rest<A>(e: Entry<A>, now: nat): seq<Entry<A>> {
    if !Due(e, now) then [e] else if e.repeat then [e.(began := now)] else []
  }

  function Remaining<A>(e: Entry<A>, now: nat): Word {
    if Due(e, now) then e.time else e.time - Elapsed(e, now)
  }

  function Left<A>(es: seq<Entry<A>>, now: nat): seq<Entry<A>> {
    if es == [] then [] else Left(es[..|es| - 1], now) + Rest(es[|es| - 1], now)
  }

  function Fired<A>(es: seq<Entry<A>>, now: nat): seq<A> {
    if es == [] then [] else
      var e := es[|es| - 1];
      Fired(es[..|es| - 1], now) + if Due(e, now) then [e.alarm] else []
  }

  function Freed<A>(es: seq<Entry<A>>, now: nat): seq<A> {
    if es == [] then [] else
      var e := es[|es| - 1];
      Freed(es[..|es| - 1], now) + if Due(e, now) && !e.repeat then [e.alarm] else []
  }

  /** How long the host then waits for a message. */
  function Wait<A>(es: seq<Entry<A>>, now: nat): Word {
    if es == [] then INFINITE else
      var e := es[|es| - 1];
      var w := Wait(es[..|es| - 1], now);
      if Due(e, now) && !e.repeat then w else Min(Remaining(e, now), w)
  }

  function Min(a: Word, b: Word): Word { if a < b then a else b }

  /** What a pass has done to these alarms. */
  ghost predicate Passed<A>(es: seq<Entry<A>>, now: nat, left: seq<Entry<A>>, wait: Word,
                            fired: seq<A>, freed: seq<A>)
  {
    left == Left(es, now) && wait == Wait(es, now) && fired == Fired(es, now) && freed == Freed(es, now)
  }

  lemma PassOne<A>(es: seq<Entry<A>>, i: nat, now: nat, left: seq<Entry<A>>, wait: Word, fired: seq<A>, freed: seq<A>)
    requires i < |es| && Passed(es[..i], now, left, wait, fired, freed)
    ensures var e := es[i];
      if !Due(e, now) then Passed(es[..i + 1], now, left + [e], Min(e.time - Elapsed(e, now), wait), fired, freed)
      else if e.repeat then
        Passed(es[..i + 1], now, left + [e.(began := now)], Min(e.time, wait), fired + [e.alarm], freed)
      else Passed(es[..i + 1], now, left, wait, fired + [e.alarm], freed + [e.alarm])
  {
    assert es[..i + 1][..i] == es[..i];
  }

  // ----- true time

  function Deadline<A>(e: Entry<A>): nat { e.began + e.time }

  /** Less than a whole round of the tick counter has passed. */
  predicate InTime<A>(e: Entry<A>, now: nat) { e.began <= now < e.began + TWO_32 }

  ghost predicate AllInTime<A>(es: seq<Entry<A>>, now: nat) { forall e <- es :: InTime(e, now) }

  /** The wrapped difference is the true one, modulo one round; an alarm is found due at its
      deadline exactly when it is looked at within one round. */
  lemma DueMeans<A>(e: Entry<A>, now: nat)
    requires e.began <= now
    ensures Elapsed(e, now) == (now - e.began) % TWO_32
    ensures InTime(e, now) ==> Elapsed(e, now) == now - e.began && (Due(e, now) <==> Deadline(e) <= now)
  {
    WrappedDifference(now, e.began);
  }

  /** In list order, the alarms whose deadline has come; of those perhaps only the one-shots. */
  function Overdue<A>(es: seq<Entry<A>>, now: nat, oneShots: bool): seq<A> {
    if es == [] then []
    else OverdueOne(es[0], now, oneShots) + Overdue(es[1..], now, oneShots)
  }

  function OverdueOne<A>(e: Entry<A>, now: nat, oneShots: bool): seq<A> {
    if Deadline(e) <= now && (oneShots ==> !e.repeat) then [e.alarm] else []
  }

  lemma {:induction false} OverdueAppend<A>(es: seq<Entry<A>>, e: Entry<A>, now: nat, oneShots: bool)
    ensures Overdue(es + [e], now, oneShots) == Overdue(es, now, oneShots) + OverdueOne(e, now, oneShots)
  {
    if es == [] {
      assert es + [e] == [e];
    } else {
      OverdueAppend(es[1..], e, now, oneShots);
      assert (es + [e])[1..] == es[1..] + [e];
    }
  }

  /** A pass fires, in list order and each once, exactly the alarms whose deadline has come,
      and frees exactly the one-shots among them. */
  lemma {:induction false} FiresExactlyTheDue<A>(es: seq<Entry<A>>, now: nat)
    requires AllInTime(es, now)
    ensures Fired(es, now) == Overdue(es, now, false)
    ensures Freed(es, now) == Overdue(es, now, true)
  {
    if es != [] {
      var front, last := es[..|es| - 1], es[|es| - 1];
      assert es == front + [last];
      assert last in es && forall e <- front :: e in es;
      FiresExactlyTheDue(front, now);
      DueMeans(last, now);
      OverdueAppend(front, last, now, false);
      OverdueAppend(front, last, now, true);
    }
  }

  /** In list order, what is to be left: the alarms whose deadline is to come, and the
      repeating ones among the others, started now. */
  function Survivors<A>(es: seq<Entry<A>>, now: nat): seq<Entry<A>> {
    if es == [] then [] else SurvivorOf(es[0], now) + Survivors(es[1..], now)
  }

  function SurvivorOf<A>(e: Entry<A>, now: nat): seq<Entry<A>> {
    if now < Deadline(e) then [e] else if e.repeat then [Entry(e.alarm, now, e.time, true)] else []
  }

  lemma {:induction false} SurvivorsAppend<A>(es: seq<Entry<A>>, e: Entry<A>, now: nat)
    ensures Survivors(es + [e], now) == Survivors(es, now) + SurvivorOf(e, now)
  {
    if es == [] {
      assert es + [e] == [e];
    } else {
      SurvivorsAppend(es[1..], e, now);
      assert (es + [e])[1..] == es[1..] + [e];
    }
  }

  /** A pass leaves exactly these, in list order. */
  lemma {:induction false} LeavesSurvivors<A>(es: seq<Entry<A>>, now: nat)
    requires AllInTime(es, now)
    ensures Left(es, now) == Survivors(es, now)
  {
    if es != [] {
      var front, last := es[..|es| - 1], es[|es| - 1];
      assert es == front + [last];
      assert last in es && forall e <- front :: e in es;
      LeavesSurvivors(front, now);
      DueMeans(last, now);
      SurvivorsAppend(front, last, now);
    }
  }

  /** What survives a pass: an alarm that is not due, unchanged, or a repeating one that was,
      started again now. */
  lemma {:induction false} LeftAre<A>(es: seq<Entry<A>>, now: nat)
    ensures forall r <- Left(es, now) :: exists e :: e in es && r in Rest(e, now)
    ensures forall e <- es :: forall r <- Rest(e, now) :: r in Left(es, now)
  {
    if es != [] {
      var front, last := es[..|es| - 1], es[|es| - 1];
      assert es == front + [last];
      LeftAre(front, now);
      forall r | r in Left(es, now) ensures exists e :: e in es && r in Rest(e, now) {
        if r in Left(front, now) {
          var e :| e in front && r in Rest(e, now);
          assert e in es;
        } else {
          assert last in es && r in Rest(last, now);
        }
      }
    }
  }

  lemma RestDeadline<A>(e: Entry<A>, now: nat)
    requires InTime(e, now)
    ensures forall r <- Rest(e, now) :: InTime(r, now) && Deadline(r) == now + Remaining(e, now)
  {
    DueMeans(e, now);
  }

  /** No survivor is due before the wait is over; if there are survivors, one is due then;
      the host waits without limit exactly when every survivor has the longest time left. */
  lemma {:induction false} WaitsForTheNext<A>(es: seq<Entry<A>>, now: nat)
    requires AllInTime(es, now)
    ensures AllInTime(Left(es, now), now)
    ensures forall r <- Left(es, now) :: Deadline(r) >= now + Wait(es, now)
    ensures Left(es, now) != [] ==> exists r :: r in Left(es, now) && Deadline(r) == now + Wait(es, now)
    ensures Wait(es, now) == INFINITE <==> forall r <- Left(es, now) :: Deadline(r) == now + INFINITE
  {
    if es != [] {
      var front, last := es[..|es| - 1], es[|es| - 1];
      assert last in es && forall e <- front :: e in es;
      WaitsForTheNext(front, now);
      RestDeadline(last, now);
      if Left(front, now) != [] {
        var r :| r in Left(front, now) && Deadline(r) == now + Wait(front, now);
        assert r in Left(es, now);
      }
      if Rest(last, now) != [] {
        var r := Rest(last, now)[0];
        assert r in Left(es, now);
      }
    }
  }

  // ----- runs of passes

  /** The alarms after passes at these times. */
  function AfterPasses<A>(es: seq<Entry<A>>, ts: seq<nat>): seq<Entry<A>> {
    if ts == [] then es else
      var k := |ts| - 1;
      Left(AfterPasses(es, ts[..k]), ts[k])
  }

  /** While alarms are left, each pass comes at most `late` ticks after the wait that the
      pass before it asked for. */
  ghost predicate Punctual<A>(es: seq<Entry<A>>, ts: seq<nat>, late: nat) {
    ts != [] ==>
      var k := |ts| - 1;
      && Punctual(es, ts[..k], late)
      && if k == 0 then AllInTime(es, ts[0]) else
           var before := AfterPasses(es, ts[..k - 1]);
           ts[k - 1] <= ts[k] && (Left(before, ts[k - 1]) != [] ==> ts[k] <= ts[k - 1] + Wait(before, ts[k - 1]) + late)
  }

  /** The lateness cannot carry any alarm round the tick counter. */
  ghost predicate Bounded<A>(es: seq<Entry<A>>, late: nat) { forall e <- es :: e.time + late < INFINITE }

  lemma {:induction false} StaysBounded<A>(es: seq<Entry<A>>, ts: seq<nat>, late: nat)
    requires Bounded(es, late)
    ensures Bounded(AfterPasses(es, ts), late)
  {
    if ts != [] {
      StaysBounded(es, ts[..|ts| - 1], late);
      LeftBounded(AfterPasses(es, ts[..|ts| - 1]), ts[|ts| - 1], late);
    }
  }

  /** In a punctual run no pass ever meets an alarm after a full round of the counter, and
      none is looked at more than `late` ticks after its deadline. */
  lemma {:induction false} NeverWraps<A>(es: seq<Entry<A>>, ts: seq<nat>, t: nat, late: nat)
    requires Punctual(es, ts + [t], late) && Bounded(es, late)
    ensures AllInTime(AfterPasses(es, ts), t)
    ensures ts != [] ==> forall r <- AfterPasses(es, ts) :: t <= Deadline(r) + late
    decreases |ts|
  {
    assert (ts + [t])[..|ts|] == ts;
    if ts != [] {
      var k := |ts| - 1;
      assert ts == ts[..k] + [ts[k]];
      assert (ts + [t])[..k] == ts[..k];
      NeverWraps(es, ts[..k], ts[k], late);
      StaysBounded(es, ts[..k], late);
      NextPassInTime(AfterPasses(es, ts[..k]), ts[k], t, late);
    }
  }

  lemma NextPassInTime<A>(es: seq<Entry<A>>, now: nat, t: nat, late: nat)
    requires AllInTime(es, now) && Bounded(es, late) && now <= t
    requires Left(es, now) != [] ==> t <= now + Wait(es, now) + late
    ensures AllInTime(Left(es, now), t) && forall r <- Left(es, now) :: t <= Deadline(r) + late
  {
    WaitsForTheNext(es, now);
    LeftBounded(es, now, late);
  }

  lemma LeftBounded<A>(es: seq<Entry<A>>, now: nat, late: nat)
    requires Bounded(es, late)
    ensures Bounded(Left(es, now), late)
  {
    LeftAre(es, now);
    forall r | r in Left(es, now) ensures r.time + late < INFINITE {
      var e :| e in es && r in Rest(e, now);
    }
  }

  /** When the alarm was started last, if it is started again by each of these passes that
      finds its time over. */
  function LastStart<A>(e: Entry<A>, ts: seq<nat>): nat {
    if ts == [] then e.began else
      var k := |ts| - 1;
      var b := LastStart(e, ts[..k]);
      if b + e.time <= ts[k] then ts[k] else b
  }

  /** A one-shot alarm is left by a pass exactly if it was there and its deadline is to come. */
  lemma OneShotLeft<A>(es: seq<Entry<A>>, t: nat, e: Entry<A>)
    requires AllInTime(es, t) && !e.repeat
    ensures e in Left(es, t) <==> e in es && t < Deadline(e)
  {
    LeftAre(es, t);
    if e in es {
      DueMeans(e, t);
      assert e in Rest(e, t) <==> t < Deadline(e);
    }
    if e in Left(es, t) {
      var o :| o in es && e in Rest(o, t);
      assert o == e;
    }
  }

  /** A repeating alarm is left, started again if its time was over. */
  lemma RepeatingLeft<A>(es: seq<Entry<A>>, t: nat, c: Entry<A>)
    requires AllInTime(es, t) && c.repeat && c in es
    ensures c.(began := if Deadline(c) <= t then t else c.began) in Left(es, t)
  {
    LeftAre(es, t);
    DueMeans(c, t);
    assert c.(began := if Deadline(c) <= t then t else c.began) in Rest(c, t);
  }

  /** All passes come before the deadline. */
  ghost predicate AllBefore(ts: seq<nat>, deadline: nat) { forall i :: 0 <= i < |ts| ==> ts[i] < deadline }

  lemma EndOf(ts: seq<nat>, deadline: nat)
    requires ts != []
    ensures ts == ts[..|ts| - 1] + [ts[|ts| - 1]]
    ensures AllBefore(ts, deadline) <==> AllBefore(ts[..|ts| - 1], deadline) && ts[|ts| - 1] < deadline
  {
    var k := |ts| - 1;
    assert forall i :: 0 <= i < k ==> ts[..k][i] == ts[i];
  }

  /** Over a punctual run, a one-shot alarm is there until the first pass at or after its
      deadline. */
  lemma {:induction false} OneShotsOverRuns<A>(es: seq<Entry<A>>, ts: seq<nat>, late: nat, e: Entry<A>)
    requires Punctual(es, ts, late) && Bounded(es, late) && e in es && !e.repeat
    ensures e in AfterPasses(es, ts) <==> AllBefore(ts, Deadline(e))
    decreases |ts|
  {
    if ts != [] {
      var front, t := ts[..|ts| - 1], ts[|ts| - 1];
      EndOf(ts, Deadline(e));
      OneShotsOverRuns(es, front, late, e);
      NeverWraps(es, front, t, late);
      OneShotLeft(AfterPasses(es, front), t, e);
    }
  }

  /** A repeating one is always there, started at the last pass that found its time over. */
  lemma {:induction false} RepeatingOverRuns<A>(es: seq<Entry<A>>, ts: seq<nat>, late: nat, e: Entry<A>)
    requires Punctual(es, ts, late) && Bounded(es, late) && e in es && e.repeat
    ensures e.(began := LastStart(e, ts)) in AfterPasses(es, ts)
    decreases |ts|
  {
    if ts == [] {
      assert e.(began := e.began) == e;
    } else {
      var front, t := ts[..|ts| - 1], ts[|ts| - 1];
      EndOf(ts, 0);
      RepeatingOverRuns(es, front, late, e);
      NeverWraps(es, front, t, late);
      RepeatingLeft(AfterPasses(es, front), t, e.(began := LastStart(e, front)));
    }
  }

  /** No alarm is in the list twice. */
  ghost predicate Distinct<A>(es: seq<Entry<A>>) {
    forall i, j :: 0 <= i < j < |es| ==> es[i].alarm != es[j].alarm
  }

  /** Where what is left comes from: the same alarm, and the same entry unless it repeats. */
  predicate Continues<A(==)>(r: Entry<A>, e: Entry<A>) {
    r.alarm == e.alarm && r.repeat == e.repeat && r.time == e.time && (!e.repeat ==> r == e)
  }

  lemma {:induction false} LeftContinues<A>(es: seq<Entry<A>>, now: nat)
    ensures forall r <- Left(es, now) :: exists e :: e in es && Continues(r, e)
  {
    LeftAre(es, now);
    forall r | r in Left(es, now) ensures exists e :: e in es && Continues(r, e) {
      var e :| e in es && r in Rest(e, now);
      assert Continues(r, e);
    }
  }

  lemma {:induction false} LeftDistinct<A>(es: seq<Entry<A>>, now: nat)
    requires Distinct(es)
    ensures Distinct(Left(es, now))
  {
    if es != [] {
      var front, last := es[..|es| - 1], es[|es| - 1];
      LeftDistinct(front, now);
      LeftContinues(front, now);
      var left := Left(front, now);
      forall i | 0 <= i < |left| ensures left[i].alarm != last.alarm {
        assert left[i] in left;
        var e :| e in front && Continues(left[i], e);
        var k :| 0 <= k < |front| && front[k] == e;
        assert es[k] == e && es[k].alarm != es[|es| - 1].alarm;
      }
    }
  }

  lemma {:induction false} RunsStayDistinct<A>(es: seq<Entry<A>>, ts: seq<nat>)
    requires Distinct(es)
    ensures Distinct(AfterPasses(es, ts))
    ensures forall r <- AfterPasses(es, ts) :: exists e :: e in es && Continues(r, e)
  {
    if ts == [] {
      assert forall e <- es :: Continues(e, e);
    } else {
      var k := |ts| - 1;
      var before := AfterPasses(es, ts[..k]);
      RunsStayDistinct(es, ts[..k]);
      LeftDistinct(before, ts[k]);
      LeftContinues(before, ts[k]);
      forall r | r in Left(before, ts[k]) ensures exists e :: e in es && Continues(r, e) {
        var b :| b in before && Continues(r, b);
        var e :| e in es && Continues(b, e);
        assert Continues(r, e);
      }
    }
  }

  lemma OnlyOne<A>(es: seq<Entry<A>>, x: Entry<A>, y: Entry<A>)
    requires Distinct(es) && x in es && y in es && x.alarm == y.alarm
    ensures x == y
  {
    var i :| 0 <= i < |es| && es[i] == x;
    var j :| 0 <= j < |es| && es[j] == y;
  }

  /** A pass calls the function of an alarm exactly if the alarm is in the list and due. */
  lemma {:induction false} FiredAre<A>(es: seq<Entry<A>>, now: nat, a: A)
    ensures a in Fired(es, now) <==> exists e :: e in es && e.alarm == a && Due(e, now)
  {
    if es != [] {
      var front, last := es[..|es| - 1], es[|es| - 1];
      assert es == front + [last];
      FiredAre(front, now, a);
      if a in Fired(front, now) {
        var e :| e in front && e.alarm == a && Due(e, now);
        assert e in es;
      } else if a in Fired(es, now) {
        assert last in es;
      }
      if e :| e in es && e.alarm == a && Due(e, now) {
        assert e in front || e == last;
      }
    }
  }

  lemma FiredIfDue<A>(es: seq<Entry<A>>, now: nat, c: Entry<A>)
    requires Distinct(es) && c in es
    ensures c.alarm in Fired(es, now) <==> Due(c, now)
  {
    FiredAre(es, now, c.alarm);
    if c.alarm in Fired(es, now) {
      var x :| x in es && x.alarm == c.alarm && Due(x, now);
      OnlyOne(es, x, c);
    }
  }

  lemma OneShotFires<A>(es: seq<Entry<A>>, ts: seq<nat>, t: nat, late: nat, e: Entry<A>)
    requires Punctual(es, ts + [t], late) && Bounded(es, late) && Distinct(es) && e in es && !e.repeat
    ensures e.alarm in Fired(AfterPasses(es, ts), t) <==> Deadline(e) <= t && AllBefore(ts, Deadline(e))
  {
    var left := AfterPasses(es, ts);
    assert (ts + [t])[..|ts|] == ts;
    OneShotsOverRuns(es, ts, late, e);
    NeverWraps(es, ts, t, late);
    RunsStayDistinct(es, ts);
    if e in left {
      DueMeans(e, t);
      FiredIfDue(left, t, e);
    } else {
      FiredAre(left, t, e.alarm);
      if e.alarm in Fired(left, t) {
        GoneForGood(es, left, t, e);
      }
    }
  }

  /** Nothing but the one-shot alarm itself is left in its name. */
  lemma GoneForGood<A>(es: seq<Entry<A>>, left: seq<Entry<A>>, t: nat, e: Entry<A>)
    requires Distinct(es) && e in es && !e.repeat
    requires forall r <- left :: exists o :: o in es && Continues(r, o)
    requires exists x :: x in left && x.alarm == e.alarm && Due(x, t)
    ensures e in left
  {
    var x :| x in left && x.alarm == e.alarm && Due(x, t);
    var o :| o in es && Continues(x, o);
    OnlyOne(es, o, e);
  }

  lemma RepeatingFires<A>(es: seq<Entry<A>>, ts: seq<nat>, t: nat, late: nat, e: Entry<A>)
    requires Punctual(es, ts + [t], late) && Bounded(es, late) && Distinct(es) && e in es && e.repeat
    ensures e.alarm in Fired(AfterPasses(es, ts), t) <==> LastStart(e, ts) + e.time <= t
  {
    var c := e.(began := LastStart(e, ts));
    assert (ts + [t])[..|ts|] == ts;
    RepeatingOverRuns(es, ts, late, e);
    NeverWraps(es, ts, t, late);
    RunsStayDistinct(es, ts);
    DueMeans(c, t);
    FiredIfDue(AfterPasses(es, ts), t, c);
  }

  /** Over a punctual run, a one-shot alarm fires in exactly one pass, the first at or after
      its deadline; a repeating one fires in the passes that find its time since its last
      start over. */
  lemma FiresAtTheFirstPass<A>(es: seq<Entry<A>>, ts: seq<nat>, t: nat, late: nat, e: Entry<A>)
    requires Punctual(es, ts + [t], late) && Bounded(es, late) && Distinct(es) && e in es
    ensures e.alarm in Fired(AfterPasses(es, ts), t) <==>
      if e.repeat then LastStart(e, ts) + e.time <= t else Deadline(e) <= t && AllBefore(ts, Deadline(e))
  {
    if e.repeat { RepeatingFires(es, ts, t, late, e); } else { OneShotFires(es, ts, t, late, e); }
  }

  /** A pass is right about whether an alarm is due exactly when it looks at it within one
      round of the tick counter, or in a later round in which the alarm's time has passed
      since the round began. */
  lemma RightAboutDueExactly<A>(e: Entry<A>, now: nat)
    requires e.began <= now
    ensures (Due(e, now) <==> Deadline(e) <= now)
      <==> InTime(e, now) || exists k: nat :: InTail(e, now, k)
  {
    DueMeans(e, now);
    Rounds(e, now);
  }

  /** In round `k` since its start, counted from 0, the alarm's time has passed. */
  predicate InTail<A>(e: Entry<A>, now: nat, k: nat) {
    e.began + k * TWO_32 + e.time <= now < e.began + (k + 1) * TWO_32
  }

  lemma Rounds<A>(e: Entry<A>, now: nat)
    requires e.began <= now
    ensures (now - e.began) % TWO_32 >= e.time <==> exists k: nat :: InTail(e, now, k)
  {
    var d, q := now - e.began, (now - e.began) / TWO_32;
    assert d == q * TWO_32 + d % TWO_32;
    if d % TWO_32 >= e.time {
      assert InTail(e, now, q);
    }
    if k: nat :| InTail(e, now, k) {
      assert k == q;
    }
  }
}
