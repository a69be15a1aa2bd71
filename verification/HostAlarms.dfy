/** A host's list of alarms in memory, and the pass over it (alarm_schdule in NetGroup.c). */
module HostAlarms {
  import opened Basics
  import opened AlarmTimes

  class Alarm {
    var next: Alarm?
    var startTick: Word
    var time: Word
    var repeat: bool

    constructor (startTick: Word, time: Word, repeat: bool)
      ensures next == null && this.startTick == startTick && this.time == time && this.repeat == repeat
    {
      next := null;
      this.startTick, this.time, this.repeat := startTick, time, repeat;
    }
  }

  type Entries = seq<Entry<Alarm>>

  ghost function Nodes(es: Entries): set<Alarm> { set e <- es :: e.alarm }

  ghost function At(es: Entries, i: int): Alarm? {
    if 0 <= i < |es| then es[i].alarm else null
  }

  /** Memory holds the alarm at the index, in front of the next one. */
  ghost predicate Placed(es: Entries, i: nat)
    requires i < |es|
    reads es[i].alarm
  {
    var a := es[i].alarm;
    && a.next == At(es, i + 1)
    && a.startTick == Tick(es[i].began) && a.time == es[i].time && a.repeat == es[i].repeat
  }

  class Host {
    var alarms: Alarm?
    ghost var list: Entries

    ghost predicate Valid()
      reads this, Nodes(list)
    {
      && alarms == At(list, 0) && Distinct(list)
      && forall i :: 0 <= i < |list| ==> Placed(list, i)
    }

    constructor ()
      ensures Valid() && list == []
    {
      alarms := null;
      list := [];
    }

    /** Fires the alarms that are due, starts the repeating ones again, deletes the others,
        and gives the time until the next one.  `fired` are the calls of the alarms'
        functions, which leave the list alone; `freed` are the deleted alarms. */
    method Schedule(tick: Word, ghost now: nat) returns (wait: Word, fired: seq<Alarm>, freed: seq<Alarm>)
      requires Valid() && tick == Tick(now)
      modifies this, Nodes(list)
      ensures Valid() && list == Left(old(list), now)
      ensures wait == Wait(old(list), now)
      ensures fired == Fired(old(list), now) && freed == Freed(old(list), now)
    {
      ghost var was, i, k := list, 0, 0;
      wait, fired, freed := INFINITE, [], [];
      var current, previous := alarms, null;
      while current != null
        invariant Valid() && i <= |was| && Nodes(list) <= Nodes(was)
        invariant k <= |list| && list[k..] == was[i..]
        invariant Passed(was[..i], now, list[..k], wait, fired, freed)
        invariant current == At(list, k) && previous == At(list, k - 1)
        decreases |was| - i
      {
        var node: Alarm := current;
        TakeOneMore(was, i);
        TakeOneMore(list, k);
        PassOne(was, i, now, list[..k], wait, fired, freed);
        assert Placed(list, k);
        i := i + 1;
        var flow := Sub32(tick, node.startTick);
        if flow >= node.time {
          fired := fired + [node];
          if node.repeat {
            Restart(node, tick, k, now);
            var remain := node.time;
            wait := Min(remain, wait);
          } else {
            freed := freed + [node];
            current := Drop(node, previous, k);
            continue;
          }
        } else {
          var remain := node.time - flow;
          wait := Min(remain, wait);
        }
        assert Placed(list, k);
        previous := node;
        current := node.next;
        k := k + 1;
      }
      assert was[..i] == was && list[..k] == list;
    }

    /** Starts the alarm again. */
    method Restart(current: Alarm, tick: Word, ghost k: nat, ghost now: nat)
      requires Valid() && k < |list| && current == list[k].alarm && tick == Tick(now)
      modifies this`list, current`startTick
      ensures Valid() && list == old(list)[k := old(list)[k].(began := now)]
      ensures list[..k + 1] == old(list)[..k] + [old(list)[k].(began := now)] && list[k + 1..] == old(list)[k + 1..]
      ensures Nodes(list) <= old(Nodes(list))
    {
      ghost var was := list;
      current.startTick := tick;
      list := was[k := was[k].(began := now)];
      forall j | 0 <= j < |list| ensures Placed(list, j) {
        assert old(Placed(was, j));
      }
    }

    /** Takes an alarm out of the list and frees it; what it held is lost. */
    method Drop(current: Alarm, previous: Alarm?, ghost k: nat) returns (after: Alarm?)
      requires Valid() && k < |list| && current == list[k].alarm && previous == At(list, k - 1)
      modifies this, Nodes(list)
      ensures Valid() && |list| == |old(list)| - 1
      ensures list[..k] == old(list)[..k] && list[k..] == old(list)[k + 1..]
      ensures after == At(list, k) && previous == At(list, k - 1)
      ensures Nodes(list) <= old(Nodes(list))
    {
      ghost var was := list;
      assert Placed(was, k);
      after := current.next;
      if previous == null {
        alarms := after;
      } else {
        previous.next := after;
      }
      current.next, current.startTick, current.time, current.repeat := *, *, *, *;
      list := was[..k] + was[k + 1..];
      forall j | 0 <= j < |list| ensures Placed(list, j) {
        assert old(Placed(was, if j < k then j else j + 1));
      }
    }
  }
}
