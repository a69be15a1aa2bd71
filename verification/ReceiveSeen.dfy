/** What the decoder of the message server in NetGroup.c gets to see.  It is shown the front
    of the buffer, as many bytes as have just arrived, also when older bytes wait there. */
module ReceiveSeen {
  import opened Basics
  import opened ReceiveWindow

  /** What the decoder is shown in one turn. */
  function ShownNow<T>(window: seq<T>, chunk: seq<T>): seq<T> { (window + chunk)[..|chunk|] }

  /** In a turn that brings something, the decoder sees all that is buffered exactly when
      nothing was buffered before. */
  lemma SeesAllExactly<T>(window: seq<T>, chunk: seq<T>)
    ensures ShownNow(window, chunk) == window + chunk <==> window == []
  {
    if window == [] {
      assert window + chunk == chunk;
    } else {
      assert |ShownNow(window, chunk)| < |window + chunk|;
    }
  }

  // ----- runs, with every byte named by its place in the stream

  ghost predicate Consecutive(bytes: seq<nat>, first: nat) {
    forall i :: 0 <= i < |bytes| ==> bytes[i] == first + i
  }

  ghost predicate Numbered(turns: seq<Turn<nat>>) { Consecutive(Stream(turns), 0) }

  /** The bytes that the decoder was shown so far. */
  ghost function Shown(size: nat, turns: seq<Turn<nat>>): set<nat>
    requires After(size, turns).Some?
  {
    if turns == [] then {} else
      var front, turn := turns[..|turns| - 1], turns[|turns| - 1];
      Shown(size, front) + set x <- ShownNow(After(size, front).value, turn.chunk)
  }

  /** Every byte that has left the buffer, used or given up, was shown before. */
  ghost predicate NoneGoneUnseen(size: nat, turns: seq<Turn<nat>>)
    requires After(size, turns).Some?
  {
    forall p :: 0 <= p < |Stream(turns)| && p !in After(size, turns).value ==> p in Shown(size, turns)
  }

  // ----- the same by counting

  /** Of `n` buffered bytes, a turn leaves those from here ... */
  function From(size: nat, n: nat, decoded: nat): nat {
    var used := if decoded >= n then n else decoded;
    if n - used >= size then used + size / 2 else used
  }

  /** ... to here. */
  function To(size: nat, n: nat, decoded: nat): nat {
    var used := if decoded >= n then n else decoded;
    if n - used >= size then used + size / 2 + size / 2 else n
  }

  lemma StepIsSlice<T>(size: nat, window: seq<T>, turn: Turn<T>)
    requires Step(size, window, turn).Some?
    ensures var all := window + turn.chunk;
      && From(size, |all|, turn.decoded) <= To(size, |all|, turn.decoded) <= |all|
      && Step(size, window, turn).value == all[From(size, |all|, turn.decoded)..To(size, |all|, turn.decoded)]
  {
  }

  function Larger(a: nat, b: nat): nat { if a < b then b else a }

  /** How many bytes at the front of the buffer have been shown. */
  function Seen<T>(size: nat, turns: seq<Turn<T>>): nat
    requires After(size, turns).Some?
  {
    if turns == [] then 0 else
      var front, turn := turns[..|turns| - 1], turns[|turns| - 1];
      var n := |After(size, front).value| + |turn.chunk|;
      SeenAfter(Larger(Seen(size, front), |turn.chunk|), From(size, n, turn.decoded), To(size, n, turn.decoded))
  }

  /** Of the bytes between two places, how many are among the first `seen`. */
  function SeenAfter(seen: nat, from: nat, to: nat): nat {
    if seen <= from || to <= from then 0 else if seen >= to then to - from else seen - from
  }

  /** The turn takes no byte out of the buffer that has not been shown. */
  predicate Careful<T>(size: nat, front: seq<Turn<T>>, turn: Turn<T>)
    requires After(size, front).Some?
  {
    var n, seen := |After(size, front).value| + |turn.chunk|, Larger(Seen(size, front), |turn.chunk|);
    From(size, n, turn.decoded) <= seen && (To(size, n, turn.decoded) < n ==> n <= seen)
  }

  predicate AlwaysCareful<T>(size: nat, turns: seq<Turn<T>>)
    requires After(size, turns).Some?
  {
    turns == [] || (
      var front, turn := turns[..|turns| - 1], turns[|turns| - 1];
      AlwaysCareful(size, front) && Careful(size, front, turn))
  }

  // ----- the two agree

  ghost predicate Rising(w: seq<nat>) { forall i, j :: 0 <= i < j < |w| ==> w[i] < w[j] }

  /** The bytes are in order of arrival, the first `seen` of them were shown and no other. */
  ghost predicate SeenInFront(w: seq<nat>, seen: nat, shown: set<nat>) {
    Rising(w) && forall i :: 0 <= i < |w| ==> (w[i] in shown <==> i < seen)
  }

  lemma ConsecutiveParts(a: seq<nat>, b: seq<nat>)
    requires Consecutive(a + b, 0)
    ensures Consecutive(a, 0) && Consecutive(b, |a|)
  {
    forall i | 0 <= i < |a| ensures a[i] == i {
      assert (a + b)[i] == a[i];
    }
    forall i | 0 <= i < |b| ensures b[i] == |a| + i {
      assert (a + b)[|a| + i] == b[i];
    }
  }

  ghost predicate Below(bytes: seq<nat>, n: nat) { forall i :: 0 <= i < |bytes| ==> bytes[i] < n }

  ghost predicate AllBelow(bytes: set<nat>, n: nat) { forall p <- bytes :: p < n }

  lemma RisingOn(w: seq<nat>, chunk: seq<nat>, n: nat)
    requires Rising(w) && Below(w, n) && Consecutive(chunk, n)
    ensures Rising(w + chunk) && Below(w + chunk, n + |chunk|)
  {
    var all := w + chunk;
    forall i, j | 0 <= i < j < |all| ensures all[i] < all[j] {
      assert all[i] == if i < |w| then w[i] else chunk[i - |w|];
      assert all[j] == if j < |w| then w[j] else chunk[j - |w|];
    }
    forall i | 0 <= i < |all| ensures all[i] < n + |chunk| {
      assert all[i] == if i < |w| then w[i] else chunk[i - |w|];
    }
  }

  /** All that is buffered during a turn, before anything is taken out. */
  lemma ShowsFront(w: seq<nat>, chunk: seq<nat>, seen: nat, shown: set<nat>, n: nat)
    requires SeenInFront(w, seen, shown) && seen <= |w|
    requires Below(w, n) && AllBelow(shown, n) && Consecutive(chunk, n)
    ensures SeenInFront(w + chunk, Larger(seen, |chunk|), shown + set x <- ShownNow(w, chunk))
    ensures Below(w + chunk, n + |chunk|) && AllBelow(shown + (set x <- ShownNow(w, chunk)), n + |chunk|)
  {
    var all, now := w + chunk, ShownNow(w, chunk);
    RisingOn(w, chunk, n);
    forall i | 0 <= i < |all|
      ensures all[i] in shown + (set x <- now) <==> i < Larger(seen, |chunk|)
    {
      InFront(all, |chunk|, i);
      assert all[i] == if i < |w| then w[i] else chunk[i - |w|];
    }
  }

  lemma InFront(all: seq<nat>, k: nat, i: nat)
    requires Rising(all) && k <= |all| && i < |all|
    ensures all[i] in all[..k] <==> i < k
  {
    if i < k {
      assert all[..k][i] == all[i];
    }
    forall j | 0 <= j < k ensures all[..k][j] == all[j] && (all[j] == all[i] ==> j == i) {
    }
  }

  lemma SliceSeen(all: seq<nat>, seen: nat, shown: set<nat>, from: nat, to: nat, n: nat)
    requires SeenInFront(all, seen, shown) && Below(all, n) && from <= to <= |all|
    ensures SeenInFront(all[from..to], SeenAfter(seen, from, to), shown) && Below(all[from..to], n)
    ensures SeenAfter(seen, from, to) <= to - from
  {
    var w := all[from..to];
    forall i | 0 <= i < |w| ensures w[i] in shown <==> i < SeenAfter(seen, from, to) {
      assert w[i] == all[from + i];
    }
  }

  ghost predicate KeepsOrder(size: nat, turns: seq<Turn<nat>>)
    requires After(size, turns).Some?
  {
    var w, n := After(size, turns).value, |Stream(turns)|;
    && SeenInFront(w, Seen(size, turns), Shown(size, turns)) && Seen(size, turns) <= |w|
    && Below(w, n) && AllBelow(Shown(size, turns), n)
  }

  /** What a run keeps: the window is in order of arrival, and its first bytes were shown. */
  lemma {:induction false} WindowSeen(size: nat, turns: seq<Turn<nat>>)
    requires After(size, turns).Some? && Numbered(turns)
    ensures KeepsOrder(size, turns)
  {
    if turns != [] {
      var front, turn := turns[..|turns| - 1], turns[|turns| - 1];
      ConsecutiveParts(Stream(front), turn.chunk);
      WindowSeen(size, front);
      TurnSeen(size, front, turn, turns);
    }
  }

  /** What one more turn adds to a run. */
  lemma OneTurn(size: nat, front: seq<Turn<nat>>, turn: Turn<nat>, turns: seq<Turn<nat>>)
    requires turns != [] && front == turns[..|turns| - 1] && turn == turns[|turns| - 1]
    requires After(size, turns).Some?
    ensures After(size, front).Some?
    ensures var all := After(size, front).value + turn.chunk;
      var from, to := From(size, |all|, turn.decoded), To(size, |all|, turn.decoded);
      && from <= to <= |all| && After(size, turns).value == all[from..to]
      && Seen(size, turns) == SeenAfter(Larger(Seen(size, front), |turn.chunk|), from, to)
      && Shown(size, turns) == Shown(size, front) + (set x <- ShownNow(After(size, front).value, turn.chunk))
      && Stream(turns) == Stream(front) + turn.chunk
  {
    StepIsSlice(size, After(size, front).value, turn);
  }

  lemma TurnSeen(size: nat, front: seq<Turn<nat>>, turn: Turn<nat>, turns: seq<Turn<nat>>)
    requires turns != [] && front == turns[..|turns| - 1] && turn == turns[|turns| - 1]
    requires After(size, turns).Some? && KeepsOrder(size, front) && Consecutive(turn.chunk, |Stream(front)|)
    ensures KeepsOrder(size, turns)
  {
    OneTurn(size, front, turn, turns);
    var all := After(size, front).value + turn.chunk;
    ShowsFront(After(size, front).value, turn.chunk, Seen(size, front), Shown(size, front), |Stream(front)|);
    SliceSeen(all, Larger(Seen(size, front), |turn.chunk|), Shown(size, turns),
              From(size, |all|, turn.decoded), To(size, |all|, turn.decoded), |Stream(turns)|);
  }

  /** What a slice leaves out was all shown exactly when the slice begins within what was
      shown and leaves nothing out behind unless everything was shown. */
  lemma LeftOutSeen(all: seq<nat>, seen: nat, shown: set<nat>, from: nat, to: nat)
    requires SeenInFront(all, seen, shown) && seen <= |all| && from <= to <= |all|
    ensures (forall p <- all :: p !in all[from..to] ==> p in shown) <==> from <= seen && (to < |all| ==> |all| <= seen)
  {
    if from <= seen && (to < |all| ==> |all| <= seen) {
      forall i | from <= i < to ensures all[i] in all[from..to] {
        assert all[from..to][i - from] == all[i];
      }
      forall p | p in all && p !in all[from..to] ensures p in shown {
        var i :| 0 <= i < |all| && all[i] == p;
      }
    }
    if from > seen {
      NotInSlice(all, seen, from, to);
    }
    if to < |all| && seen < |all| {
      NotInSlice(all, |all| - 1, from, to);
    }
  }

  lemma NotInSlice(all: seq<nat>, i: nat, from: nat, to: nat)
    requires Rising(all) && i < |all| && from <= to <= |all| && (i < from || to <= i)
    ensures all[i] in all && all[i] !in all[from..to]
  {
    var w := all[from..to];
    forall j | 0 <= j < |w| ensures w[j] != all[i] {
      assert w[j] == all[from + j];
    }
  }

  /** Over any run, every byte that has left the buffer was shown to the decoder before
      exactly when every turn was careful: it took out no more than had been shown. */
  lemma {:induction false} NoneGoneUnseenExactly(size: nat, turns: seq<Turn<nat>>)
    requires After(size, turns).Some? && Numbered(turns)
    ensures NoneGoneUnseen(size, turns) <==> AlwaysCareful(size, turns)
  {
    if turns != [] {
      var front, turn := turns[..|turns| - 1], turns[|turns| - 1];
      ConsecutiveParts(Stream(front), turn.chunk);
      NoneGoneUnseenExactly(size, front);
      GoneInTurn(size, front, turn, turns);
    }
  }

  lemma GoneInTurn(size: nat, front: seq<Turn<nat>>, turn: Turn<nat>, turns: seq<Turn<nat>>)
    requires turns != [] && front == turns[..|turns| - 1] && turn == turns[|turns| - 1]
    requires After(size, turns).Some? && Numbered(turns) && Numbered(front)
    ensures NoneGoneUnseen(size, turns) <==> NoneGoneUnseen(size, front) && Careful(size, front, turn)
  {
    OneTurn(size, front, turn, turns);
    ConsecutiveParts(Stream(front), turn.chunk);
    WindowSeen(size, front);
    var w, seen, shown := After(size, front).value, Seen(size, front), Shown(size, front);
    var all := w + turn.chunk;
    ShowsFront(w, turn.chunk, seen, shown, |Stream(front)|);
    var from, to := From(size, |all|, turn.decoded), To(size, |all|, turn.decoded);
    LeftOutSeen(all, Larger(seen, |turn.chunk|), Shown(size, turns), from, to);
    GoneBefore(w, turn.chunk, shown, |Stream(front)|, from, to);
  }

  /** What has gone after a turn had gone before it or was buffered during it and left out. */
  lemma GoneBefore(w: seq<nat>, chunk: seq<nat>, shown: set<nat>, n: nat, from: nat, to: nat)
    requires Below(w, n) && Consecutive(chunk, n) && from <= to <= |w + chunk|
    ensures var all, now := w + chunk, shown + set x <- ShownNow(w, chunk);
      (forall p :: 0 <= p < n + |chunk| && p !in all[from..to] ==> p in now)
      <==> (forall p :: 0 <= p < n && p !in w ==> p in shown) && (forall p <- all :: p !in all[from..to] ==> p in now)
  {
    var all, now := w + chunk, shown + set x <- ShownNow(w, chunk);
    assert forall p <- w :: p < n;
    assert forall p <- chunk :: n <= p < n + |chunk|;
    forall p | n <= p < n + |chunk| ensures p in all {
      assert chunk[p - n] == p;
    }
    forall p | 0 <= p < n && p !in w ensures p !in all && (p in now <==> p in shown) {
    }
  }

  /** A buffer of four bytes and a decoder that uses nothing: of the chunks 0 1 2, 3, 4 and 5,
      byte 3 is given up and was never shown. */
  lemma FourthByteUnseen() returns (turns: seq<Turn<nat>>)
    ensures turns == [Turn([0, 1, 2], 0), Turn([3], 0), Turn([4], 0), Turn([5], 0)]
    ensures After(4, turns) == Some([4, 5]) && Numbered(turns) && |Stream(turns)| == 6
    ensures 3 !in Shown(4, turns) && !NoneGoneUnseen(4, turns)
  {
    turns := FirstFour();
    turns := OneMore(turns, [2, 3], [4], [2, 3, 4], [2], [2, 3, 4]);
    turns := OneMore(turns, [2, 3, 4], [5], [2, 3, 4, 5], [2], [4, 5]);
    assert 3 !in After(4, turns).value;
  }

  lemma FirstFour() returns (turns: seq<Turn<nat>>)
    ensures turns == [Turn([0, 1, 2], 0), Turn([3], 0)]
    ensures Unseen3(turns, [2, 3]) && |Stream(turns)| == 4
  {
    turns := OneMore([], [], [0, 1, 2], [0, 1, 2], [0, 1, 2], [0, 1, 2]);
    turns := OneMore(turns, [0, 1, 2], [3], [0, 1, 2, 3], [0], [2, 3]);
  }

  ghost predicate Unseen3(turns: seq<Turn<nat>>, window: seq<nat>) {
    After(4, turns) == Some(window) && 3 !in Shown(4, turns) && Numbered(turns)
  }

  lemma OneMore(turns: seq<Turn<nat>>, window: seq<nat>, chunk: seq<nat>,
                all: seq<nat>, now: seq<nat>, window': seq<nat>)
    returns (more: seq<Turn<nat>>)
    requires Unseen3(turns, window) && Consecutive(chunk, |Stream(turns)|)
    requires window + chunk == all && 0 < |chunk| && |all| <= 4 && all[..|chunk|] == now && 3 !in now
    requires window' == if |all| == 4 then all[2..] else all
    ensures more == turns + [Turn(chunk, 0)]
    ensures Unseen3(more, window') && |Stream(more)| == |Stream(turns)| + |chunk|
  {
    var turn := Turn(chunk, 0);
    more := turns + [turn];
    assert more[..|turns|] == turns;
    UsesNothing(window, chunk, all, window');
    assert After(4, more) == Some(window');
    assert Shown(4, more) == Shown(4, turns) + set x <- now;
    assert Stream(more) == Stream(turns) + chunk;
  }

  lemma UsesNothing(window: seq<nat>, chunk: seq<nat>, all: seq<nat>, window': seq<nat>)
    requires window + chunk == all && 0 < |chunk| && |all| <= 4
    requires window' == if |all| == 4 then all[2..] else all
    ensures Step(4, window, Turn(chunk, 0)) == Some(window')
  {
    assert DropUsed(all, 0) == all;
    assert |all| == 4 ==> all[2..4] == all[2..];
  }
}
