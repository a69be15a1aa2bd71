/** The message server's receive buffer in NetGroup.c: bytes arrive behind the cursor, the
    decoder consumes from the front, and a buffer that is full gives up its older half. */
module ReceiveWindow {
  import opened Basics

  /** One turn of the server: the bytes that arrived, and how many the decoder says it used. */
  datatype Turn<T> = Turn(chunk: seq<T>, decoded: nat)

  /** The buffered bytes after one turn; none when the server stops. */
  function Step<T>(size: nat, window: seq<T>, turn: Turn<T>): Option<seq<T>> {
    if |turn.chunk| == 0 || |window| + |turn.chunk| > size then None else
      Some(MakeRoom(size, DropUsed(window + turn.chunk, turn.decoded)))
  }

  /** A full buffer is left with the half that follows its older half. */
  function MakeRoom<T>(size: nat, unread: seq<T>): seq<T> {
    if |unread| >= size then unread[size / 2..size / 2 + size / 2] else unread
  }

  function DropUsed<T>(bytes: seq<T>, decoded: nat): seq<T> {
    bytes[if decoded >= |bytes| then |bytes| else decoded..]
  }

  /** The buffered bytes after these turns. */
  function After<T>(size: nat, turns: seq<Turn<T>>): Option<seq<T>> {
    if turns == [] then Some([]) else
      var k := |turns| - 1;
      match After(size, turns[..k])
      case None => None
      case Some(window) => Step(size, window, turns[k])
  }

  /** Everything that arrived. */
  function Stream<T>(turns: seq<Turn<T>>): seq<T> {
    if turns == [] then [] else Stream(turns[..|turns| - 1]) + turns[|turns| - 1].chunk
  }

  ghost predicate IsSuffix<T>(bytes: seq<T>, of: seq<T>) {
    |bytes| <= |of| && bytes == of[|of| - |bytes|..]
  }

  // ----- the buffer in memory

  class Server {
    var pbuffer: array<byte>
    var cursor: nat

    ghost predicate Valid()
      reads this
    {
      cursor < pbuffer.Length
    }

    ghost function Window(): seq<byte>
      reads this, pbuffer
      requires Valid()
    {
      pbuffer[..cursor]
    }

    constructor (size: nat)
      requires size > 0
      ensures Valid() && Window() == [] && pbuffer.Length == size && fresh(pbuffer)
    {
      pbuffer := new byte[size];
      cursor := 0;
    }

    /** Takes in what was received, at most what fits behind the cursor.  The decoder is
        given the front of the buffer, as many bytes as have just arrived. */
    method Receive(chunk: seq<byte>, decoder: seq<byte> -> nat) returns (goesOn: bool)
      requires Valid()
      modifies this`cursor, pbuffer
      ensures Valid()
      ensures var all := old(Window()) + chunk;
        var next := Step(pbuffer.Length, old(Window()), Turn(chunk, decoder(all[..|chunk|])));
        goesOn == next.Some? && Window() == if goesOn then next.value else old(Window())
      ensures goesOn <==> 0 < |chunk| <= pbuffer.Length - old(cursor)
    {
      var size := pbuffer.Length;
      var nread := |chunk|;
      if nread == 0 || nread > size - cursor {
        return false;
      }
      TakeIn(chunk);
      ghost var all := pbuffer[..cursor];
      SliceOfFront(pbuffer[..], all, 0, nread);
      var used := decoder(pbuffer[..nread]);
      Discard(used);
      GiveUpHalf();
      return true;
    }

    /** Puts what was received behind the cursor. */
    method TakeIn(chunk: seq<byte>)
      requires Valid() && cursor + |chunk| <= pbuffer.Length
      modifies this`cursor, pbuffer
      ensures cursor == old(cursor) + |chunk| && pbuffer[..cursor] == old(Window()) + chunk
    {
      Store(pbuffer, cursor, chunk);
      cursor := cursor + |chunk|;
    }

    /** Drops what the decoder used. */
    method Discard(decoded: nat)
      requires cursor <= pbuffer.Length
      modifies this`cursor, pbuffer
      ensures cursor <= pbuffer.Length && pbuffer[..cursor] == DropUsed(old(pbuffer[..cursor]), decoded)
    {
      if decoded != 0 {
        var used := if decoded >= cursor then cursor else decoded;
        SliceOfFront(pbuffer[..], pbuffer[..cursor], used, cursor);
        if cursor - used > 0 {
          MoveDown(pbuffer, used, cursor - used);
        }
        cursor := cursor - used;
      }
    }

    /** Makes room in a full buffer. */
    method GiveUpHalf()
      requires cursor <= pbuffer.Length && pbuffer.Length > 0
      modifies this`cursor, pbuffer
      ensures Valid() && Window() == MakeRoom(pbuffer.Length, old(pbuffer[..cursor]))
    {
      var size := pbuffer.Length;
      if cursor >= size {
        SliceOfFront(pbuffer[..], pbuffer[..cursor], size / 2, size / 2 + size / 2);
        MoveDown(pbuffer, size / 2, size / 2);
        cursor := size / 2;
      }
    }
  }

  lemma SliceOfFront<T>(whole: seq<T>, front: seq<T>, from: nat, to: nat)
    requires |front| <= |whole| && whole[..|front|] == front && from <= to <= |front|
    ensures whole[from..to] == front[from..to]
    ensures front[from..|front|] == front[from..]
  {
    forall i | 0 <= i < to - from ensures whole[from..to][i] == front[from..to][i] {
      assert whole[..|front|][from + i] == front[from + i];
    }
  }

  method Store<T>(a: array<T>, at: nat, chunk: seq<T>)
    requires at + |chunk| <= a.Length
    modifies a
    ensures a[..at + |chunk|] == old(a[..at]) + chunk
  {
    forall i | 0 <= i < |chunk| {
      a[at + i] := chunk[i];
    }
  }

  /** The copy towards the front, right even where the two ranges overlap. */
  method MoveDown<T>(a: array<T>, from: nat, n: nat)
    requires from + n <= a.Length
    modifies a
    ensures a[..n] == old(a[..])[from..from + n]
  {
    forall i | 0 <= i < n {
      a[i] := a[from + i];
    }
  }

  // ----- what a run keeps

  /** A turn brings something, and no more than fits behind what is buffered then. */
  predicate BringsWhatFits<T>(size: nat, turns: seq<Turn<T>>, k: nat)
    requires k < |turns|
  {
    && After(size, turns[..k]).Some?
    && 0 < |turns[k].chunk| <= size - |After(size, turns[..k]).value|
  }

  /** The server goes on exactly as long as every turn brings something that fits behind what
      is buffered, whatever the decoder uses. */
  lemma {:induction false} GoesOnExactly<T>(size: nat, turns: seq<Turn<T>>)
    ensures After(size, turns).Some? <==>
      forall k :: 0 <= k < |turns| ==> BringsWhatFits(size, turns, k)
  {
    if turns != [] {
      var k := |turns| - 1;
      var front := turns[..k];
      GoesOnExactly(size, front);
      forall i | 0 <= i < k ensures BringsWhatFits(size, turns, i) == BringsWhatFits(size, front, i) {
        assert front[..i] == turns[..i] && front[i] == turns[i];
      }
      assert After(size, turns).Some? <==> After(size, front).Some? && BringsWhatFits(size, turns, k);
    }
  }

  /** After a turn, the unused bytes are buffered, in a buffer that they do not fill. */
  lemma KeepsUnused<T>(size: nat, window: seq<T>, turn: Turn<T>)
    requires 0 < |turn.chunk| <= size - |window|
    ensures var all := window + turn.chunk;
      && Step(size, window, turn).Some?
      && (turn.decoded < |all| && |all| - turn.decoded < size ==> Step(size, window, turn).value == all[turn.decoded..])
      && (turn.decoded >= |all| ==> Step(size, window, turn).value == [])
      && (turn.decoded == 0 && |all| == size ==> Step(size, window, turn).value == all[size / 2..size / 2 + size / 2])
  {
    assert (window + turn.chunk)[0..] == window + turn.chunk;
  }

  lemma {:induction false} StaysInside<T>(size: nat, turns: seq<Turn<T>>)
    requires size > 0 && After(size, turns).Some?
    ensures |After(size, turns).value| < size
  {
    if turns != [] {
      StaysInside(size, turns[..|turns| - 1]);
    }
  }

  /** What arrived, without the bytes that an odd buffer loses: the last byte of each full one. */
  function Kept<T>(size: nat, turns: seq<Turn<T>>): seq<T>
    requires After(size, turns).Some?
  {
    if turns == [] then [] else
      var front, turn := turns[..|turns| - 1], turns[|turns| - 1];
      var unread := DropUsed(After(size, front).value + turn.chunk, turn.decoded);
      LessLost(size, unread, Kept(size, front) + turn.chunk)
  }

  /** An odd buffer that is full loses its last byte. */
  function LessLost<T>(size: nat, unread: seq<T>, kept: seq<T>): seq<T> {
    if |unread| >= size && size % 2 == 1 && kept != [] then kept[..|kept| - 1] else kept
  }

  /** The turn leaves a full buffer, whose older half is given up. */
  predicate Fills<T>(size: nat, turns: seq<Turn<T>>, turn: Turn<T>)
    requires After(size, turns).Some?
  {
    |DropUsed(After(size, turns).value + turn.chunk, turn.decoded)| >= size
  }

  lemma SuffixGrows<T>(bytes: seq<T>, of: seq<T>, more: seq<T>)
    requires IsSuffix(bytes, of)
    ensures IsSuffix(bytes + more, of + more)
  {
    assert (of + more)[|of| - |bytes|..] == of[|of| - |bytes|..] + more;
  }

  lemma SuffixTail<T>(bytes: seq<T>, of: seq<T>, n: nat)
    requires IsSuffix(bytes, of) && n <= |bytes|
    ensures IsSuffix(bytes[n..], of)
  {
  }

  lemma SuffixCut<T>(bytes: seq<T>, of: seq<T>)
    requires IsSuffix(bytes, of) && bytes != []
    ensures IsSuffix(bytes[..|bytes| - 1], of[..|of| - 1])
  {
  }

  /** For every size, the buffered bytes are a suffix of what was kept. */
  lemma {:induction false} WindowIsSuffixOfKept<T>(size: nat, turns: seq<Turn<T>>)
    requires After(size, turns).Some?
    ensures IsSuffix(After(size, turns).value, Kept(size, turns))
  {
    if turns != [] {
      var front, turn := turns[..|turns| - 1], turns[|turns| - 1];
      WindowIsSuffixOfKept(size, front);
      var window, kept := After(size, front).value, Kept(size, front);
      SuffixGrows(window, kept, turn.chunk);
      SuffixAfterTurn(size, window + turn.chunk, kept + turn.chunk, turn.decoded);
      assert After(size, turns) == Step(size, window, turn);
      assert Kept(size, turns) == LessLost(size, DropUsed(window + turn.chunk, turn.decoded), kept + turn.chunk);
    }
  }

  lemma SuffixAfterTurn<T>(size: nat, all: seq<T>, kept: seq<T>, decoded: nat)
    requires IsSuffix(all, kept) && |all| <= size
    ensures var unread := DropUsed(all, decoded);
      IsSuffix(MakeRoom(size, unread), LessLost(size, unread, kept))
  {
    SuffixTail(all, kept, if decoded >= |all| then |all| else decoded);
    SuffixAfterShift(size, DropUsed(all, decoded), kept);
  }

  lemma SuffixAfterShift<T>(size: nat, unread: seq<T>, kept: seq<T>)
    requires IsSuffix(unread, kept) && |unread| <= size
    ensures IsSuffix(MakeRoom(size, unread), LessLost(size, unread, kept))
  {
    if |unread| == size {
      if size % 2 == 0 {
        ShiftEven(unread, kept, size / 2);
      } else {
        ShiftOdd(unread, kept, size / 2);
      }
    }
  }

  lemma ShiftEven<T>(unread: seq<T>, kept: seq<T>, half: nat)
    requires IsSuffix(unread, kept) && |unread| == half + half
    ensures IsSuffix(unread[half..half + half], kept)
  {
    SuffixTail(unread, kept, half);
    assert unread[half..half + half] == unread[half..];
  }

  lemma ShiftOdd<T>(unread: seq<T>, kept: seq<T>, half: nat)
    requires IsSuffix(unread, kept) && |unread| == half + half + 1
    ensures kept != [] && IsSuffix(unread[half..half + half], kept[..|kept| - 1])
  {
    SuffixCut(unread, kept);
    ShiftEven(unread[..half + half], kept[..|kept| - 1], half);
    assert unread[half..half + half] == unread[..half + half][half..half + half];
  }

  /** Nothing but what the decoder used, older halves, and what an odd buffer loses is gone. */
  function Used<T>(size: nat, turns: seq<Turn<T>>): nat
    requires After(size, turns).Some?
  {
    if turns == [] then 0 else
      var front, turn := turns[..|turns| - 1], turns[|turns| - 1];
      var n := |After(size, front).value + turn.chunk|;
      Used(size, front) + if turn.decoded >= n then n else turn.decoded
  }

  function GivenUp<T>(size: nat, turns: seq<Turn<T>>): nat
    requires After(size, turns).Some?
  {
    if turns == [] then 0 else
      var front, turn := turns[..|turns| - 1], turns[|turns| - 1];
      GivenUp(size, front) + if Fills(size, front, turn) then size - size / 2 else 0
  }

  lemma {:induction false} EveryByteAccountedFor<T>(size: nat, turns: seq<Turn<T>>)
    requires After(size, turns).Some?
    ensures |Stream(turns)| == |After(size, turns).value| + Used(size, turns) + GivenUp(size, turns)
    ensures size % 2 == 0 ==> Kept(size, turns) == Stream(turns)
  {
    if turns != [] {
      EveryByteAccountedFor(size, turns[..|turns| - 1]);
    }
  }

  /** Whether, whatever arrives and whatever the decoder uses, the buffered bytes are the
      latest of the stream. */
  ghost predicate AlwaysLatest(size: nat) {
    forall turns: seq<Turn<byte>> :: After(size, turns).Some? ==> IsSuffix(After(size, turns).value, Stream(turns))
  }

  /** That is so exactly for the even sizes and for size one. */
  lemma LatestExactlyForEvenSizes(size: nat)
    requires size > 0
    ensures AlwaysLatest(size) <==> size % 2 == 0 || size == 1
  {
    if size % 2 == 0 || size == 1 {
      forall turns: seq<Turn<byte>> | After(size, turns).Some?
        ensures IsSuffix(After(size, turns).value, Stream(turns))
      {
        WindowIsSuffixOfKept(size, turns);
        EveryByteAccountedFor(size, turns);
        StaysInside(size, turns);
      }
    } else {
      var turns := LastByteLost<byte>(size, 0, 1);
    }
  }

  /** A buffer of odd size filled at once, by equal bytes and a last one that differs, keeps
      only equal bytes. */
  lemma LastByteLost<T>(size: nat, usual: T, last: T) returns (turns: seq<Turn<T>>)
    requires size % 2 == 1 && size >= 3 && usual != last
    ensures After(size, turns).Some? && !IsSuffix(After(size, turns).value, Stream(turns))
  {
    var chunk := seq(size - 1, i => usual) + [last];
    turns := [Turn(chunk, 0)];
    FilledAtOnce(size, chunk);
    var h := size / 2;
    var window := chunk[h..h + h];
    assert window[h - 1] == chunk[h + h - 1] == usual;
    assert chunk[size - h..][h - 1] == chunk[size - 1] == last;
  }

  lemma FilledAtOnce<T>(size: nat, chunk: seq<T>)
    requires |chunk| == size > 0
    ensures After(size, [Turn(chunk, 0)]) == Some(chunk[size / 2..size / 2 + size / 2])
    ensures Stream([Turn(chunk, 0)]) == chunk
  {
    var turns := [Turn(chunk, 0)];
    assert turns[..0] == [] && After(size, turns[..0]) == Some([]) && Stream(turns[..0]) == [];
    assert [] + chunk == chunk && chunk[0..] == chunk;
  }
}
