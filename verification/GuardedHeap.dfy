/** The debug heap of Heap.c: every block has its own pages, words around it that writes
    past its ends would break, and a place in the list of all blocks. */
module GuardedHeap {
  import opened Basics
  import opened PageLayout
  import opened PageList

  /** What a release comes to; all but the first end the program. */
  datatype Ending = Freed | NullPointer | NotRegistered | BrokenFront | BrokenTail | Unmapped

  /** The pointer is to one of the blocks. */
  ghost predicate Registered(p: PageSize, live: seq<Block>, user: Word) {
    exists b :: b in live && user == UserBlock(p, b.page)
  }

  /** What the words around a released block say. */
  ghost function Judged(p: PageSize, m: Memory, b: Block): (r: Ending)
    requires Mapped(m, b.page, b.page + Extent(p, b)) && p + 36 <= Extent(p, b)
    ensures !r.NullPointer? && !r.NotRegistered?
  {
    var tail := TailCheckOf(UserBlock(p, b.page), WordAt(m, b.page + p + 24));
    if WordAt(m, b.page + p + 28) != PAGE_CHKS then BrokenFront
    else if !Mapped(m, tail, tail + 4) then Unmapped
    else if WordAt(m, tail) != PAGE_CHKS then BrokenTail
    else Freed
  }

  /** For a block whose size is as it was set: the end names the first canary that is broken,
      and the block is freed exactly if none is. */
  ghost predicate TellsDamage(p: PageSize, m: Memory, b: Block, end: Ending) {
    SizeIntact(p, m, b) ==>
      && (end.Freed? <==> FrontIntact(p, m, b) && TailIntact(p, m, b))
      && (end.BrokenFront? <==> !FrontIntact(p, m, b))
      && (end.BrokenTail? <==> FrontIntact(p, m, b) && !TailIntact(p, m, b))
  }

  class Heap {
    const pagesize: PageSize
    var head: Word
    var memory: Memory
    /** The blocks that were handed out and not released, in the order they were handed out. */
    ghost var live: seq<Block>
    /** All blocks that were ever handed out, and those that were taken out again. */
    ghost var made: seq<Block>
    ghost var released: multiset<Block>

    ghost predicate Valid()
      reads this
    {
      head == PageAt(live, 0) && Listed(pagesize, memory, live)
    }

    /** The canaries and sizes of all blocks are as they were set. */
    ghost predicate Intact()
      reads this
    {
      AllGuarded(pagesize, memory, live)
    }

    /** The live blocks are the made ones less the released ones, in the order made. */
    ghost predicate Accounted()
      reads this
    {
      Remaining(live, made, released)
    }

    constructor (pagesize: PageSize, memory: Memory)
      ensures Valid() && Intact() && Accounted() && live == [] && this.pagesize == pagesize
    {
      this.pagesize, this.memory := pagesize, memory;
      head, live, made, released := 0, [], [], multiset{};
    }

    method StoreWord(a: nat, w: Word)
      requires Mapped(memory, a, a + 4)
      modifies this`memory
      ensures WordSet(old(memory), memory, a, w)
    {
      PutTouches(memory, a, w);
      memory := Put(memory, a, w);
    }

    /** How many pages a block of this size takes. */
    method RequirePages(size: nat) returns (n: nat)
      requires Required(size) + pagesize <= TWO_32
      ensures n == Pages(pagesize, size)
    {
      var required := Required(size);
      var writable := 1;
      while required > writable * pagesize % TWO_32
        invariant writable >= 1 && (writable - 1) * pagesize < required
        decreases required - (writable - 1) * pagesize
      {
        Times(writable, pagesize);
        writable := writable + 1;
      }
      Times(writable, pagesize);
      n := 1 + writable;
      PagesLeast(pagesize, size, n);
      PagesLeast(pagesize, size, writable);
    }

    /** Makes a block on the pages at `at`, which memalign returned; 0 if it had none.  The
        pages are beside those of all other blocks.  `trace` are the callers' addresses. */
    method Generate(size: Word, at: Word, trace: seq<Word>) returns (page: Word)
      requires Valid() && |trace| <= 5
      requires size > 0 ==> Required(size) + 2 * pagesize <= TWO_32
      requires size > 0 && at > 0 ==> Placed(pagesize, Block(at, size)) && Beside(pagesize, live, Block(at, size))
      modifies this`head, this`memory, this`live
      ensures Valid()
      ensures page == if size == 0 then 0 else at
      ensures page == 0 ==> live == old(live) && memory == old(memory) && head == old(head)
      ensures page != 0 ==>
        && live == old(live) + [Block(page, size)]
        && Handed(pagesize, old(memory), memory, old(live), Block(page, size))
        && Traced(memory, page + pagesize, trace)
      ensures old(Intact()) ==> Intact()
    {
      if size == 0 {
        return 0;
      }
      var pages := RequirePages(size);
      if at == 0 {
        return 0;
      }
      MakeBlock(at, size, pages, trace);
      return at;
    }

    method MakeBlock(at: Word, size: Word, pages: nat, trace: seq<Word>)
      requires Valid() && |trace| <= 5 && pages == Pages(pagesize, size)
      requires Placed(pagesize, Block(at, size)) && Beside(pagesize, live, Block(at, size))
      modifies this`head, this`memory, this`live
      ensures Valid() && live == old(live) + [Block(at, size)] && (old(Intact()) ==> Intact())
      ensures Handed(pagesize, old(memory), memory, old(live), Block(at, size))
      ensures Traced(memory, at + pagesize, trace)
    {
      ghost var made := Install(at, size, pages, trace);
      HandedOver(pagesize, old(memory), made, memory, old(live), Block(at, size), 0);
    }

    /** Fills the pages and puts the block into the list; `made` is memory in between. */
    method Install(at: Word, size: Word, pages: nat, trace: seq<Word>) returns (ghost made: Memory)
      requires Valid() && |trace| <= 5 && pages == Pages(pagesize, size)
      requires Placed(pagesize, Block(at, size)) && Beside(pagesize, live, Block(at, size))
      modifies this`head, this`memory, this`live
      ensures Valid() && live == old(live) + [Block(at, size)] && (old(Intact()) ==> Intact())
      ensures Made(pagesize, old(memory), made, Block(at, size)) && Kept(pagesize, old(memory), made, old(live))
      ensures Kept(pagesize, made, memory, live) && Leads(pagesize, memory, Block(at, size), 0)
      ensures Traced(memory, at + pagesize, trace)
    {
      ghost var b := Block(at, size);
      FillBlock(at, size, pages, trace);
      made := memory;
      OthersStay(pagesize, old(memory), made, live, NextPages(live), b);
      LinkPage(at, b);
      TraceKept(pagesize, made, memory, live, b, trace);
    }

    /** Makes a block and gives the user's pointer to it. */
    method Allocate(size: Word, at: Word, trace: seq<Word>) returns (user: Word)
      requires Valid() && |trace| <= 5
      requires size > 0 ==> Required(size) + 2 * pagesize <= TWO_32
      requires size > 0 && at > 0 ==> Placed(pagesize, Block(at, size)) && Beside(pagesize, live, Block(at, size))
      modifies this`head, this`memory, this`live, this`made
      ensures Valid() && (old(Intact()) ==> Intact()) && (old(Accounted()) ==> Accounted())
      ensures if size == 0 || at == 0 then
          user == 0 && live == old(live) && memory == old(memory) && made == old(made)
        else
        && live == old(live) + [Block(at, size)] && made == old(made) + [Block(at, size)]
        && PageOf(pagesize, user) == at
        && Handed(pagesize, old(memory), memory, old(live), Block(at, size))
        && Traced(memory, at + pagesize, trace)
    {
      var page := Generate(size, at, trace);
      if page != 0 {
        NoteMade(old(live), Block(page, size));
      }
      user := if page != 0 then UserBlock(pagesize, page) else 0;
      PageOfExactly(pagesize, page, user);
    }

    ghost method NoteMade(was: seq<Block>, b: Block)
      requires live == was + [b]
      modifies this`made
      ensures made == old(made) + [b] && (Remaining(was, old(made), released) ==> Accounted())
    {
      if Remaining(was, made, released) {
        RemainingAfterMake(was, made, released, b);
      }
      made := made + [b];
    }

    ghost method NoteReleased(was: seq<Block>, i: nat)
      requires i < |was| && live == Without(was, i)
      modifies this`released
      ensures released == old(released) + multiset{was[i]} && (Remaining(was, made, old(released)) ==> Accounted())
    {
      if Remaining(was, made, released) {
        RemainingAfterRelease(was, made, released, i);
      }
      released := released + multiset{was[i]};
    }

    /** A user's write to the writable pages of a block.  Inside the block it breaks no canary. */
    method Write(a: nat, v: Octet, ghost k: nat)
      requires Valid() && k < |live|
      requires live[k].page + pagesize <= a < live[k].page + Extent(pagesize, live[k])
      modifies this`memory
      ensures Valid() && memory == old(memory)[a := v]
      ensures var user := UserBlock(pagesize, live[k].page);
        old(Intact()) && user <= a < user + live[k].size ==> Intact()
    {
      assert LinkedAt(pagesize, memory, live, NextPages(live), k);
      Layout(pagesize, live[k]);
      WrittenTo(pagesize, memory, live, k, a, v);
      memory := memory[a := v];
    }

    /** Releases the block that the pointer is to.  `i` is its place in the list. */
    method Remove(user: Word) returns (outcome: Ending, ghost i: nat)
      requires Valid()
      modifies this`head, this`memory, this`live, this`released
      ensures Valid() && (old(Accounted()) ==> Accounted())
      ensures outcome.NullPointer? <==> user == 0
      ensures outcome.NotRegistered? <==> user != 0 && !Registered(pagesize, old(live), user)
      ensures outcome.NullPointer? || outcome.NotRegistered? ==>
        live == old(live) && memory == old(memory) && head == old(head) && released == old(released)
      ensures !outcome.NullPointer? && !outcome.NotRegistered? ==>
        && i < |old(live)| && user == UserBlock(pagesize, old(live)[i].page)
        && live == Without(old(live), i) && released == old(released) + multiset{old(live)[i]}
        && Kept(pagesize, old(memory), memory, old(live))
        && Mapped(memory, old(live)[i].page, old(live)[i].page + Extent(pagesize, old(live)[i]))
        && pagesize + 36 <= Extent(pagesize, old(live)[i])
        && outcome == Judged(pagesize, memory, old(live)[i])
        && TellsDamage(pagesize, old(memory), old(live)[i], outcome)
      ensures old(Intact()) ==>
        Intact() && (outcome.NullPointer? || outcome.NotRegistered? || outcome.Freed?)
    {
      i := 0;
      if user == 0 {
        return NullPointer, i;
      }
      var found;
      found, i := UnlinkPage(user);
      if !found {
        return NotRegistered, i;
      }
      outcome := Verdict(user, old(live), i, old(memory));
    }

    /** Judges a block that has just left the list. */
    method Verdict(user: Word, ghost was: seq<Block>, ghost i: nat, ghost before: Memory) returns (outcome: Ending)
      requires Kept(pagesize, before, memory, was)
      requires i < |was| && live == Without(was, i) && Linking(pagesize, memory, was, Bypassing(was, i))
      requires user == UserBlock(pagesize, was[i].page)
      modifies this`released
      ensures released == old(released) + multiset{was[i]} && (Remaining(was, made, old(released)) ==> Accounted())
      ensures Mapped(memory, was[i].page, was[i].page + Extent(pagesize, was[i]))
      ensures pagesize + 36 <= Extent(pagesize, was[i]) && outcome == Judged(pagesize, memory, was[i])
      ensures TellsDamage(pagesize, before, was[i], outcome)
      ensures Guarded(pagesize, memory, was[i]) ==> outcome.Freed?
    {
      NoteReleased(was, i);
      assert LinkedAt(pagesize, memory, was, Bypassing(was, i), i);
      outcome := Judge(user, was[i]);
      DamageTold(pagesize, memory, was[i]);
      assert was[i] in was;
      DamageAsBefore(pagesize, before, memory, was[i], outcome);
      if Guarded(pagesize, memory, was[i]) {
        FreedIfGuarded(pagesize, memory, was[i]);
      }
    }

    /** Looks at the canaries of a block. */
    method Judge(user: Word, ghost b: Block) returns (outcome: Ending)
      requires Placed(pagesize, b) && user == UserBlock(pagesize, b.page) && pagesize + 36 <= Extent(pagesize, b)
      requires Mapped(memory, b.page, b.page + Extent(pagesize, b))
      ensures outcome == Judged(pagesize, memory, b)
    {
      var front := FrontWord(user, b);
      if front != PAGE_CHKS {
        return BrokenFront;
      }
      var size := SizeWord(user, b);
      var tail: nat := TailCheckOf(user, size);
      if !(tail in memory && tail + 1 in memory && tail + 2 in memory && tail + 3 in memory) {
        return Unmapped;
      }
      outcome := if WordAt(memory, tail) != PAGE_CHKS then BrokenTail else Freed;
    }

    method FrontWord(user: Word, ghost b: Block) returns (w: Word)
      requires Placed(pagesize, b) && user == UserBlock(pagesize, b.page) && pagesize + 36 <= Extent(pagesize, b)
      requires Mapped(memory, b.page, b.page + Extent(pagesize, b))
      ensures w == WordAt(memory, b.page + pagesize + 28)
    {
      Words(pagesize, memory, b, user);
      w := WordAt(memory, FrontCheckOf(user));
    }

    method SizeWord(user: Word, ghost b: Block) returns (w: Word)
      requires Placed(pagesize, b) && user == UserBlock(pagesize, b.page) && pagesize + 36 <= Extent(pagesize, b)
      requires Mapped(memory, b.page, b.page + Extent(pagesize, b))
      ensures w == WordAt(memory, b.page + pagesize + 24)
    {
      Words(pagesize, memory, b, user);
      w := WordAt(memory, SizeAddressOf(user));
    }

    /** Takes out of the list the block whose pointer this is. */
    method UnlinkPage(user: Word) returns (found: bool, ghost i: nat)
      requires Valid()
      modifies this`head, this`memory, this`live
      ensures Valid()
      ensures found <==> Registered(pagesize, old(live), user)
      ensures !found ==> live == old(live) && memory == old(memory) && head == old(head)
      ensures found ==>
        && i < |old(live)| && user == UserBlock(pagesize, old(live)[i].page)
        && live == Without(old(live), i) && Kept(pagesize, old(memory), memory, old(live))
        && Linking(pagesize, memory, old(live), Bypassing(old(live), i))
        && (old(Intact()) ==> Intact() && Guarded(pagesize, memory, old(live)[i]))
    {
      ghost var nexts := NextPages(live);
      i := 0;
      var current, previous := head, 0;
      while current != 0
        invariant Valid() && memory == old(memory) && live == old(live) && head == old(head)
        invariant i <= |live| && current == PageAt(live, i) && previous == PageAt(live, i - 1)
        invariant forall j :: 0 <= j < i ==> user != UserBlock(pagesize, live[j].page)
        decreases |live| - i
      {
        assert LinkedAt(pagesize, memory, live, nexts, i);
        var next := Next(current, live[i], nexts[i]);
        PageOfExactly(pagesize, current, user);
        if current == PageOf(pagesize, user) {
          Detach(previous, next, i);
          GuardedWithout(pagesize, memory, old(live), i);
          return true, i;
        }
        previous := current;
        current := next;
        i := i + 1;
      }
      assert i < |live| ==> LinkedAt(pagesize, memory, live, nexts, i);
      return false, i;
    }

    /** Makes what led to a block lead past it. */
    method Detach(previous: Word, next: Word, ghost i: nat)
      requires Valid() && i < |live| && previous == PageAt(live, i - 1) && next == NextPages(live)[i]
      modifies this`head, this`memory, this`live
      ensures Valid() && live == Without(old(live), i) && Kept(pagesize, old(memory), memory, old(live))
      ensures Linking(pagesize, memory, old(live), Bypassing(old(live), i))
      ensures old(Intact()) ==> AllGuarded(pagesize, memory, old(live))
    {
      ghost var blocks := live;
      Before(pagesize, memory, live, i);
      if previous == 0 {
        head := next;
        KeptByNothing(pagesize, memory, live);
      } else {
        Relink(previous, next, blocks, NextPages(blocks), i - 1);
      }
      TakenOut(pagesize, memory, blocks, i);
      live := Without(blocks, i);
    }

    /** Makes one block of a list lead elsewhere. */
    method Relink(page: Word, next: Word, ghost blocks: seq<Block>, ghost nexts: seq<Word>, ghost k: nat)
      requires Apart(pagesize, blocks) && Linking(pagesize, memory, blocks, nexts)
      requires k < |blocks| && page == blocks[k].page
      modifies this`memory
      ensures Linking(pagesize, memory, blocks, nexts[k := next]) && Kept(pagesize, old(memory), memory, blocks)
      ensures AllGuarded(pagesize, old(memory), blocks) ==> AllGuarded(pagesize, memory, blocks)
    {
      assert LinkedAt(pagesize, memory, blocks, nexts, k);
      SetNext(page, next, blocks[k], nexts[k]);
      Relinked(pagesize, old(memory), memory, blocks, nexts, k, next);
    }

    /** Clears the pages and sets the words around the block. */
    method FillBlock(page: Word, size: Word, pages: nat, trace: seq<Word>)
      requires Placed(pagesize, Block(page, size)) && pages == Pages(pagesize, size) && |trace| <= 5
      modifies this`memory
      ensures Made(pagesize, old(memory), memory, Block(page, size))
      ensures Traced(memory, page + pagesize, trace)
    {
      ghost var b, was := Block(page, size), memory;
      Layout(pagesize, b);
      ClearPages(page, pages * pagesize);
      ghost var cleared := memory;
      ghost var front := FillAround(page, size, trace);
      BlockMade(pagesize, b, was, cleared, front, memory);
    }

    /** Sets the words around a block; `front` is memory before the last one. */
    method FillAround(page: Word, size: Word, trace: seq<Word>) returns (ghost front: Memory)
      requires Placed(pagesize, Block(page, size)) && |trace| <= 5
      requires Mapped(memory, page, page + Extent(pagesize, Block(page, size)))
      modifies this`memory
      ensures Prefixed(old(memory), front, page + pagesize, size)
      ensures WordSet(front, memory, page + pagesize + 32 + size, PAGE_CHKS)
      ensures Traced(memory, page + pagesize, trace)
    {
      ghost var b := Block(page, size);
      Layout(pagesize, b);
      FillPrefix(page, size, trace);
      front := memory;
      StaysMapped(old(memory), front, page + pagesize, page + pagesize + 32, page, page + Extent(pagesize, b));
      StoreWord(TailCheck(pagesize, page, size), PAGE_CHKS);
      TailBehind(pagesize, b, front, memory, trace);
    }

    method ClearPages(page: Word, n: nat)
      modifies this`memory
      ensures Touched(old(memory), memory, page, page + n) && Zero(memory, page, page + n)
      ensures Mapped(memory, page, page + n)
    {
      memory := memory + Blank(page, n);
    }

    method FillPrefix(page: Word, size: Word, trace: seq<Word>)
      requires Placed(pagesize, Block(page, size)) && |trace| <= 5
      requires Mapped(memory, page + pagesize, page + pagesize + 32)
      modifies this`memory
      ensures Prefixed(old(memory), memory, page + pagesize, size) && Traced(memory, page + pagesize, trace)
    {
      ghost var m0, a := memory, page + pagesize;
      Layout(pagesize, Block(page, size));
      FillTrace(page, trace, a);
      ghost var m2 := memory;
      StaysMapped(m0, m2, a, a + 24, a, a + 32);
      ghost var m3 := FillSize(page, size, a);
      PrefixWords(a, m0, m2, m3, memory, size);
      TracedBefore(m2, m3, memory, a, trace, size);
    }

    method FillSize(page: Word, size: Word, ghost a: nat) returns (ghost m: Memory)
      requires Mapped(memory, a, a + 32)
      requires a + 24 == SizeAddress(pagesize, page) && a + 28 == FrontCheck(pagesize, page)
      modifies this`memory
      ensures WordSet(old(memory), m, a + 24, size) && WordSet(m, memory, a + 28, PAGE_CHKS)
    {
      StoreWord(SizeAddress(pagesize, page), size);
      m := memory;
      StaysMapped(old(memory), m, a + 24, a + 28, a, a + 32);
      StoreWord(FrontCheck(pagesize, page), PAGE_CHKS);
    }

    method FillTrace(page: Word, trace: seq<Word>, ghost a: nat)
      requires |trace| <= 5 && Mapped(memory, a, a + 32)
      requires a == BacktraceCount(pagesize, page) && a + 4 == Backtrace(pagesize, page)
      modifies this`memory
      ensures Touched(old(memory), memory, a, a + 24) && Traced(memory, a, trace)
    {
      StoreWord(BacktraceCount(pagesize, page), |trace|);
      StaysMapped(old(memory), memory, a, a + 4, a, a + 32);
      assert WordsAre(memory, a, WithCount(trace), 0);
      assert Touched(old(memory), memory, a, a + 24);
      StoreTrace(Backtrace(pagesize, page), trace, old(memory), a);
    }

    /** Stores the addresses behind their number. */
    method StoreTrace(from: nat, trace: seq<Word>, ghost before: Memory, ghost a: nat)
      requires |trace| <= 5 && from == a + 4 && Mapped(memory, a, a + 24)
      requires Touched(before, memory, a, a + 24) && WordsAre(memory, a, WithCount(trace), 1)
      modifies this`memory
      ensures Touched(before, memory, a, a + 24) && Traced(memory, a, trace)
    {
      var i := 0;
      while i < |trace|
        invariant i <= |trace| && Mapped(memory, a, a + 24) && Touched(before, memory, a, a + 24)
        invariant WordsAre(memory, a, WithCount(trace), i + 1)
      {
        ghost var m := memory;
        StoreWord(from + 4 * i, trace[i]);
        OneMoreWord(before, m, memory, a, trace, i);
        i := i + 1;
      }
    }

    /** The page that a page's link leads to. */
    method Next(page: Word, ghost b: Block, ghost next: Word) returns (r: Word)
      requires page == b.page && Leads(pagesize, memory, b, next)
      ensures r == next
    {
      LinkAt(pagesize, memory, b, next);
      r := WordAt(memory, NextAddress(pagesize, page));
    }

    method SetNext(page: Word, next: Word, ghost b: Block, ghost was: Word)
      requires page == b.page && Leads(pagesize, memory, b, was)
      modifies this`memory
      ensures WordSet(old(memory), memory, page + pagesize - 4, next)
    {
      LinkAt(pagesize, memory, b, was);
      StoreWord(NextAddress(pagesize, page), next);
    }

    /** Puts a block that leads nowhere behind the last one of the list. */
    method LinkPage(page: Word, ghost b: Block)
      requires head == PageAt(live, 0) && Apart(pagesize, live) && Beside(pagesize, live, b) && page == b.page
      requires Linking(pagesize, memory, live + [b], NextPages(live) + [0])
      modifies this`head, this`memory, this`live
      ensures Valid() && live == old(live) + [b]
      ensures Kept(pagesize, old(memory), memory, live) && Leads(pagesize, memory, b, 0)
      ensures AllGuarded(pagesize, old(memory), live) ==> AllGuarded(pagesize, memory, live)
    {
      ghost var blocks, nexts, k := live + [b], NextPages(live) + [0], |live| - 1;
      assert live != [] ==> LinkedAt(pagesize, memory, blocks, nexts, 0);
      BesideApart(pagesize, live, b);
      if head == 0 {
        KeptByNothing(pagesize, memory, blocks);
        head := page;
      } else {
        var last := Last(b);
        LeadsOn(pagesize, memory, live, b, k);
        Relink(last, page, blocks, nexts, k);
        assert nexts[k := page] == Extending(live, b);
      }
      Appended(pagesize, memory, live, b);
      live := blocks;
    }

    /** The page of the last block in the list. */
    method Last(ghost b: Block) returns (current: Word)
      requires live != [] && head == live[0].page
      requires Linking(pagesize, memory, live + [b], NextPages(live) + [0])
      ensures current == live[|live| - 1].page
    {
      ghost var blocks, nexts, k := live + [b], NextPages(live) + [0], 0;
      current := head;
      LeadsOn(pagesize, memory, live, b, k);
      var next := Next(current, blocks[k], nexts[k]);
      while next != 0
        invariant k < |live| && current == blocks[k].page && next == nexts[k]
        invariant next == 0 <==> k == |live| - 1
        invariant k < |live| - 1 ==> next == blocks[k + 1].page
        decreases |live| - k
      {
        k := k + 1;
        current := next;
        LeadsOn(pagesize, memory, live, b, k);
        next := Next(current, blocks[k], nexts[k]);
      }
    }
  }

  lemma OneMoreWord(before: Memory, m: Memory, m': Memory, a: nat, trace: seq<Word>, i: nat)
    requires i < |trace| <= 5 && Mapped(m, a, a + 24) && Touched(before, m, a, a + 24)
    requires WordsAre(m, a, WithCount(trace), i + 1) && WordSet(m, m', a + 4 + 4 * i, trace[i])
    ensures Mapped(m', a, a + 24) && Touched(before, m', a, a + 24) && WordsAre(m', a, WithCount(trace), i + 2)
  {
    var at := a + 4 + 4 * i;
    StaysMapped(m, m', at, at + 4, a, a + 24);
    TouchedTwice(before, m, m', a, a + 24, at, at + 4);
    WordsStill(m, m', at, at + 4, a, WithCount(trace), i + 1);
  }

  lemma TraceKept(p: PageSize, m: Memory, m': Memory, live: seq<Block>, b: Block, trace: seq<Word>)
    requires |trace| <= 5 && Traced(m, b.page + p, trace) && Kept(p, m, m', live)
    requires b in live && p + 36 <= Extent(p, b)
    ensures Traced(m', b.page + p, trace)
  {
    WordsSame(m, m', b.page + p, WithCount(trace), |trace| + 1);
  }

  lemma TailBehind(p: PageSize, b: Block, front: Memory, all: Memory, trace: seq<Word>)
    requires |trace| <= 5 && Traced(front, b.page + p, trace)
    requires WordSet(front, all, b.page + p + 32 + b.size, PAGE_CHKS)
    ensures Traced(all, b.page + p, trace)
  {
    var tail := b.page + p + 32 + b.size;
    WordsStill(front, all, tail, tail + 4, b.page + p, WithCount(trace), |trace| + 1);
  }

  lemma TracedBefore(m: Memory, m': Memory, m'': Memory, a: nat, trace: seq<Word>, size: Word)
    requires |trace| <= 5 && Traced(m, a, trace)
    requires WordSet(m, m', a + 24, size) && WordSet(m', m'', a + 28, PAGE_CHKS)
    ensures Traced(m'', a, trace)
  {
    WordsStill(m, m', a + 24, a + 28, a, WithCount(trace), |trace| + 1);
    WordsStill(m', m'', a + 28, a + 32, a, WithCount(trace), |trace| + 1);
  }

  lemma Words(p: PageSize, m: Memory, b: Block, user: Word)
    requires Placed(p, b) && user == UserBlock(p, b.page) && p + 36 <= Extent(p, b)
    requires Mapped(m, b.page, b.page + Extent(p, b))
    ensures FrontCheckOf(user) == b.page + p + 28 && SizeAddressOf(user) == b.page + p + 24
    ensures Mapped(m, b.page + p + 24, b.page + p + 32)
  {
    Layout(p, b);
    WaysBack(p, b.page, 0);
  }

  lemma DamageTold(p: PageSize, m: Memory, b: Block)
    requires Placed(p, b) && Mapped(m, b.page, b.page + Extent(p, b)) && p + 36 <= Extent(p, b)
    ensures TellsDamage(p, m, b, Judged(p, m, b))
  {
    if SizeIntact(p, m, b) {
      Layout(p, b);
      WaysBack(p, b.page, b.size);
      var tail := b.page + p + 32 + b.size;
      assert Mapped(m, tail, tail + 4);
    }
  }

  /** What is told of the words around a block is told of what they were before the list was
      changed. */
  lemma DamageAsBefore(p: PageSize, m: Memory, m': Memory, b: Block, end: Ending)
    requires Same(m, m', b.page + p, b.page + Extent(p, b))
    requires Mapped(m', b.page, b.page + Extent(p, b)) && TellsDamage(p, m', b, end)
    ensures TellsDamage(p, m, b, end)
  {
    if SizeIntact(p, m, b) {
      var size, front, tail := b.page + p + 24, b.page + p + 28, b.page + p + 32 + b.size;
      SameWord(m, m', size);
      SameWord(m, m', front);
      SameWord(m, m', tail);
    }
  }

  lemma SameWord(m: Memory, m': Memory, a: nat)
    requires Same(m, m', a, a + 4) && Mapped(m, a, a + 4)
    ensures Mapped(m', a, a + 4) && WordAt(m', a) == WordAt(m, a)
  {
    assert a in m && a + 1 in m && a + 2 in m && a + 3 in m;
  }

  /** Changing one byte of a canary of a guarded block is found, whichever byte it is. */
  lemma DamageFound(p: PageSize, m: Memory, b: Block, a: nat, v: Octet)
    requires Guarded(p, m, b) && a in m && v != m[a]
    requires Mapped(m[a := v], b.page, b.page + Extent(p, b)) && p + 36 <= Extent(p, b)
    ensures b.page + p + 28 <= a < b.page + p + 32 ==> Judged(p, m[a := v], b) == BrokenFront
    ensures b.page + p + 32 + b.size <= a < b.page + p + 36 + b.size ==> Judged(p, m[a := v], b) == BrokenTail
  {
    if b.page + p + 28 <= a < b.page + p + 32 {
      SizeStays(p, m, b, a, v);
      FrontBreaks(p, m, b, a, v);
    }
    if b.page + p + 32 + b.size <= a < b.page + p + 36 + b.size {
      SizeStays(p, m, b, a, v);
      FrontStays(p, m, b, a, v);
      TailBreaks(p, m, b, a, v);
    }
    DamageTold(p, m[a := v], b);
  }

  lemma FreedIfGuarded(p: PageSize, m: Memory, b: Block)
    requires Guarded(p, m, b)
    ensures Judged(p, m, b) == Freed
  {
    Layout(p, b);
    WaysBack(p, b.page, b.size);
    var tail := b.page + p + 32 + b.size;
    assert Mapped(m, tail, tail + 4);
  }

  lemma Times(n: nat, p: nat)
    ensures n * p == (n - 1) * p + p
  {
  }
}
