/** The blocks that the debug heap of Heap.c has handed out, and what memory holds for them. */
module PageList {
  import opened Basics
  import opened PageLayout

  datatype Block = Block(page: Word, size: Word)

  function Extent(p: PageSize, b: Block): nat { Pages(p, b.size) * p }

  ghost predicate Placed(p: PageSize, b: Block) {
    b.page > 0 && b.size > 0 && b.page + Extent(p, b) <= TWO_32
  }

  /** Where the block's words are: nothing wraps round, and the canary behind is on the pages. */
  lemma Layout(p: PageSize, b: Block)
    requires Placed(p, b)
    ensures NextAddress(p, b.page) == b.page + p - 4
    ensures BacktraceCount(p, b.page) == b.page + p && Backtrace(p, b.page) == b.page + p + 4
    ensures SizeAddress(p, b.page) == b.page + p + 24 && FrontCheck(p, b.page) == b.page + p + 28
    ensures UserBlock(p, b.page) == b.page + p + 32
    ensures TailCheck(p, b.page, b.size) == b.page + p + 32 + b.size
    ensures p + 36 + b.size <= Extent(p, b)
  {
    PagesLeast(p, b.size, Pages(p, b.size));
    WordsInFront(p, b.page);
    PlainOffset(UserBlock(p, b.page), b.size);
  }

  lemma WordsInFront(p: PageSize, page: Word)
    requires page + p + 32 < TWO_32
    ensures NextAddress(p, page) == page + p - 4
    ensures BacktraceCount(p, page) == page + p && Backtrace(p, page) == page + p + 4
    ensures SizeAddress(p, page) == page + p + 24 && FrontCheck(p, page) == page + p + 28
    ensures UserBlock(p, page) == page + p + 32
  {
    FromPage(p, page);
    PlainOffset(page, p - 4);
    PlainOffset(page, p);
    PlainOffset(page, p + 4);
    PlainOffset(page, p + 24);
    PlainOffset(page, p + 28);
    PlainOffset(page, p + 32);
  }

  ghost predicate Disjoint(p: PageSize, b: Block, c: Block) {
    b.page + Extent(p, b) <= c.page || c.page + Extent(p, c) <= b.page
  }

  /** The page of the block at an index; null outside the list. */
  function PageAt(live: seq<Block>, i: int): Word {
    if 0 <= i < |live| then live[i].page else 0
  }

  /** The pages of a block are mapped, and its link leads to the given page. */
  ghost predicate Leads(p: PageSize, m: Memory, b: Block, next: Word) {
    && Placed(p, b) && Mapped(m, b.page, b.page + Extent(p, b))
    && p + 36 <= Extent(p, b)
    && WordAt(m, b.page + p - 4) == next
  }

  lemma LinkAt(p: PageSize, m: Memory, b: Block, next: Word)
    requires Leads(p, m, b, next)
    ensures var a := NextAddress(p, b.page);
      && a == b.page + p - 4 && Mapped(m, a, a + 4)
      && a in m && a + 1 in m && a + 2 in m && a + 3 in m && WordAt(m, a) == next
  {
    NoWrap(p, b.page);
  }

  lemma NoWrap(p: PageSize, page: Word)
    requires page + p <= TWO_32
    ensures NextAddress(p, page) == page + p - 4
  {
    FromPage(p, page);
    PlainOffset(page, p - 4);
  }

  /** The words around a block are mapped, and its size is as it was set. */
  ghost predicate SizeIntact(p: PageSize, m: Memory, b: Block) {
    && Placed(p, b) && Mapped(m, b.page, b.page + Extent(p, b))
    && p + 36 + b.size <= Extent(p, b)
    && WordAt(m, b.page + p + 24) == b.size
  }

  /** The canary right in front of the user's bytes is as it was set. */
  ghost predicate FrontIntact(p: PageSize, m: Memory, b: Block)
    requires SizeIntact(p, m, b)
  {
    WordAt(m, b.page + p + 28) == PAGE_CHKS
  }

  /** The canary right behind them is. */
  ghost predicate TailIntact(p: PageSize, m: Memory, b: Block)
    requires SizeIntact(p, m, b)
  {
    WordAt(m, b.page + p + 32 + b.size) == PAGE_CHKS
  }

  /** The size and the two canaries of a block are as they were set. */
  ghost predicate Guarded(p: PageSize, m: Memory, b: Block) {
    SizeIntact(p, m, b) && FrontIntact(p, m, b) && TailIntact(p, m, b)
  }

  /** A word differs when one of its bytes does. */
  lemma ByteCounts(m: Memory, at: nat, a: nat, v: Octet)
    requires Mapped(m, at, at + 4) && at <= a < at + 4
    requires at in m && at + 1 in m && at + 2 in m && at + 3 in m && v != m[a]
    ensures WordAt(m[a := v], at) != WordAt(m, at)
  {
  }

  lemma ByteElsewhere(m: Memory, at: nat, a: nat, v: Octet)
    requires Mapped(m, at, at + 4) && (a < at || at + 4 <= a)
    ensures Mapped(m[a := v], at, at + 4) && WordAt(m[a := v], at) == WordAt(m, at)
  {
    assert at in m && at + 1 in m && at + 2 in m && at + 3 in m;
  }

  lemma SizeStays(p: PageSize, m: Memory, b: Block, a: nat, v: Octet)
    requires SizeIntact(p, m, b) && a in m && b.page + p + 28 <= a
    ensures SizeIntact(p, m[a := v], b)
  {
    ByteElsewhere(m, b.page + p + 24, a, v);
  }

  lemma FrontStays(p: PageSize, m: Memory, b: Block, a: nat, v: Octet)
    requires SizeIntact(p, m, b) && SizeIntact(p, m[a := v], b) && b.page + p + 32 <= a
    ensures FrontIntact(p, m[a := v], b) == FrontIntact(p, m, b)
  {
    ByteElsewhere(m, b.page + p + 28, a, v);
  }

  lemma FrontBreaks(p: PageSize, m: Memory, b: Block, a: nat, v: Octet)
    requires SizeIntact(p, m, b) && SizeIntact(p, m[a := v], b) && FrontIntact(p, m, b)
    requires a in m && v != m[a] && b.page + p + 28 <= a < b.page + p + 32
    ensures !FrontIntact(p, m[a := v], b)
  {
    ByteCounts(m, b.page + p + 28, a, v);
  }

  lemma TailBreaks(p: PageSize, m: Memory, b: Block, a: nat, v: Octet)
    requires SizeIntact(p, m, b) && SizeIntact(p, m[a := v], b) && TailIntact(p, m, b)
    requires a in m && v != m[a] && b.page + p + 32 + b.size <= a < b.page + p + 36 + b.size
    ensures !TailIntact(p, m[a := v], b)
  {
    ByteCounts(m, b.page + p + 32 + b.size, a, v);
  }

  ghost predicate LinkedAt(p: PageSize, m: Memory, blocks: seq<Block>, nexts: seq<Word>, i: nat)
    requires i < |blocks| == |nexts|
  {
    Leads(p, m, blocks[i], nexts[i])
  }

  ghost predicate Linking(p: PageSize, m: Memory, blocks: seq<Block>, nexts: seq<Word>) {
    |nexts| == |blocks| && forall i :: 0 <= i < |blocks| ==> LinkedAt(p, m, blocks, nexts, i)
  }

  function NextPages(live: seq<Block>): seq<Word> {
    seq(|live|, i requires 0 <= i => PageAt(live, i + 1))
  }

  ghost predicate Apart(p: PageSize, live: seq<Block>) {
    forall i, j :: 0 <= i < j < |live| ==> Disjoint(p, live[i], live[j])
  }

  ghost predicate Listed(p: PageSize, m: Memory, live: seq<Block>) {
    Apart(p, live) && Linking(p, m, live, NextPages(live))
  }

  ghost predicate AllGuarded(p: PageSize, m: Memory, live: seq<Block>) {
    forall b <- live :: Guarded(p, m, b)
  }

  /** Memory is the same between two addresses. */
  ghost predicate Same(m: Memory, m': Memory, from: int, to: int) {
    forall a :: from <= a < to ==> (a in m <==> a in m') && (a in m ==> m[a] == m'[a])
  }

  // ----- a new block

  /** Memory differs at most between two addresses, where it may have become mapped. */
  ghost predicate Touched(m: Memory, m': Memory, from: nat, to: nat) {
    && (forall a <- m :: a in m' && (from <= a < to || m'[a] == m[a]))
    && (forall a <- m' :: a in m || from <= a < to)
  }

  /** A word was set in memory. */
  ghost predicate WordSet(m: Memory, m': Memory, a: nat, w: Word) {
    Touched(m, m', a, a + 4) && Mapped(m', a, a + 4) && WordAt(m', a) == w
  }

  lemma PutTouches(m: Memory, a: nat, w: Word)
    ensures WordSet(m, Put(m, a, w), a, w)
  {
    PutThenRead(m, a, w);
  }

  lemma TouchedTwice(m: Memory, m': Memory, m'': Memory, from: nat, to: nat, from': nat, to': nat)
    requires Touched(m, m', from, to) && Touched(m', m'', from', to')
    ensures Touched(m, m'', if from < from' then from else from', if to < to' then to' else to)
  {
  }

  lemma WordStays(m: Memory, m': Memory, from: nat, to: nat, a: nat)
    requires Touched(m, m', from, to) && Mapped(m, a, a + 4) && (a + 4 <= from || to <= a)
    ensures Mapped(m', a, a + 4) && WordAt(m', a) == WordAt(m, a)
  {
    assert a in m && a + 1 in m && a + 2 in m && a + 3 in m;
  }

  lemma StaysMapped(m: Memory, m': Memory, from: nat, to: nat, low: nat, high: nat)
    requires Touched(m, m', from, to) && Mapped(m, low, high)
    ensures Mapped(m', low, high)
  {
  }

  ghost predicate WordIs(m: Memory, a: nat, w: Word) { Mapped(m, a, a + 4) && WordAt(m, a) == w }

  /** The first words of the list are at the address and behind it. */
  ghost predicate WordsAre(m: Memory, a: nat, ws: seq<Word>, n: nat)
    requires n <= |ws|
  {
    n == 0 || (WordsAre(m, a, ws, n - 1) && WordIs(m, a + 4 * (n - 1), ws[n - 1]))
  }

  /** The number of the callers' addresses, and then these addresses. */
  function WithCount(trace: seq<Word>): seq<Word>
    requires |trace| <= 5
  {
    [|trace|] + trace
  }

  ghost predicate Traced(m: Memory, a: nat, trace: seq<Word>)
    requires |trace| <= 5
  {
    WordsAre(m, a, WithCount(trace), |trace| + 1)
  }

  lemma {:induction false} WordsStill(m: Memory, m': Memory, from: nat, to: nat, a: nat, ws: seq<Word>, n: nat)
    requires n <= |ws| && Touched(m, m', from, to) && WordsAre(m, a, ws, n) && (a + 4 * n <= from || to <= a)
    ensures WordsAre(m', a, ws, n)
  {
    if n > 0 {
      WordsStill(m, m', from, to, a, ws, n - 1);
      WordStays(m, m', from, to, a + 4 * (n - 1));
    }
  }

  lemma {:induction false} WordsSame(m: Memory, m': Memory, a: nat, ws: seq<Word>, n: nat)
    requires n <= |ws| && Same(m, m', a, a + 4 * n) && WordsAre(m, a, ws, n)
    ensures WordsAre(m', a, ws, n)
  {
    if n > 0 {
      WordsSame(m, m', a, ws, n - 1);
      SameWordIs(m, m', a + 4 * (n - 1), ws[n - 1]);
    }
  }

  lemma SameWordIs(m: Memory, m': Memory, a: nat, w: Word)
    requires Same(m, m', a, a + 4) && WordIs(m, a, w)
    ensures WordIs(m', a, w)
  {
    assert a in m && a + 1 in m && a + 2 in m && a + 3 in m;
  }

  /** The words in front of a block are set; `a` is the address of the first. */
  ghost predicate Prefixed(m: Memory, m': Memory, a: nat, size: Word) {
    && Touched(m, m', a, a + 32) && Mapped(m', a + 24, a + 32)
    && WordAt(m', a + 24) == size && WordAt(m', a + 28) == PAGE_CHKS
  }

  lemma PrefixWords(a: nat, m: Memory, m2: Memory, m3: Memory, m4: Memory, size: Word)
    requires Touched(m, m2, a, a + 24)
    requires WordSet(m2, m3, a + 24, size) && WordSet(m3, m4, a + 28, PAGE_CHKS)
    ensures Prefixed(m, m4, a, size)
  {
    TouchedTwice(m, m2, m3, a, a + 24, a + 24, a + 28);
    WordStays(m3, m4, a + 28, a + 32, a + 24);
    TouchedTwice(m, m3, m4, a, a + 28, a + 28, a + 32);
  }

  ghost predicate Zero(m: Memory, from: nat, to: nat) {
    forall a :: from <= a < to ==> a in m && m[a] == 0
  }

  /** A block was made where `m` may have held anything: it leads nowhere, is guarded and is
      zero for its user, and nothing else has changed. */
  ghost predicate Made(p: PageSize, m: Memory, m': Memory, b: Block) {
    && Leads(p, m', b, 0) && Guarded(p, m', b) && Zero(m', b.page + p + 32, b.page + p + 32 + b.size)
    && Touched(m, m', b.page, b.page + Extent(p, b))
  }

  ghost predicate Cleared(p: PageSize, m: Memory, m': Memory, b: Block) {
    && Touched(m, m', b.page, b.page + Extent(p, b))
    && Zero(m', b.page, b.page + Extent(p, b))
  }

  lemma BlockMade(p: PageSize, b: Block, m: Memory, cleared: Memory, front: Memory, all: Memory)
    requires Placed(p, b) && Cleared(p, m, cleared, b)
    requires Prefixed(cleared, front, b.page + p, b.size)
    requires WordSet(front, all, b.page + p + 32 + b.size, PAGE_CHKS)
    ensures Made(p, m, all, b)
  {
    Layout(p, b);
    BlockMapped(p, b, m, cleared, front, all);
    BlockGuarded(p, b, cleared, front, all);
    ZeroKept(cleared, front, all, b.page, b.page + p, b.page + p + 32 + b.size, b.page + Extent(p, b));
    ZeroWord(all, b.page + p - 4);
  }

  lemma BlockGuarded(p: PageSize, b: Block, cleared: Memory, front: Memory, all: Memory)
    requires Placed(p, b) && p + 36 + b.size <= Extent(p, b) && Mapped(all, b.page, b.page + Extent(p, b))
    requires Prefixed(cleared, front, b.page + p, b.size)
    requires WordSet(front, all, b.page + p + 32 + b.size, PAGE_CHKS)
    ensures Guarded(p, all, b)
  {
    var prefix, tail := b.page + p, b.page + p + 32 + b.size;
    WordStays(front, all, tail, tail + 4, prefix + 24);
    WordStays(front, all, tail, tail + 4, prefix + 28);
  }

  lemma ZeroKept(cleared: Memory, front: Memory, all: Memory, start: nat, prefix: nat, tail: nat, end: nat)
    requires start + 4 <= prefix && prefix + 32 <= tail <= end && Zero(cleared, start, end)
    requires Touched(cleared, front, prefix, prefix + 32) && Touched(front, all, tail, tail + 4)
    ensures Zero(all, prefix - 4, prefix) && Zero(all, prefix + 32, tail)
  {
    ZeroStays(cleared, front, prefix, prefix + 32, prefix - 4, prefix);
    ZeroStays(front, all, tail, tail + 4, prefix - 4, prefix);
    ZeroStays(cleared, front, prefix, prefix + 32, prefix + 32, tail);
    ZeroStays(front, all, tail, tail + 4, prefix + 32, tail);
  }

  lemma BlockMapped(p: PageSize, b: Block, m: Memory, cleared: Memory, front: Memory, all: Memory)
    requires Placed(p, b) && Cleared(p, m, cleared, b) && p + 36 + b.size <= Extent(p, b)
    requires Touched(cleared, front, b.page + p, b.page + p + 32)
    requires Touched(front, all, b.page + p + 32 + b.size, b.page + p + 36 + b.size)
    ensures Mapped(all, b.page, b.page + Extent(p, b)) && Touched(m, all, b.page, b.page + Extent(p, b))
  {
    var start, end, tail := b.page, b.page + Extent(p, b), b.page + p + 32 + b.size;
    TouchedTwice(m, cleared, front, start, end, start + p, start + p + 32);
    TouchedTwice(m, front, all, start, end, tail, tail + 4);
    StaysMapped(cleared, front, start + p, start + p + 32, start, end);
    StaysMapped(front, all, tail, tail + 4, start, end);
  }

  lemma ZeroStays(m: Memory, m': Memory, from: nat, to: nat, low: nat, high: nat)
    requires Touched(m, m', from, to) && Zero(m, low, high) && (high <= from || to <= low)
    ensures Zero(m', low, high)
  {
  }

  lemma ZeroWord(m: Memory, a: nat)
    requires Zero(m, a, a + 4)
    ensures WordAt(m, a) == 0
  {
    assert a in m && a + 1 in m && a + 2 in m && a + 3 in m;
  }

  // ----- what a change leaves as it was

  /** What the block's user sees: the writable pages of these blocks hold the same. */
  ghost predicate Kept(p: PageSize, m: Memory, m': Memory, live: seq<Block>) {
    forall b <- live :: Same(m, m', b.page + p, b.page + Extent(p, b))
  }

  lemma BlockUntouched(p: PageSize, m: Memory, m': Memory, from: nat, to: nat, b: Block, next: Word)
    requires Touched(m, m', from, to) && (b.page + Extent(p, b) <= from || to <= b.page)
    ensures Same(m, m', b.page, b.page + Extent(p, b))
    ensures Leads(p, m, b, next) ==> Leads(p, m', b, next)
    ensures Guarded(p, m, b) ==> Guarded(p, m', b)
  {
  }

  lemma LinkOnly(p: PageSize, m: Memory, m': Memory, b: Block, was: Word, next: Word)
    requires Leads(p, m, b, was) && WordSet(m, m', b.page + p - 4, next)
    ensures Leads(p, m', b, next)
    ensures Same(m, m', b.page + p, b.page + Extent(p, b))
    ensures Guarded(p, m, b) ==> Guarded(p, m', b)
  {
  }

  /** Setting one link changes what that block leads to, and nothing else. */
  lemma Relinked(p: PageSize, m: Memory, m': Memory, blocks: seq<Block>, nexts: seq<Word>, k: nat, next: Word)
    requires Apart(p, blocks) && Linking(p, m, blocks, nexts) && k < |blocks|
    requires WordSet(m, m', blocks[k].page + p - 4, next)
    ensures Linking(p, m', blocks, nexts[k := next]) && Kept(p, m, m', blocks)
    ensures AllGuarded(p, m, blocks) ==> AllGuarded(p, m', blocks)
  {
    forall i | 0 <= i < |blocks|
      ensures LinkedAt(p, m', blocks, nexts[k := next], i)
      ensures Same(m, m', blocks[i].page + p, blocks[i].page + Extent(p, blocks[i]))
      ensures Guarded(p, m, blocks[i]) ==> Guarded(p, m', blocks[i])
    {
      assert LinkedAt(p, m, blocks, nexts, i) && LinkedAt(p, m, blocks, nexts, k);
      if i == k {
        LinkOnly(p, m, m', blocks[k], nexts[k], next);
      } else {
        assert Disjoint(p, blocks[i], blocks[k]) by { assert i < k ==> Disjoint(p, blocks[i], blocks[k]); }
        OtherLink(p, m, m', blocks[i], nexts[i], blocks[k], next);
      }
    }
  }

  lemma OtherLink(p: PageSize, m: Memory, m': Memory, b: Block, was: Word, c: Block, next: Word)
    requires Leads(p, m, b, was) && Placed(p, c) && p <= Extent(p, c) && Disjoint(p, b, c)
    requires WordSet(m, m', c.page + p - 4, next)
    ensures Leads(p, m', b, was)
    ensures Same(m, m', b.page + p, b.page + Extent(p, b))
    ensures Guarded(p, m, b) ==> Guarded(p, m', b)
  {
    var a := c.page + p - 4;
    BlockUntouched(p, m, m', a, a + 4, b, was);
  }

  /** Making a block beside others leaves them as they are. */
  lemma OthersStay(p: PageSize, m: Memory, m': Memory, blocks: seq<Block>, nexts: seq<Word>, b: Block)
    requires Linking(p, m, blocks, nexts) && Made(p, m, m', b) && Beside(p, blocks, b)
    ensures Linking(p, m', blocks + [b], nexts + [0]) && Kept(p, m, m', blocks)
    ensures AllGuarded(p, m, blocks) ==> AllGuarded(p, m', blocks + [b])
  {
    forall i | 0 <= i < |blocks|
      ensures LinkedAt(p, m', blocks + [b], nexts + [0], i)
      ensures Same(m, m', blocks[i].page + p, blocks[i].page + Extent(p, blocks[i]))
      ensures Guarded(p, m, blocks[i]) ==> Guarded(p, m', blocks[i])
    {
      assert LinkedAt(p, m, blocks, nexts, i) && blocks[i] in blocks;
      assert Disjoint(p, blocks[i], b);
      BlockUntouched(p, m, m', b.page, b.page + Extent(p, b), blocks[i], nexts[i]);
    }
    assert LinkedAt(p, m', blocks + [b], nexts + [0], |blocks|);
  }

  ghost predicate Beside(p: PageSize, blocks: seq<Block>, b: Block) {
    forall c <- blocks :: Disjoint(p, c, b)
  }

  lemma BesideApart(p: PageSize, live: seq<Block>, b: Block)
    requires Apart(p, live) && Beside(p, live, b)
    ensures Apart(p, live + [b])
  {
    var all := live + [b];
    forall i, j | 0 <= i < j < |all| ensures Disjoint(p, all[i], all[j]) {
      assert all[i] == live[i] && live[i] in live;
      assert j < |live| ==> all[j] == live[j];
    }
  }

  /** The last block of the list is the one whose link is null. */
  lemma LeadsOn(p: PageSize, m: Memory, live: seq<Block>, b: Block, k: nat)
    requires k < |live| && Linking(p, m, live + [b], NextPages(live) + [0])
    ensures var blocks, nexts := live + [b], NextPages(live) + [0];
      && Leads(p, m, blocks[k], nexts[k])
      && (nexts[k] == 0 <==> k == |live| - 1)
      && (k < |live| - 1 ==> nexts[k] == blocks[k + 1].page)
  {
    var blocks, nexts := live + [b], NextPages(live) + [0];
    assert LinkedAt(p, m, blocks, nexts, k) && LinkedAt(p, m, blocks, nexts, k + 1);
  }

  /** The links once the last block leads to a new one. */
  function Extending(live: seq<Block>, b: Block): seq<Word> {
    var nexts := NextPages(live) + [0];
    if live == [] then nexts else nexts[|live| - 1 := b.page]
  }

  lemma Appended(p: PageSize, m: Memory, live: seq<Block>, b: Block)
    requires Apart(p, live) && Beside(p, live, b)
    requires Linking(p, m, live + [b], Extending(live, b))
    ensures Listed(p, m, live + [b]) && Leads(p, m, b, 0)
    ensures PageAt(live + [b], 0) == if live == [] then b.page else PageAt(live, 0)
  {
    BesideApart(p, live, b);
    var after := Extending(live, b);
    assert after == NextPages(live + [b]);
    assert LinkedAt(p, m, live + [b], after, |live|);
  }

  /** A block as its user gets it, and the others as they were. */
  ghost predicate Handed(p: PageSize, m: Memory, m': Memory, live: seq<Block>, b: Block) {
    && Guarded(p, m', b) && Zero(m', b.page + p + 32, b.page + p + 32 + b.size)
    && Kept(p, m, m', live)
  }

  lemma HandedOver(p: PageSize, m: Memory, m1: Memory, m2: Memory, live: seq<Block>, b: Block, next: Word)
    requires Made(p, m, m1, b) && Kept(p, m, m1, live) && Kept(p, m1, m2, live + [b]) && Leads(p, m2, b, next)
    ensures Handed(p, m, m2, live, b)
  {
    assert b in live + [b];
    GuardedStill(p, m1, m2, b);
    ZeroStill(p, m1, m2, b);
    forall c | c in live ensures Same(m, m2, c.page + p, c.page + Extent(p, c)) {
      assert c in live + [b];
      SameTwice(m, m1, m2, c.page + p, c.page + Extent(p, c));
    }
  }

  lemma SameTwice(m: Memory, m1: Memory, m2: Memory, from: int, to: int)
    requires Same(m, m1, from, to) && Same(m1, m2, from, to)
    ensures Same(m, m2, from, to)
  {
  }

  lemma GuardedStill(p: PageSize, m: Memory, m': Memory, b: Block)
    requires Guarded(p, m, b) && Same(m, m', b.page + p, b.page + Extent(p, b))
    requires Mapped(m', b.page, b.page + Extent(p, b))
    ensures Guarded(p, m', b)
  {
  }

  lemma ZeroStill(p: PageSize, m: Memory, m': Memory, b: Block)
    requires Zero(m, b.page + p + 32, b.page + p + 32 + b.size) && p + 36 + b.size <= Extent(p, b)
    requires Same(m, m', b.page + p, b.page + Extent(p, b))
    ensures Zero(m', b.page + p + 32, b.page + p + 32 + b.size)
  {
  }

  // ----- taking a block out of the list

  /** The links once the list passes over the block at an index. */
  function Bypassing(live: seq<Block>, i: nat): seq<Word>
    requires i < |live|
  {
    if i == 0 then NextPages(live) else NextPages(live)[i - 1 := NextPages(live)[i]]
  }

  lemma Before(p: PageSize, m: Memory, live: seq<Block>, i: nat)
    requires Listed(p, m, live) && i < |live|
    ensures PageAt(live, i - 1) == 0 <==> i == 0
    ensures i > 0 ==> Leads(p, m, live[i - 1], NextPages(live)[i - 1]) && PageAt(live, i - 1) == live[i - 1].page
  {
    if i > 0 {
      assert LinkedAt(p, m, live, NextPages(live), i - 1);
    }
  }

  lemma KeptByNothing(p: PageSize, m: Memory, live: seq<Block>)
    ensures Kept(p, m, m, live)
  {
  }

  lemma TakenOut(p: PageSize, m: Memory, live: seq<Block>, i: nat)
    requires Apart(p, live) && i < |live| && Linking(p, m, live, Bypassing(live, i))
    ensures Listed(p, m, Without(live, i))
    ensures PageAt(Without(live, i), 0) == if i == 0 then PageAt(live, 1) else PageAt(live, 0)
  {
    var rest := Without(live, i);
    ApartStill(p, live, i);
    forall k | 0 <= k < |rest| ensures LinkedAt(p, m, rest, NextPages(rest), k) {
      LeadsPast(live, i, k);
      assert LinkedAt(p, m, live, Bypassing(live, i), if k < i then k else k + 1);
    }
  }

  lemma LeadsPast(live: seq<Block>, i: nat, k: nat)
    requires i < |live| && k < |live| - 1
    ensures var o := if k < i then k else k + 1;
      Without(live, i)[k] == live[o] && NextPages(Without(live, i))[k] == Bypassing(live, i)[o]
  {
  }

  lemma GuardedWithout(p: PageSize, m: Memory, live: seq<Block>, i: nat)
    requires i < |live|
    ensures AllGuarded(p, m, live) ==> Guarded(p, m, live[i]) && AllGuarded(p, m, Without(live, i))
  {
    forall b | b in Without(live, i) ensures b in live {
    }
  }

  lemma ApartStill(p: PageSize, live: seq<Block>, i: nat)
    requires Apart(p, live) && i < |live|
    ensures Apart(p, Without(live, i))
  {
    var rest := Without(live, i);
    forall k, l | 0 <= k < l < |rest| ensures Disjoint(p, rest[k], rest[l]) {
      assert Disjoint(p, live[if k < i then k else k + 1], live[if l < i then l else l + 1]);
    }
  }

  /** A byte changes on the writable pages of one block. */
  lemma WrittenTo(p: PageSize, m: Memory, live: seq<Block>, k: nat, a: nat, v: Octet)
    requires Listed(p, m, live) && k < |live|
    requires live[k].page + p <= a < live[k].page + Extent(p, live[k])
    ensures Listed(p, m[a := v], live)
    ensures AllGuarded(p, m, live) && live[k].page + p + 32 <= a < live[k].page + p + 32 + live[k].size ==>
      AllGuarded(p, m[a := v], live)
  {
    var m' := m[a := v];
    var nexts := NextPages(live);
    forall i | 0 <= i < |live|
      ensures LinkedAt(p, m', live, nexts, i)
      ensures Guarded(p, m, live[i]) && live[k].page + p + 32 <= a < live[k].page + p + 32 + live[k].size ==>
        Guarded(p, m', live[i])
    {
      assert LinkedAt(p, m, live, nexts, i) && LinkedAt(p, m, live, nexts, k);
      if i == k {
        OwnWrite(p, m, live[k], a, v);
      } else {
        assert Disjoint(p, live[i], live[k]) by { assert i < k ==> Disjoint(p, live[i], live[k]); }
        BlockUntouched(p, m, m', a, a + 1, live[i], nexts[i]);
      }
    }
  }

  lemma OwnWrite(p: PageSize, m: Memory, b: Block, a: nat, v: Octet)
    requires b.page + p <= a
    ensures forall next :: Leads(p, m, b, next) ==> Leads(p, m[a := v], b, next)
    ensures Guarded(p, m, b) && b.page + p + 32 <= a < b.page + p + 32 + b.size ==> Guarded(p, m[a := v], b)
  {
  }

  // ----- runs

  /** The elements of one sequence are among those of the other, in the same order. */
  ghost predicate Subsequence(xs: seq<Block>, ys: seq<Block>) {
    xs == [] || (ys != [] &&
      var x, y := |xs| - 1, |ys| - 1;
      Subsequence(xs, ys[..y]) || (xs[x] == ys[y] && Subsequence(xs[..x], ys[..y])))
  }

  /** What is live is what was made and not released, in the order in which it was made. */
  ghost predicate Remaining(live: seq<Block>, made: seq<Block>, released: multiset<Block>) {
    Subsequence(live, made) && multiset(made) == multiset(live) + released
  }

  lemma RemainingAfterMake(live: seq<Block>, made: seq<Block>, released: multiset<Block>, b: Block)
    requires Remaining(live, made, released)
    ensures Remaining(live + [b], made + [b], released)
  {
    assert (live + [b])[..|live|] == live && (made + [b])[..|made|] == made;
  }

  lemma {:induction false} SubsequenceWithout(xs: seq<Block>, ys: seq<Block>, i: nat)
    requires Subsequence(xs, ys) && i < |xs|
    ensures Subsequence(Without(xs, i), ys)
    decreases |ys|
  {
    var x, y := |xs| - 1, |ys| - 1;
    if Subsequence(xs, ys[..y]) {
      SubsequenceWithout(xs, ys[..y], i);
    } else if i == x {
      assert Without(xs, i) == xs[..x];
    } else {
      SubsequenceWithout(xs[..x], ys[..y], i);
      assert Without(xs, i)[..x - 1] == Without(xs[..x], i);
    }
  }

  lemma RemainingAfterRelease(live: seq<Block>, made: seq<Block>, released: multiset<Block>, i: nat)
    requires Remaining(live, made, released) && i < |live|
    ensures Remaining(Without(live, i), made, released + multiset{live[i]})
  {
    SubsequenceWithout(live, made, i);
    assert live == live[..i] + [live[i]] + live[i + 1..];
  }
}
