/** Where the debug heap of Heap.c puts things: 32-bit words in a memory of bytes, and the
    layout of the pages around a user's block. */
module PageLayout {
  import opened Basics

  type Octet = x: nat | x < 256

  type Memory = map<nat, Octet>

  // ----- words in memory

  ghost predicate Mapped(m: Memory, from: int, to: int) {
    forall a :: from <= a < to ==> a in m
  }

  /** The word whose least byte is at the address. */
  function WordAt(m: Memory, a: nat): Word
    requires a in m && a + 1 in m && a + 2 in m && a + 3 in m
  {
    (m[a] as int) + 0x100 * (m[a + 1] as int) + 0x1_0000 * (m[a + 2] as int) + 0x100_0000 * (m[a + 3] as int)
  }

  function Put(m: Memory, a: nat, w: Word): Memory {
    m[a := w % 0x100][a + 1 := w / 0x100 % 0x100][a + 2 := w / 0x1_0000 % 0x100][a + 3 := w / 0x100_0000]
  }

  lemma PutBytes(m: Memory, a: nat, w: Word)
    ensures var m' := Put(m, a, w);
      && a in m' && a + 1 in m' && a + 2 in m' && a + 3 in m'
      && m'[a] == w % 0x100 && m'[a + 1] == w / 0x100 % 0x100
      && m'[a + 2] == w / 0x1_0000 % 0x100 && m'[a + 3] == w / 0x100_0000
  {
  }

  lemma FourDigits(w: nat)
    ensures w == w % 0x100 + 0x100 * (w / 0x100 % 0x100)
              + 0x1_0000 * (w / 0x1_0000 % 0x100) + 0x100_0000 * (w / 0x100_0000)
  {
    assert w / 0x100 / 0x100 == w / 0x1_0000;
    assert w / 0x1_0000 / 0x100 == w / 0x100_0000;
  }

  lemma PutThenRead(m: Memory, a: nat, w: Word)
    ensures WordAt(Put(m, a, w), a) == w
  {
    PutBytes(m, a, w);
    FourDigits(w);
  }

  function Blank(at: nat, n: nat): (m: Memory)
    ensures forall a :: a in m <==> at <= a < at + n
    ensures forall a <- m :: m[a] == 0
  {
    if n == 0 then map[] else Blank(at, n - 1)[at + n - 1 := 0]
  }

  // ----- pages

  /** The page size, at least a word. */
  type PageSize = x: nat | 4 <= x <= 0x100_0000 witness 4096

  const PAGE_CHKS: Word := 0x1a4d4d1a

  /** The words around a block of this size: the count and five addresses of the backtrace,
      the size, and a canary in front; a canary behind. */
  function Required(size: nat): nat { 4 + 5 * 4 + 4 + 4 + size + 4 }

  /** One read-only page, and as many writable ones as are needed. */
  function Pages(p: PageSize, size: nat): nat { 1 + (Required(size) + p - 1) / p }

  /** No smaller number of pages holds the block with its words. */
  lemma PagesLeast(p: PageSize, size: nat, n: nat)
    ensures n >= Pages(p, size) <==> p + 36 + size <= n * p
  {
    var c := (Required(size) + p - 1) / p;
    Ceiling(p, Required(size), c, n);
  }

  lemma Ceiling(p: nat, need: nat, c: nat, n: nat)
    requires p > 0 && need > 0 && c == (need + p - 1) / p
    ensures n >= 1 + c <==> p + need <= n * p
  {
    Quotient(need + p - 1, p);
    if n >= 1 + c {
      MoreTimes(1 + c, n, p);
    } else {
      MoreTimes(n, c, p);
    }
  }

  lemma Quotient(a: nat, p: nat)
    requires p > 0
    ensures a / p * p <= a < a / p * p + p && (1 + a / p) * p == a / p * p + p
  {
  }

  lemma MoreTimes(a: nat, b: nat, p: nat)
    requires a <= b
    ensures a * p <= b * p
  {
  }

  // The words of a block, from the start of its pages.
  function NextAddress(p: PageSize, page: Word): Word { Offset32(Offset32(page, p), -4) }
  function BacktraceCount(p: PageSize, page: Word): Word { Offset32(page, p) }
  function Backtrace(p: PageSize, page: Word): Word { Offset32(BacktraceCount(p, page), 4) }
  function SizeAddress(p: PageSize, page: Word): Word { Offset32(Backtrace(p, page), 5 * 4) }
  function FrontCheck(p: PageSize, page: Word): Word { Offset32(SizeAddress(p, page), 4) }
  function UserBlock(p: PageSize, page: Word): Word { Offset32(FrontCheck(p, page), 4) }
  function TailCheck(p: PageSize, page: Word, size: Word): Word { Offset32(UserBlock(p, page), size) }

  // The same words, from the pointer that the user has.
  function FrontCheckOf(user: Word): Word { Offset32(user, -4) }
  function SizeAddressOf(user: Word): Word { Offset32(FrontCheckOf(user), -4) }
  function BacktraceOf(user: Word): Word { Offset32(SizeAddressOf(user), -(5 * 4)) }
  function BacktraceCountOf(user: Word): Word { Offset32(BacktraceOf(user), -4) }
  function NextAddressOf(user: Word): Word { Offset32(BacktraceCountOf(user), -4) }
  function TailCheckOf(user: Word, size: Word): Word { Offset32(user, size) }
  function PageOf(p: PageSize, user: Word): Word { Offset32(Offset32(NextAddressOf(user), 4), 0 - p) }

  /** Each address computed back from the user's pointer is the one computed from the page. */
  lemma WaysBack(p: PageSize, page: Word, size: Word)
    ensures var user := UserBlock(p, page);
      && FrontCheckOf(user) == FrontCheck(p, page)
      && SizeAddressOf(user) == SizeAddress(p, page)
      && BacktraceOf(user) == Backtrace(p, page)
      && BacktraceCountOf(user) == BacktraceCount(p, page)
      && NextAddressOf(user) == NextAddress(p, page)
      && TailCheckOf(user, size) == TailCheck(p, page, size)
      && PageOf(p, user) == page
  {
    var user := UserBlock(p, page);
    FromPage(p, page);
    FromUser(p, user);
    Back(page, user, p + 32, -4);
    Back(page, user, p + 32, -8);
    Back(page, user, p + 32, -28);
    Back(page, user, p + 32, -32);
    Back(page, user, p + 32, -36);
    Back(page, user, p + 32, -32 - p);
  }

  lemma Back(a: Word, b: Word, d: int, e: int)
    requires b == Offset32(a, d)
    ensures Offset32(b, e) == Offset32(a, d + e)
    ensures d + e == 0 ==> Offset32(b, e) == a
  {
    Offsets(a, d, e);
  }

  lemma FromPage(p: PageSize, page: Word)
    ensures NextAddress(p, page) == Offset32(page, p - 4)
    ensures BacktraceCount(p, page) == Offset32(page, p)
    ensures Backtrace(p, page) == Offset32(page, p + 4)
    ensures SizeAddress(p, page) == Offset32(page, p + 24)
    ensures FrontCheck(p, page) == Offset32(page, p + 28)
    ensures UserBlock(p, page) == Offset32(page, p + 32)
  {
    Offsets(page, p, -4);
    Offsets(page, p, 4);
    Offsets(page, p + 4, 20);
    Offsets(page, p + 24, 4);
    Offsets(page, p + 28, 4);
  }

  lemma FromUser(p: PageSize, user: Word)
    ensures FrontCheckOf(user) == Offset32(user, -4)
    ensures SizeAddressOf(user) == Offset32(user, -8)
    ensures BacktraceOf(user) == Offset32(user, -28)
    ensures BacktraceCountOf(user) == Offset32(user, -32)
    ensures NextAddressOf(user) == Offset32(user, -36)
    ensures PageOf(p, user) == Offset32(user, -32 - p)
  {
    Offsets(user, -4, -4);
    Offsets(user, -8, -20);
    Offsets(user, -28, -4);
    Offsets(user, -32, -4);
    Offsets(user, -36, 4);
    Offsets(user, -32, 0 - p);
  }

  /** A pointer leads back to a page exactly when it is the pointer to that page's block. */
  lemma PageOfExactly(p: PageSize, page: Word, user: Word)
    ensures PageOf(p, user) == page <==> user == UserBlock(p, page)
  {
    FromPage(p, page);
    FromUser(p, user);
    if user == UserBlock(p, page) {
      Back(page, user, p + 32, -32 - p);
    } else if PageOf(p, user) == page {
      Back(user, page, -32 - p, p + 32);
    }
  }
}
