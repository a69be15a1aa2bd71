/** Bytes, 32-bit arithmetic, and facts about sequences that the other modules share. */
module Basics {

  type byte = bv8

  datatype Option<+T> = None | Some(value: T)

  /** What a routine that checks its arguments comes to: it returns TRUE or FALSE, or goes
      outside its buffers or uses bytes that were never set, which C leaves undefined. */
  datatype Outcome = Returned(ok: bool) | Undefined

  /** `unsigned int` arithmetic wraps at this. */
  const TWO_32: nat := 0x1_0000_0000

  function Add32(a: nat, b: nat): nat { (a + b) % TWO_32 }

  lemma Add32Mod(n: nat, b: nat)
    ensures Add32(n % TWO_32, b) == (n + b) % TWO_32
  {
  }

  /** An unsigned of 32 bits. */
  type Word = x: nat | x < TWO_32

  /** The wait that never runs out. */
  const INFINITE: Word := 0xffff_ffff

  function Sub32(a: Word, b: Word): Word { (a - b) % TWO_32 }

  /** An address, some bytes further on or back. */
  function Offset32(a: Word, d: int): Word { (a + d) % TWO_32 }

  lemma WrappedDifference(a: nat, b: nat)
    requires b <= a
    ensures Sub32(a % TWO_32, b % TWO_32) == (a - b) % TWO_32
  {
  }

  lemma PlainOffset(a: Word, d: int)
    requires 0 <= a + d < TWO_32
    ensures Offset32(a, d) == a + d
  {
  }

  lemma Offsets(a: Word, d: int, e: int)
    ensures Offset32(Offset32(a, d), e) == Offset32(a, d + e)
  {
  }

  // ----- facts about sequences of any elements

  lemma Assoc<T>(a: seq<T>, b: seq<T>, c: seq<T>)
    ensures (a + b) + c == a + (b + c)
  {
  }

  lemma TailOfAppend<T>(xs: seq<T>, x: T)
    requires xs != []
    ensures (xs + [x])[0] == xs[0] && (xs + [x])[1..] == xs[1..] + [x]
  {
  }

  lemma TakeOneMore<T>(xs: seq<T>, k: nat)
    requires k < |xs|
    ensures xs[..k + 1] == xs[..k] + [xs[k]]
    ensures xs[k..] == [xs[k]] + xs[k + 1..] && xs[k..][0] == xs[k] && xs[k..][1..] == xs[k + 1..]
  {
  }

  /** The sequence without the element at an index. */
  function Without<T>(xs: seq<T>, i: nat): seq<T>
    requires i < |xs|
  {
    xs[..i] + xs[i + 1..]
  }

  /** A buffer that holds `done` in front and is as it was behind. */
  ghost predicate Filled<T(!new)>(buffer: seq<T>, done: seq<T>, was: seq<T>) {
    |done| <= |was| && buffer == done + was[|done|..]
  }

  lemma FillNone<T(!new)>(was: seq<T>)
    ensures Filled(was, [], was)
  {
  }

  lemma FillFirst<T(!new)>(x: seq<T>, was: seq<T>)
    requires |x| <= |was|
    ensures Filled(was[..0] + x + was[|x|..], x, was)
  {
  }

  lemma FillOn<T(!new)>(buffer: seq<T>, done: seq<T>, x: seq<T>, was: seq<T>)
    requires Filled(buffer, done, was) && |done| + |x| <= |was|
    ensures Filled(buffer[..|done|] + x + buffer[|done| + |x|..], done + x, was)
  {
  }

  lemma DropPrefix<T>(a: seq<T>, b: seq<T>)
    ensures (a + b)[|a|..] == b
  {
  }

  lemma SplitSlice<T>(s: seq<T>, i: nat, j: nat, k: nat)
    requires i <= j <= k <= |s|
    ensures s[i..k] == s[i..j] + s[j..k]
  {
  }

  /** The index of the first element that the test accepts, or the length. */
  function First<T>(xs: seq<T>, test: T -> bool): (i: nat)
    ensures i <= |xs|
    ensures i < |xs| ==> test(xs[i])
    ensures forall j :: 0 <= j < i ==> !test(xs[j])
  {
    if xs == [] || test(xs[0]) then 0 else 1 + First(xs[1..], test)
  }
}
