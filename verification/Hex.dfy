/** The hexadecimal printer and parser of language.c, with UTF-8 text on the string side.
    Text has the most significant byte first, arrays have it last. */
module Hex {
  import opened Basics

  const ZERO: byte := 0x30
  const LETTER_X: byte := 0x78

  // ----- digits

  function Digit(nibble: byte): byte { if nibble > 9 then 0x57 + nibble else 0x30 | nibble }

  function HighDigit(b: byte): byte { Digit((b & 0xf0) >> 4) }

  function LowDigit(b: byte): byte { Digit(b & 0x0f) }

  predicate IsHex(c: byte) { 0x30 <= c <= 0x39 || 0x41 <= c <= 0x46 || 0x61 <= c <= 0x66 }

  function Nibble(c: byte): byte { if c > 0x40 then (c & 0x0f) + 9 else c & 0x0f }

  function FromDigits(hi: byte, lo: byte): byte { (Nibble(hi) << 4) | Nibble(lo) }

  function LowerCase(c: byte): byte { if 0x41 <= c <= 0x46 then c + 0x20 else c }

  /** The digits in order of their values. */
  const LOWER_DIGITS: seq<byte> :=
    [0x30, 0x31, 0x32, 0x33, 0x34, 0x35, 0x36, 0x37, 0x38, 0x39, 0x61, 0x62, 0x63, 0x64, 0x65, 0x66]
  const UPPER_DIGITS: seq<byte> :=
    [0x30, 0x31, 0x32, 0x33, 0x34, 0x35, 0x36, 0x37, 0x38, 0x39, 0x41, 0x42, 0x43, 0x44, 0x45, 0x46]

  /** The printer writes the lower-case digit of the value. */
  lemma WritesDigit(v: byte)
    requires v < 16
    ensures Digit(v) == LOWER_DIGITS[v as int]
  {
  }

  /** The parser takes the digits of both cases with their values. */
  lemma TakesDigit(v: byte)
    requires v < 16
    ensures IsHex(LOWER_DIGITS[v as int]) && Nibble(LOWER_DIGITS[v as int]) == v
    ensures IsHex(UPPER_DIGITS[v as int]) && Nibble(UPPER_DIGITS[v as int]) == v
    ensures LowerCase(UPPER_DIGITS[v as int]) == LOWER_DIGITS[v as int] == LowerCase(LOWER_DIGITS[v as int])
  {
  }

  /** And it takes no other character. */
  lemma TakesNoOther(c: byte)
    requires IsHex(c)
    ensures Nibble(c) < 16
    ensures c == LOWER_DIGITS[Nibble(c) as int] || c == UPPER_DIGITS[Nibble(c) as int]
  {
  }

  // ----- whole texts

  /** The digits of an array: its last byte first. */
  function Digits(a: seq<byte>): (d: seq<byte>)
    ensures |d| == 2 * |a|
  {
    if a == [] then [] else Digits(a[1..]) + [HighDigit(a[0]), LowDigit(a[0])]
  }

  function Prefix(prefix: bool): seq<byte> { if prefix then [ZERO, LETTER_X] else [] }

  /** The array of a digit text: its last pair first. */
  function Parsed(d: seq<byte>): (a: seq<byte>)
    requires |d| % 2 == 0
    ensures |a| == |d| / 2
  {
    if d == [] then [] else Parsed(d[2..]) + [FromDigits(d[0], d[1])]
  }

  predicate AllHex(d: seq<byte>) { forall i :: 0 <= i < |d| ==> IsHex(d[i]) }

  function Lower(d: seq<byte>): (r: seq<byte>)
    ensures |r| == |d|
    ensures forall i :: 0 <= i < |d| ==> r[i] == LowerCase(d[i])
  {
    seq(|d|, i requires 0 <= i < |d| => LowerCase(d[i]))
  }

  // ----- printing

  /** The bytes a caller has to provide for the text and its terminator. */
  function RequiredLength(n: nat, prefix: bool): nat {
    if n > 0 then n * 2 + (if prefix then 2 else 0) + 1 else 0
  }

  lemma DigitsFrom(a: seq<byte>, k: nat)
    requires 0 < k <= |a|
    ensures Digits(a[k - 1..]) == Digits(a[k..]) + [HighDigit(a[k - 1]), LowDigit(a[k - 1])]
  {
    TakeOneMore(a, k - 1);
  }

  /** The loop of the printer has written the prefix and the digits of `base[k..]`. */
  ghost predicate Printed(now: seq<byte>, base: seq<byte>, k: nat, o: nat, was: seq<byte>, prefix: bool) {
    && k <= |base| && |was| == RequiredLength(|base|, prefix)
    && o == |Prefix(prefix)| + 2 * (|base| - k)
    && Filled(now, Prefix(prefix) + Digits(base[k..]), was)
  }

  lemma PrintedOn(now: seq<byte>, base: seq<byte>, k: nat, o: nat, was: seq<byte>, prefix: bool, now': seq<byte>)
    requires Printed(now, base, k, o, was, prefix) && 0 < k && o + 2 <= |now|
    requires now' == now[..o] + [HighDigit(base[k - 1]), LowDigit(base[k - 1])] + now[o + 2..]
    ensures Printed(now', base, k - 1, o + 2, was, prefix)
  {
    var pair := [HighDigit(base[k - 1]), LowDigit(base[k - 1])];
    FillOn(now, Prefix(prefix) + Digits(base[k..]), pair, was);
    DigitsFrom(base, k);
    Assoc(Prefix(prefix), Digits(base[k..]), pair);
  }

  method PutPair(out: array<byte>, o: nat, first: byte, second: byte)
    requires o + 2 <= out.Length
    modifies out
    ensures out[..] == old(out[..])[..o] + [first, second] + old(out[..])[o + 2..]
  {
    out[o], out[o + 1] := first, second;
  }

  method PrintPrefix(dump: array<byte>, prefix: bool) returns (o: nat)
    requires dump.Length >= 2
    modifies dump
    ensures o == |Prefix(prefix)| && Filled(dump[..], Prefix(prefix), old(dump[..]))
  {
    ghost var was := dump[..];
    FillNone(was);
    o := 0;
    if prefix {
      FillFirst(Prefix(true), was);
      PutPair(dump, 0, ZERO, LETTER_X);
      o := 2;
    }
  }

  /** Fills the local buffer of the printer with the prefix and the digits. */
  method PrintDigits(base: seq<byte>, dump: array<byte>, prefix: bool) returns (o: nat)
    requires base != [] && dump.Length == RequiredLength(|base|, prefix)
    modifies dump
    ensures o == dump.Length - 1 && Filled(dump[..], Prefix(prefix) + Digits(base), old(dump[..]))
  {
    var k := |base|;
    ghost var was := dump[..];
    o := PrintPrefix(dump, prefix);
    assert Digits(base[k..]) == [];
    assert Prefix(prefix) + [] == Prefix(prefix);
    while k > 0
      invariant Printed(dump[..], base, k, o, was, prefix)
    {
      ghost var now := dump[..];
      PutPair(dump, o, HighDigit(base[k - 1]), LowDigit(base[k - 1]));
      PrintedOn(now, base, k, o, was, prefix, dump[..]);
      k, o := k - 1, o + 2;
    }
    assert base[0..] == base;
  }

  /** The same, with the terminator. */
  method PrintInto(base: seq<byte>, dump: array<byte>, prefix: bool)
    requires base != [] && dump.Length == RequiredLength(|base|, prefix)
    modifies dump
    ensures dump[..] == Prefix(prefix) + Digits(base) + [0]
  {
    var o := PrintDigits(base, dump, prefix);
    DropPrefix(Prefix(prefix) + Digits(base), dump[o..]);
    dump[dump.Length - 1] := 0;
    assert dump[..] == dump[..o] + [0];
  }

  /** Prints the array as a zero-terminated hexadecimal text.  The length asked for is
      computed in 32 bits; the local buffer has that length. */
  method Print(base: Option<seq<byte>>, to: array?<byte>, toLength: nat, prefix: bool) returns (outcome: Outcome)
    requires to != null ==> toLength <= to.Length
    modifies if to == null then {} else {to}
    ensures var a := if base.None? then [] else base.value;
      var required := RequiredLength(|a|, prefix);
      && (outcome == Returned(false) <==> a == [] || to == null || toLength == 0 || toLength != required % TWO_32)
      && (outcome == Undefined ==> required >= TWO_32)
      && (outcome == Returned(true) ==>
            required < TWO_32 &&
            Filled(to[..], (if prefix then [0x30, 0x78] else []) + Digits(a) + [0], old(to[..])))
    ensures outcome == Returned(false) && to != null ==> to[..] == old(to[..])
  {
    if base.None? || to == null || base.value == [] || toLength == 0 {
      return Returned(false);
    }
    if toLength != RequiredLength(|base.value|, prefix) % TWO_32 {
      return Returned(false);
    }
    if toLength < RequiredLength(|base.value|, prefix) {
      return Undefined;   // the loop stores past the end of the local buffer
    }
    var dump := new byte[toLength];
    PrintInto(base.value, dump, prefix);
    CopyOver(to, dump[..]);
    return Returned(true);
  }

  /** Copies over the front of the buffer (memcpy). */
  method CopyOver(to: array<byte>, src: seq<byte>)
    requires |src| <= to.Length
    modifies to
    ensures Filled(to[..], src, old(to[..]))
  {
    for i := 0 to |src|
      invariant to[..i] == src[..i] && to[i..] == old(to[i..])
    {
      to[i] := src[i];
    }
    assert to[..] == to[..|src|] + to[|src|..];
  }

  // ----- parsing

  lemma ParsedUpTo(d: seq<byte>, k: nat)
    requires |d| % 2 == 0 && 2 * k + 2 <= |d|
    ensures Parsed(d[..2 * k + 2]) == [FromDigits(d[2 * k], d[2 * k + 1])] + Parsed(d[..2 * k])
    decreases k
  {
    if k == 0 {
      assert d[..2][2..] == [];
      assert d[..0] == [];
    } else {
      ParsedUpTo(d[2..], k - 1);
      assert d[..2 * k + 2][2..] == d[2..][..2 * (k - 1) + 2];
      assert d[..2 * k][2..] == d[2..][..2 * (k - 1)];
      Assoc([FromDigits(d[2 * k], d[2 * k + 1])], Parsed(d[2..][..2 * (k - 1)]), [FromDigits(d[0], d[1])]);
    }
  }

  lemma PutFront<T>(now: seq<T>, o: nat, x: T, rest: seq<T>)
    requires 0 < o <= |now| && now[o..] == rest
    ensures now[o - 1 := x][o - 1..] == [x] + rest
  {
  }

  /** The loop of the parser has read `k` pairs, all of them digits, and stored them from the end. */
  ghost predicate ParsedSoFar(now: seq<byte>, d: seq<byte>, k: nat) {
    && |d| % 2 == 0 && |d| <= 2 * |now| && 2 * k <= |d|
    && AllHex(d[..2 * k]) && now[|now| - k..] == Parsed(d[..2 * k])
  }

  lemma ParsedSoFarOn(now: seq<byte>, d: seq<byte>, k: nat, b: byte)
    requires ParsedSoFar(now, d, k) && 2 * k < |d|
    requires IsHex(d[2 * k]) && IsHex(d[2 * k + 1]) && b == FromDigits(d[2 * k], d[2 * k + 1])
    ensures ParsedSoFar(now[|now| - 1 - k := b], d, k + 1)
  {
    ParsedUpTo(d, k);
    PutFront(now, |now| - k, b, Parsed(d[..2 * k]));
  }

  method Store(out: array<byte>, i: nat, b: byte)
    requires i < out.Length
    modifies out
    ensures out[..] == old(out[..])[i := b]
  {
    out[i] := b;
  }

  /** Fills the local buffer of the parser from its end; stops at a character that is not a digit. */
  method ParseInto(d: seq<byte>, dump: array<byte>) returns (invalid: bool)
    requires |d| % 2 == 0 && |d| <= 2 * dump.Length
    modifies dump
    ensures invalid <==> !AllHex(d)
    ensures !invalid ==> dump[dump.Length - |d| / 2..] == Parsed(d)
  {
    var k, left := 0, |d|;
    while left > 0
      invariant left == |d| - 2 * k && ParsedSoFar(dump[..], d, k)
    {
      if !IsHex(d[2 * k]) || !IsHex(d[2 * k + 1]) {
        return true;
      }
      var b := FromDigits(d[2 * k], d[2 * k + 1]);
      ParsedSoFarOn(dump[..], d, k, b);
      Store(dump, dump.Length - 1 - k, b);
      k, left := k + 1, left - 2;
    }
    assert d[..2 * k] == d;
    return false;
  }

  /** The digits of a text, the first two characters skipped if a prefix is announced. */
  function Body(text: seq<byte>, prefix: bool): seq<byte>
    requires prefix ==> |text| >= 2
  {
    if prefix then text[2..] else text
  }

  function PrefixLength(prefix: bool): nat { if prefix then 2 else 0 }

  /** The text has two characters for each byte wanted, after the prefix. */
  predicate Fits(text: seq<byte>, n: nat, prefix: bool) { |text| == n * 2 + PrefixLength(prefix) }

  /** The same as the routine computes it, in 32 bits. */
  predicate FitsWrapped(text: seq<byte>, n: nat, prefix: bool) {
    |text| % TWO_32 == (n * 2 + PrefixLength(prefix)) % TWO_32
  }

  /** The number of characters that the loop counts down, in 32 bits. */
  function Counted(text: seq<byte>, prefix: bool): Word { Sub32(|text| % TWO_32, PrefixLength(prefix)) }

  lemma EvenRest(x: nat)
    requires x % 2 == 0
    ensures x % TWO_32 % 2 == 0 && x % TWO_32 <= x
  {
    assert x % TWO_32 == x - x / TWO_32 * TWO_32;
  }

  /** The three tests of the routine come to one. */
  lemma LengthTests(length: nat, n: nat, prefix: bool)
    ensures var wanted := n * 2 + PrefixLength(prefix);
      && (prefix ==> Add32(n * 2, 2) == wanted % TWO_32)
      && (!prefix ==> n * 2 % TWO_32 == wanted % TWO_32)
      && (length % TWO_32 == wanted % TWO_32 ==> length % TWO_32 % 2 == 0)
  {
    EvenRest(n * 2 + PrefixLength(prefix));
  }

  lemma Borrow(a: nat, p: nat)
    requires p < TWO_32
    ensures Sub32((a + p) % TWO_32, p) == a % TWO_32
  {
    WrappedDifference(a + p, p);
  }

  /** A text that passes has as many characters as the loop counts, except that after a
      prefix a text without any characters can pass. */
  lemma CountedFits(text: seq<byte>, n: nat, prefix: bool)
    requires FitsWrapped(text, n, prefix)
    ensures Counted(text, prefix) == n * 2 % TWO_32 && Counted(text, prefix) % 2 == 0 && Counted(text, prefix) <= n * 2
    ensures |text| < PrefixLength(prefix) + Counted(text, prefix) <==> prefix && |text| < 2
  {
    Borrow(n * 2, PrefixLength(prefix));
    EvenRest(n * 2);
    LengthTests(|text|, n, prefix);
    CountedReaches(|text|, PrefixLength(prefix));
  }

  lemma CountedReaches(length: nat, p: nat)
    requires p <= length % TWO_32 || p == 2
    requires length % TWO_32 % 2 == 0
    ensures length < p + Sub32(length % TWO_32, p) <==> length < p
  {
    var q, r := length / TWO_32, length % TWO_32;
    assert length == q * TWO_32 + r;
    if r >= p {
      assert Sub32(r, p) == r - p;
    } else {
      assert r == 0 && Sub32(r, p) == TWO_32 - p;
    }
  }

  /** The characters that the loop looks at. */
  function Looked(text: seq<byte>, prefix: bool): seq<byte>
    requires |text| >= PrefixLength(prefix) + Counted(text, prefix)
  {
    text[PrefixLength(prefix)..PrefixLength(prefix) + Counted(text, prefix)]
  }

  /** Parses a text (the characters before its terminator) into the first `toLength` bytes.
      With nothing to do, that is without a text, a destination or a length, it reports
      success.  Lengths are computed in 32 bits. */
  method Parse(text: Option<seq<byte>>, to: array?<byte>, toLength: nat, prefix: bool) returns (outcome: Outcome)
    requires to != null ==> toLength <= to.Length
    modifies if to == null then {} else {to}
    ensures text.None? || to == null || toLength == 0 ==> outcome == Returned(true)
    ensures to != null && (outcome == Returned(false) || text.None? || toLength == 0) ==> to[..] == old(to[..])
    ensures text.Some? && to != null && toLength > 0 ==> outcome == Judged(text.value, toLength, prefix)
    ensures text.Some? && to != null && toLength > 0 && outcome == Returned(true) ==>
      Filled(to[..], Result(text.value, toLength, prefix), old(to[..]))
  {
    if text.None? || to == null || toLength == 0 {
      return Returned(true);
    }
    var base := text.value;
    LengthTests(|base|, toLength, prefix);
    if prefix && |base| % TWO_32 != Add32(toLength * 2, 2) {
      return Returned(false);
    }
    if !prefix && |base| % TWO_32 != toLength * 2 % TWO_32 {
      return Returned(false);
    }
    if |base| % TWO_32 % 2 != 0 {
      return Returned(false);
    }
    CountedFits(base, toLength, prefix);
    if |base| < PrefixLength(prefix) + Counted(base, prefix) {
      return Undefined;   // the loop reads past the end of the text
    }
    var dump := new byte[toLength];
    var invalid := ParseInto(Looked(base, prefix), dump);
    if invalid {
      return Returned(false);
    }
    if Counted(base, prefix) < toLength * 2 {
      return Undefined;   // the first bytes of the local buffer were never set
    }
    CopyOver(to, dump[..]);
    return Returned(true);
  }

  /** What the parser comes to for a text and a length: it refuses a text of the wrong
      length, in 32 bits; it reads past a text that has not even the prefix; it stops at a
      character that is not a digit; and it copies bytes that were never set if it counted
      fewer characters than two for each byte. */
  function Judged(text: seq<byte>, n: nat, prefix: bool): Outcome {
    if !FitsWrapped(text, n, prefix) then Returned(false)
    else if prefix && |text| < 2 then Undefined
    else
      CountedFits(text, n, prefix);
      if !AllHex(Looked(text, prefix)) then Returned(false)
      else if n * 2 >= TWO_32 then Undefined
      else Returned(true)
  }

  /** The bytes that it then gives. */
  function Result(text: seq<byte>, n: nat, prefix: bool): seq<byte>
    requires Judged(text, n, prefix) == Returned(true)
  {
    CountedFits(text, n, prefix);
    Parsed(Looked(text, prefix))
  }

  /** For texts of less than 2^32 characters: the parser succeeds exactly if the text has the
      wanted length and only digits after the prefix.  It goes wrong exactly if only the
      wrapped length is the wanted one and there is no character before the end of the text
      at which it would stop. */
  lemma JudgedExactly(text: seq<byte>, n: nat, prefix: bool)
    requires |text| < TWO_32
    ensures var long := |text| >= PrefixLength(prefix);
      var digits := long && AllHex(Body(text, prefix));
      && (Judged(text, n, prefix) == Returned(true) <==> Fits(text, n, prefix) && digits)
      && (Judged(text, n, prefix) == Undefined <==>
            FitsWrapped(text, n, prefix) && !Fits(text, n, prefix) && (!long || digits))
      && (Judged(text, n, prefix) == Returned(true) ==> Result(text, n, prefix) == Parsed(Body(text, prefix)))
  {
    if FitsWrapped(text, n, prefix) && |text| >= PrefixLength(prefix) {
      CountedFits(text, n, prefix);
      assert Counted(text, prefix) == |text| - PrefixLength(prefix);
      assert Looked(text, prefix) == Body(text, prefix);
    }
  }

  /** Two characters that are no digits, for 2^31 + 1 bytes: the length wraps to the right
      one, and the parser refuses the text at its first character. */
  lemma StopsAtFirst()
    ensures var text: seq<byte> := [0x7a, 0x7a];
      FitsWrapped(text, 0x8000_0001, false) && !Fits(text, 0x8000_0001, false)
      && Judged(text, 0x8000_0001, false) == Returned(false)
  {
    var text: seq<byte> := [0x7a, 0x7a];
    assert FitsWrapped(text, 0x8000_0001, false);
    JudgedExactly(text, 0x8000_0001, false);
    assert !IsHex(Body(text, false)[0]);
  }

  /** The parser's test of the length is right for every text of less than 2^32 characters
      exactly when twice the number of bytes, and the prefix, fit 32 bits. */
  lemma LengthTestExactly(n: nat, prefix: bool)
    ensures (forall text: seq<byte> :: |text| < TWO_32 && FitsWrapped(text, n, prefix) ==> Fits(text, n, prefix))
      <==> n * 2 + PrefixLength(prefix) < TWO_32
  {
    var length := n * 2 + PrefixLength(prefix);
    var text: seq<byte> := seq(length % TWO_32, _ => 0);
    assert FitsWrapped(text, n, prefix);
  }

  // ----- the two undo each other

  lemma DigitsOfByte(b: byte)
    ensures IsHex(HighDigit(b)) && IsHex(LowDigit(b))
    ensures FromDigits(HighDigit(b), LowDigit(b)) == b
    ensures HighDigit(b) != 0 && LowDigit(b) != 0
  {
  }

  lemma DigitsOfPair(hi: byte, lo: byte)
    requires IsHex(hi) && IsHex(lo)
    ensures HighDigit(FromDigits(hi, lo)) == LowerCase(hi)
    ensures LowDigit(FromDigits(hi, lo)) == LowerCase(lo)
  {
  }

  lemma {:induction false} DigitsAreHex(a: seq<byte>)
    ensures AllHex(Digits(a)) && 0 !in Digits(a)
  {
    if a != [] {
      DigitsAreHex(a[1..]);
      DigitsOfByte(a[0]);
    }
  }

  lemma {:induction false} ParsedAppend(d: seq<byte>, hi: byte, lo: byte)
    requires |d| % 2 == 0
    ensures Parsed(d + [hi, lo]) == [FromDigits(hi, lo)] + Parsed(d)
    decreases |d|
  {
    if d == [] {
      assert d + [hi, lo] == [hi, lo];
    } else {
      ParsedAppend(d[2..], hi, lo);
      assert (d + [hi, lo])[2..] == d[2..] + [hi, lo];
      Assoc([FromDigits(hi, lo)], Parsed(d[2..]), [FromDigits(d[0], d[1])]);
    }
  }

  /** Parsing what was printed gives the array back. */
  lemma {:induction false} ParsesPrinted(a: seq<byte>)
    ensures Parsed(Digits(a)) == a && AllHex(Digits(a))
  {
    DigitsAreHex(a);
    if a != [] {
      ParsesPrinted(a[1..]);
      ParsedAppend(Digits(a[1..]), HighDigit(a[0]), LowDigit(a[0]));
      DigitsOfByte(a[0]);
      assert a == [a[0]] + a[1..];
    }
  }

  lemma {:induction false} DigitsAppend(a: seq<byte>, b: byte)
    ensures Digits(a + [b]) == [HighDigit(b), LowDigit(b)] + Digits(a)
  {
    if a == [] {
      assert a + [b] == [b];
    } else {
      DigitsAppend(a[1..], b);
      TailOfAppend(a, b);
      Assoc([HighDigit(b), LowDigit(b)], Digits(a[1..]), [HighDigit(a[0]), LowDigit(a[0])]);
    }
  }

  /** Printing what was parsed gives the digits in lower case. */
  lemma {:induction false} PrintsParsed(d: seq<byte>)
    requires |d| % 2 == 0 && AllHex(d)
    ensures Digits(Parsed(d)) == Lower(d)
    decreases |d|
  {
    if d != [] {
      PrintsParsed(d[2..]);
      DigitsAppend(Parsed(d[2..]), FromDigits(d[0], d[1]));
      DigitsOfPair(d[0], d[1]);
      assert Lower(d) == [LowerCase(d[0]), LowerCase(d[1])] + Lower(d[2..]);
    }
  }

  lemma PrintedText(a: seq<byte>, prefix: bool)
    requires a != []
    ensures var text := Prefix(prefix) + Digits(a);
      && |text| + 1 == RequiredLength(|a|, prefix) && Fits(text, |a|, prefix)
      && AllHex(Body(text, prefix)) && Parsed(Body(text, prefix)) == a
  {
    DropPrefix(Prefix(prefix), Digits(a));
    ParsesPrinted(a);
    assert Body(Prefix(prefix) + Digits(a), prefix) == Digits(a);
  }

  /** The round trip through the two routines, for either choice of prefix. */
  method PrintThenParse(a: seq<byte>, prefix: bool) returns (back: array<byte>)
    requires a != [] && 2 * |a| + 3 < TWO_32
    ensures back[..] == a
  {
    var n := RequiredLength(|a|, prefix);
    var text := new byte[n];
    var printed := Print(Some(a), text, n, prefix);
    back := new byte[|a|];
    var chars := Prefix(prefix) + Digits(a);
    assert text[..] == chars + [0];
    PrintedText(a, prefix);
    assert text[..n - 1] == chars;
    JudgedExactly(chars, |a|, prefix);
    var parsed := Parse(Some(text[..n - 1]), back, |a|, prefix);
    assert parsed == Returned(true);
  }

  // ----- the number a text denotes

  function DigitValue(c: byte): nat { Nibble(c) as nat }

  function ByteValue(b: byte): nat { b as nat }

  /** The value of a digit text read in base 16. */
  ghost function Base16(d: seq<byte>): nat {
    if d == [] then 0 else 16 * Base16(d[..|d| - 1]) + DigitValue(d[|d| - 1])
  }

  /** The value of an array read in base 256 with the least significant byte first. */
  ghost function Base256(a: seq<byte>): nat {
    if a == [] then 0 else ByteValue(a[0]) + 256 * Base256(a[1..])
  }

  lemma NibblesOfByte(b: byte)
    ensures ByteValue(b) == 16 * DigitValue(HighDigit(b)) + DigitValue(LowDigit(b))
  {
    assert Nibble(HighDigit(b)) == (b & 0xf0) >> 4 && Nibble(LowDigit(b)) == b & 0x0f;
    assert ((b & 0xf0) >> 4) as int == (b as int) / 16 && (b & 0x0f) as int == (b as int) % 16;
  }

  lemma FrontAndLast<T>(xs: seq<T>, x: T)
    ensures (xs + [x])[..|xs|] == xs && (xs + [x])[|xs|] == x
  {
  }

  lemma Base16Append(d: seq<byte>, hi: byte, lo: byte)
    ensures Base16(d + [hi, lo]) == 256 * Base16(d) + 16 * DigitValue(hi) + DigitValue(lo)
  {
    FrontAndLast(d, hi);
    FrontAndLast(d + [hi], lo);
    assert d + [hi, lo] == (d + [hi]) + [lo];
  }

  /** The printed numeral denotes the array as a little-endian number. */
  lemma {:induction false} NumeralIsArray(a: seq<byte>)
    ensures Base16(Digits(a)) == Base256(a)
  {
    if a != [] {
      NumeralIsArray(a[1..]);
      Base16Append(Digits(a[1..]), HighDigit(a[0]), LowDigit(a[0]));
      NibblesOfByte(a[0]);
    }
  }
}
