/** The UTF-8 / UTF-16 transcoders of language.c: for each direction a length pass and a
    copy pass over a zero-terminated buffer. */
module Transcoding {
  import opened Basics

  /** A UTF-16 code unit: its more and its less significant byte. */
  datatype Unit = Unit(hi: byte, lo: byte)

  /** The `unsigned short` the routines compute with. */
  function Value(u: Unit): bv16 { ((u.hi as bv16) << 8) | (u.lo as bv16) }

  const TERMINATOR := Unit(0, 0)

  datatype ByteOrder = LittleEndian | BigEndian

  // ----- UTF-8 as the decoder walks it

  /** Bytes the decoder steps over for a lead byte. */
  function Width(lead: byte): nat {
    if lead <= 0x7f then 1 else if lead <= 0xdf then 2 else 3
  }

  /** The walk from `i` reaches a zero byte inside the buffer. */
  predicate Walks(s: seq<byte>, i: nat)
    decreases |s| - i
  {
    i < |s| && (s[i] != 0 ==> Walks(s, i + Width(s[i])))
  }

  /** How the middle byte's upper four bits are to be taken: `sbyte & 0x3c >> 2` is what
      the routines say, which groups as `sbyte & (0x3c >> 2)`; `(sbyte & 0x3c) >> 2` is
      what the encoding needs. */
  datatype Grouping = AsWritten | AsNeeded

  function HighOfTwo(fbyte: byte): byte { (fbyte & 0x1c) >> 2 }

  function LowOfTwo(fbyte: byte, sbyte: byte): byte { ((fbyte & 0x03) << 6) | (sbyte & 0x3f) }

  function HighOfThree(fbyte: byte, sbyte: byte, g: Grouping): byte {
    ((fbyte & 0x0f) << 4) | (if g == AsWritten then sbyte & (0x3c >> 2) else (sbyte & 0x3c) >> 2)
  }

  function LowOfThree(sbyte: byte, tbyte: byte): byte { ((sbyte & 0x03) << 6) | (tbyte & 0x3f) }

  /** The unit decoded at `i`. */
  function UnitDecoded(s: seq<byte>, i: nat, g: Grouping): Unit
    requires Walks(s, i) && s[i] != 0
  {
    if s[i] <= 0x7f then Unit(0, s[i])
    else if s[i] <= 0xdf then assert Walks(s, i + 2); Unit(HighOfTwo(s[i]), LowOfTwo(s[i], s[i + 1]))
    else assert Walks(s, i + 3); Unit(HighOfThree(s[i], s[i + 1], g), LowOfThree(s[i + 1], s[i + 2]))
  }

  /** The units that the decoder produces from `i` on. */
  function Decode(s: seq<byte>, i: nat, g: Grouping): seq<Unit>
    requires Walks(s, i)
    decreases |s| - i
  {
    if s[i] == 0 then []
    else [UnitDecoded(s, i, g)] + Decode(s, i + Width(s[i]), g)
  }

  // ----- UTF-16 as bytes

  function Pair(u: Unit, order: ByteOrder): seq<byte> {
    if order == LittleEndian then [u.lo, u.hi] else [u.hi, u.lo]
  }

  function Serialize(us: seq<Unit>, order: ByteOrder): (r: seq<byte>)
    ensures |r| == 2 * |us|
  {
    if us == [] then [] else Pair(us[0], order) + Serialize(us[1..], order)
  }

  /** The unit of the two bytes at `2 * k`, as a little-endian machine loads them and, for
      big-endian text, swaps them. */
  function UnitAt(s: seq<byte>, k: nat, order: ByteOrder): Unit
    requires 2 * k + 1 < |s|
  {
    if order == LittleEndian then Unit(s[2 * k + 1], s[2 * k]) else Unit(s[2 * k], s[2 * k + 1])
  }

  /** The walk from unit `k` reaches a zero unit inside the buffer. */
  predicate UnitsWalk(s: seq<byte>, k: nat, order: ByteOrder)
    decreases |s| - 2 * k
  {
    2 * k + 1 < |s| && (UnitAt(s, k, order) != TERMINATOR ==> UnitsWalk(s, k + 1, order))
  }

  /** The units before the terminator. */
  function Units(s: seq<byte>, k: nat, order: ByteOrder): seq<Unit>
    requires UnitsWalk(s, k, order)
    decreases |s| - 2 * k
  {
    if UnitAt(s, k, order) == TERMINATOR then [] else [UnitAt(s, k, order)] + Units(s, k + 1, order)
  }

  function LeadOfTwo(v: bv16): byte
    requires v < 0x800
  {
    (0xc0 | (v >> 6)) as byte
  }

  function LeadOfThree(v: bv16): byte { (0xe0 | (v >> 12)) as byte }

  function MiddleOfThree(v: bv16): byte { (0x80 | ((v >> 6) & 0x3f)) as byte }

  function Trail(v: bv16): byte { (0x80 | (v & 0x3f)) as byte }

  /** The UTF-8 bytes of one unit. */
  function EncodeUnit(u: Unit): seq<byte> {
    var v := Value(u);
    if v < 0x80 then [u.lo]
    else if v < 0x800 then [LeadOfTwo(v), Trail(v)]
    else [LeadOfThree(v), MiddleOfThree(v), Trail(v)]
  }

  function Encode(us: seq<Unit>): seq<byte> {
    if us == [] then [] else EncodeUnit(us[0]) + Encode(us[1..])
  }

  // ----- the serialisations grow unit by unit

  lemma {:induction false} SerializeAppend(us: seq<Unit>, u: Unit, order: ByteOrder)
    ensures Serialize(us + [u], order) == Serialize(us, order) + Pair(u, order)
  {
    if us == [] {
      assert us + [u] == [u];
    } else {
      SerializeAppend(us[1..], u, order);
      TailOfAppend(us, u);
      Assoc(Pair(us[0], order), Serialize(us[1..], order), Pair(u, order));
    }
  }

  lemma SerializeUpTo(us: seq<Unit>, k: nat, order: ByteOrder)
    requires k < |us|
    ensures Serialize(us[..k + 1], order) == Serialize(us[..k], order) + Pair(us[k], order)
  {
    TakeOneMore(us, k);
    SerializeAppend(us[..k], us[k], order);
  }

  lemma {:induction false} EncodeAppend(us: seq<Unit>, u: Unit)
    ensures Encode(us + [u]) == Encode(us) + EncodeUnit(u)
  {
    if us == [] {
      assert us + [u] == [u];
    } else {
      EncodeAppend(us[1..], u);
      TailOfAppend(us, u);
      Assoc(EncodeUnit(us[0]), Encode(us[1..]), EncodeUnit(u));
    }
  }

  lemma DecodeStep(s: seq<byte>, i: nat, us: seq<Unit>, k: nat)
    requires Walks(s, i) && s[i] != 0 && k <= |us| && Decode(s, i, AsWritten) == us[k..]
    ensures k < |us| && us[k] == UnitDecoded(s, i, AsWritten)
    ensures Decode(s, i + Width(s[i]), AsWritten) == us[k + 1..]
  {
    TakeOneMore(us, k);
  }

  lemma UnitsStep(s: seq<byte>, k: nat, us: seq<Unit>, order: ByteOrder)
    requires UnitsWalk(s, k, order) && UnitAt(s, k, order) != TERMINATOR && k <= |us| && Units(s, k, order) == us[k..]
    ensures k < |us| && us[k] == UnitAt(s, k, order) && Units(s, k + 1, order) == us[k + 1..]
    ensures us[..k + 1] == us[..k] + [us[k]]
    ensures Encode(us[..k + 1]) == Encode(us[..k]) + EncodeUnit(us[k])
  {
    TakeOneMore(us, k);
    EncodeAppend(us[..k], us[k]);
  }

  lemma {:induction false} EncodedGrows(us: seq<Unit>, k: nat)
    requires k <= |us|
    ensures |Encode(us[..k])| <= |Encode(us)|
    decreases |us| - k
  {
    if k < |us| {
      TakeOneMore(us, k);
      EncodeAppend(us[..k], us[k]);
      EncodedGrows(us, k + 1);
    } else {
      assert us[..k] == us;
    }
  }

  /** Puts two bytes, less significant first for little-endian text. */
  method Put(out: array<byte>, o: nat, hi: byte, lo: byte, order: ByteOrder)
    requires o + 2 <= out.Length
    modifies out
    ensures out[..] == old(out[..])[..o] + Pair(Unit(hi, lo), order) + old(out[..])[o + 2..]
  {
    if order == LittleEndian {
      out[o], out[o + 1] := lo, hi;
    } else {
      out[o], out[o + 1] := hi, lo;
    }
  }

  /** Puts the terminator. */
  method PutZero(out: array<byte>, o: nat, ghost done: seq<byte>, ghost was: seq<byte>)
    requires o == |done| && o + 2 <= out.Length && Filled(out[..], done, was)
    modifies out
    ensures Filled(out[..], done + [0, 0], was)
  {
    FillOn(out[..], done, [0, 0], was);
    ghost var now := out[..];
    out[o], out[o + 1] := 0, 0;
    assert out[..] == now[..o] + [0, 0] + now[o + 2..];
  }

  // ----- UTF-8 to UTF-16

  /** What the length pass returns for `n` units: two bytes each and two for the
      terminator, but 0 for none, in 32 bits. */
  function Utf16Length(n: nat): nat {
    var len := n % TWO_32;
    if len > 0 then Add32(Add32(len, len), 2) else 0
  }

  method Utf8ToUtf16Length(utf8: Option<seq<byte>>) returns (len: nat)
    requires utf8.Some? ==> Walks(utf8.value, 0)
    ensures len == if utf8.None? then 0 else Utf16Length(|Decode(utf8.value, 0, AsWritten)|)
  {
    len := 0;
    if utf8.Some? {
      var s, i := utf8.value, 0;
      ghost var n := 0;
      while s[i] != 0
        invariant Walks(s, i)
        invariant n + |Decode(s, i, AsWritten)| == |Decode(s, 0, AsWritten)| && len == n % TWO_32
        decreases |s| - i
      {
        i := i + (if s[i] <= 0x7f then 1 else if s[i] <= 0xdf then 2 else 3);
        Add32Mod(n, 1);
        len, n := Add32(len, 1), n + 1;
      }
    }
    if len > 0 {
      len := Add32(len, len);
      len := Add32(len, 2);
    }
  }

  /** Reads the bytes of one unit, the `k`-th of `us`, and moves on. */
  method Take(s: seq<byte>, i: nat, ghost us: seq<Unit>, ghost k: nat) returns (hi: byte, lo: byte, next: nat)
    requires Walks(s, i) && s[i] != 0 && k <= |us| && Decode(s, i, AsWritten) == us[k..]
    ensures k < |us| && us[k] == Unit(hi, lo)
    ensures i < next && Walks(s, next) && Decode(s, next, AsWritten) == us[k + 1..]
  {
    DecodeStep(s, i, us, k);
    if s[i] <= 0x7f {
      return 0, s[i], i + 1;
    } else if s[i] <= 0xdf {
      assert Walks(s, i + 2);
      var fbyte, sbyte := s[i], s[i + 1];
      return HighOfTwo(fbyte), LowOfTwo(fbyte, sbyte), i + 2;
    } else {
      assert Walks(s, i + 3);
      var fbyte, sbyte, tbyte := s[i], s[i + 1], s[i + 2];
      return HighOfThree(fbyte, sbyte, AsWritten), LowOfThree(sbyte, tbyte), i + 3;
    }
  }

  /** The copying loop has decoded `k` units, is at `i`, and has written them up to `o`. */
  ghost predicate UnitsWritten(s: seq<byte>, i: nat, k: nat, us: seq<Unit>, o: nat,
                               now: seq<byte>, was: seq<byte>, order: ByteOrder)
  {
    && Walks(s, i) && k <= |us| && 2 * |us| <= |was|
    && Decode(s, i, AsWritten) == us[k..]
    && o == 2 * k && Filled(now, Serialize(us[..k], order), was)
  }

  lemma UnitsWrittenOn(s: seq<byte>, i: nat, k: nat, us: seq<Unit>, o: nat,
                       now: seq<byte>, was: seq<byte>, order: ByteOrder,
                       next: nat, now': seq<byte>)
    requires UnitsWritten(s, i, k, us, o, now, was, order) && k < |us|
    requires Walks(s, next) && Decode(s, next, AsWritten) == us[k + 1..]
    requires now' == now[..o] + Pair(us[k], order) + now[o + 2..]
    ensures UnitsWritten(s, next, k + 1, us, o + 2, now', was, order)
  {
    FillOn(now, Serialize(us[..k], order), Pair(us[k], order), was);
    SerializeUpTo(us, k, order);
  }

  /** The copying loop. */
  method WriteUnits(s: seq<byte>, out: array<byte>, order: ByteOrder) returns (o: nat)
    requires Walks(s, 0) && out.Length >= 2 * |Decode(s, 0, AsWritten)|
    modifies out
    ensures o == 2 * |Decode(s, 0, AsWritten)|
    ensures Filled(out[..], Serialize(Decode(s, 0, AsWritten), order), old(out[..]))
  {
    var i := 0;
    o := 0;
    ghost var was, us, k := out[..], Decode(s, 0, AsWritten), 0;
    FillNone(was);
    while s[i] != 0
      invariant UnitsWritten(s, i, k, us, o, out[..], was, order)
      decreases |s| - i
    {
      ghost var at, now := i, out[..];
      var hi, lo;
      hi, lo, i := Take(s, i, us, k);
      Put(out, o, hi, lo, order);
      UnitsWrittenOn(s, at, k, us, o, now, was, order, i, out[..]);
      o, k := o + 2, k + 1;
    }
    assert us[..k] == us;
  }

  method WriteUtf16(s: seq<byte>, out: array<byte>, order: ByteOrder)
    requires Walks(s, 0) && out.Length >= 2 * |Decode(s, 0, AsWritten)| + 2
    modifies out
    ensures Filled(out[..], Serialize(Decode(s, 0, AsWritten), order) + [0, 0], old(out[..]))
  {
    ghost var was := out[..];
    var o := WriteUnits(s, out, order);
    PutZero(out, o, Serialize(Decode(s, 0, AsWritten), order), was);
  }

  method Utf8ToUtf16Copy(utf8: Option<seq<byte>>, utf16: array?<byte>, utf16Length: nat, order: ByteOrder)
    returns (outcome: Outcome)
    requires utf8.Some? ==> Walks(utf8.value, 0)
    modifies if utf16 == null then {} else {utf16}
    ensures var us := if utf8.None? then [] else Decode(utf8.value, 0, AsWritten);
      && (outcome == Returned(false) <==>
            utf8.None? || utf16 == null || (utf16Length > 0 && utf16Length != Utf16Length(|us|)))
      && (outcome == Undefined ==> 2 * |us| + 2 > utf16.Length)
      && (outcome == Returned(true) ==> Filled(utf16[..], Serialize(us, order) + [0, 0], old(utf16[..])))
    ensures outcome == Returned(false) && utf16 != null ==> utf16[..] == old(utf16[..])
  {
    if utf8.None? || utf16 == null {
      return Returned(false);
    }
    if utf16Length > 0 {
      var need := Utf8ToUtf16Length(utf8);
      if need != utf16Length {
        return Returned(false);
      }
    }
    if 2 * |Decode(utf8.value, 0, AsWritten)| + 2 > utf16.Length {
      return Undefined;   // the loop stores past the end
    }
    WriteUtf16(utf8.value, utf16, order);
    return Returned(true);
  }

  /** Makes a buffer of the announced length and copies into it without stating a length; no
      buffer if the announced length is 0. */
  method Utf8ToUtf16(utf8: Option<seq<byte>>, order: ByteOrder) returns (out: array?<byte>, outcome: Outcome)
    requires utf8.Some? ==> Walks(utf8.value, 0)
    ensures var us := if utf8.None? then [] else Decode(utf8.value, 0, AsWritten);
      && (out == null <==> utf8.None? || Utf16Length(|us|) == 0)
      && (out != null ==> fresh(out) && out.Length == Utf16Length(|us|))
      && (out != null ==> outcome != Returned(false) && (outcome == Undefined <==> 2 * |us| + 2 >= TWO_32))
      && (out != null && outcome == Returned(true) ==> out[..] == Serialize(us, order) + [0, 0])
      && (us != [] && 2 * |us| + 2 < TWO_32 ==> out != null && outcome == Returned(true))
  {
    var len := Utf8ToUtf16Length(utf8);
    if len <= 0 {
      return null, Returned(false);
    }
    LengthOf(|Decode(utf8.value, 0, AsWritten)|);
    var buffer := new byte[len];
    outcome := Utf8ToUtf16Copy(utf8, buffer, 0, order);
    return buffer, outcome;
  }

  /** What the announced length comes to. */
  lemma LengthOf(n: nat)
    ensures Utf16Length(n) == if n % TWO_32 == 0 then 0 else (2 * n + 2) % TWO_32
    ensures 2 * n + 2 < TWO_32 && n > 0 ==> Utf16Length(n) == 2 * n + 2
    ensures 2 * n + 2 >= TWO_32 ==> Utf16Length(n) < 2 * n + 2
  {
    Add32Mod(n, n % TWO_32);
    Add32Mod(n, n);
    Add32Mod(2 * n, 2);
  }

  // ----- UTF-16 to UTF-8

  function EncodedWidth(u: Unit): (w: nat)
    ensures w == |EncodeUnit(u)|
  {
    if Value(u) < 128 then 1 else if Value(u) < 0x800 then 2 else 3
  }

  method Utf16ToUtf8Length(utf16: Option<seq<byte>>, order: ByteOrder) returns (len: nat)
    requires utf16.Some? ==> UnitsWalk(utf16.value, 0, order)
    ensures len == if utf16.None? then 0 else |Encode(Units(utf16.value, 0, order))| % TWO_32
  {
    len := 0;
    if utf16.None? {
      return 0;
    }
    var s, k := utf16.value, 0;
    ghost var us := Units(s, 0, order);
    var u := UnitAt(s, 0, order);
    while u != TERMINATOR
      invariant UnitsWalk(s, k, order) && u == UnitAt(s, k, order) && k <= |us|
      invariant Units(s, k, order) == us[k..]
      invariant len == |Encode(us[..k])| % TWO_32
      decreases |s| - 2 * k
    {
      UnitsStep(s, k, us, order);
      Add32Mod(|Encode(us[..k])|, |EncodeUnit(u)|);
      len := Add32(len, EncodedWidth(u));
      k := k + 1;
      u := UnitAt(s, k, order);
    }
    assert us[..k] == us;
  }

  /** Puts the UTF-8 bytes of one unit. */
  method PutEncoded(out: array<byte>, o: nat, u: Unit) returns (next: nat)
    requires o + |EncodeUnit(u)| <= out.Length
    modifies out
    ensures next == o + |EncodeUnit(u)|
    ensures out[..] == old(out[..])[..o] + EncodeUnit(u) + old(out[..])[next..]
  {
    var v := Value(u);
    if v < 128 {
      out[o] := u.lo;
      return o + 1;
    } else if v < 0x800 {
      out[o], out[o + 1] := LeadOfTwo(v), Trail(v);
      return o + 2;
    } else {
      out[o], out[o + 1], out[o + 2] := LeadOfThree(v), MiddleOfThree(v), Trail(v);
      return o + 3;
    }
  }

  /** The copying loop has encoded `k` units and written them up to `o`. */
  ghost predicate BytesWritten(s: seq<byte>, k: nat, us: seq<Unit>, o: nat,
                               now: seq<byte>, was: seq<byte>, order: ByteOrder)
  {
    && UnitsWalk(s, k, order) && k <= |us| && |Encode(us)| <= |was|
    && Units(s, k, order) == us[k..]
    && o == |Encode(us[..k])| <= |was|
    && Filled(now, Encode(us[..k]), was)
  }

  lemma RoomForNext(s: seq<byte>, k: nat, us: seq<Unit>, o: nat, now: seq<byte>, was: seq<byte>, order: ByteOrder)
    requires BytesWritten(s, k, us, o, now, was, order) && UnitAt(s, k, order) != TERMINATOR
    ensures k < |us| && us[k] == UnitAt(s, k, order) && o + |EncodeUnit(us[k])| <= |now|
  {
    UnitsStep(s, k, us, order);
    EncodedGrows(us, k + 1);
  }

  lemma BytesWrittenOn(s: seq<byte>, k: nat, us: seq<Unit>, o: nat, now: seq<byte>, was: seq<byte>, order: ByteOrder,
                       next: nat, now': seq<byte>)
    requires BytesWritten(s, k, us, o, now, was, order) && UnitAt(s, k, order) != TERMINATOR && k < |us|
    requires next == o + |EncodeUnit(us[k])| <= |now| && now' == now[..o] + EncodeUnit(us[k]) + now[next..]
    ensures BytesWritten(s, k + 1, us, next, now', was, order)
  {
    UnitsStep(s, k, us, order);
    FillOn(now, Encode(us[..k]), EncodeUnit(us[k]), was);
  }

  /** The copying loop. */
  method WriteUtf8(s: seq<byte>, out: array<byte>, order: ByteOrder)
    requires UnitsWalk(s, 0, order) && out.Length >= |Encode(Units(s, 0, order))|
    modifies out
    ensures Filled(out[..], Encode(Units(s, 0, order)), old(out[..]))
  {
    var k, o := 0, 0;
    ghost var was, us := out[..], Units(s, 0, order);
    FillNone(was);
    while UnitAt(s, k, order) != TERMINATOR
      invariant BytesWritten(s, k, us, o, out[..], was, order)
      decreases |s| - 2 * k
    {
      ghost var at, now := o, out[..];
      RoomForNext(s, k, us, o, now, was, order);
      o := PutEncoded(out, o, UnitAt(s, k, order));
      BytesWrittenOn(s, k, us, at, now, was, order, o, out[..]);
      k := k + 1;
    }
    assert us[..k] == us;
  }

  method Utf16ToUtf8Copy(utf16: Option<seq<byte>>, utf8: array?<byte>, utf8Length: nat, order: ByteOrder)
    returns (outcome: Outcome)
    requires utf16.Some? ==> UnitsWalk(utf16.value, 0, order)
    modifies if utf8 == null then {} else {utf8}
    ensures var x := if utf16.None? then [] else Encode(Units(utf16.value, 0, order));
      && (outcome == Returned(false) <==>
            utf16.None? || utf8 == null || (utf8Length > 0 && utf8Length != |x| % TWO_32))
      && (outcome == Undefined ==> |x| > utf8.Length)
      && (outcome == Returned(true) ==> Filled(utf8[..], x, old(utf8[..])))
    ensures outcome == Returned(false) && utf8 != null ==> utf8[..] == old(utf8[..])
  {
    if utf16.None? || utf8 == null {
      return Returned(false);
    }
    if utf8Length > 0 {
      var need := Utf16ToUtf8Length(utf16, order);
      if need != utf8Length {
        return Returned(false);
      }
    }
    if |Encode(Units(utf16.value, 0, order))| > utf8.Length {
      return Undefined;   // the loop stores past the end
    }
    WriteUtf8(utf16.value, utf8, order);
    return Returned(true);
  }

  /** Makes a buffer of the announced length and copies into it without stating a length; no
      buffer if the announced length is 0. */
  method Utf16ToUtf8(utf16: Option<seq<byte>>, order: ByteOrder) returns (out: array?<byte>, outcome: Outcome)
    requires utf16.Some? ==> UnitsWalk(utf16.value, 0, order)
    ensures var x := if utf16.None? then [] else Encode(Units(utf16.value, 0, order));
      && (out == null <==> |x| % TWO_32 == 0)
      && (out != null ==> fresh(out) && out.Length == |x| % TWO_32)
      && (out != null ==> outcome != Returned(false) && (outcome == Undefined <==> |x| >= TWO_32))
      && (out != null && outcome == Returned(true) ==> out[..] == x)
      && (x != [] && |x| < TWO_32 ==> out != null && outcome == Returned(true))
  {
    var len := Utf16ToUtf8Length(utf16, order);
    if len <= 0 {
      return null, Returned(false);
    }
    var buffer := new byte[len];
    outcome := Utf16ToUtf8Copy(utf16, buffer, 0, order);
    return buffer, outcome;
  }
}
