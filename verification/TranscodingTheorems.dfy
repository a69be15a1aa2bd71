/** What the transcoders of language.c promise together. */
module TranscodingTheorems {
  import opened Basics
  import opened Transcoding

  // ----- the two passes agree

  /** Into UTF-16, the length pass announces exactly the bytes the copy pass writes (units
      and terminator) when there is at least one unit and the number fits 32 bits; for no
      units it announces 0 although the terminator is written. */
  lemma TwoPassesAgreeUtf16(us: seq<Unit>, order: ByteOrder)
    ensures Utf16Length(|us|) == |Serialize(us, order) + [0, 0]| <==> us != [] && 2 * |us| + 2 < TWO_32
  {
    LengthOf(|us|);
  }

  // ----- what the check of a given length is worth

  /** A given length, if it is the announced one, stands for enough room. */
  predicate Protects(announced: nat, needed: nat) {
    announced > 0 ==> needed <= announced
  }

  /** Into UTF-16, the check keeps the copy pass inside a destination of the given length
      exactly when the bytes needed fit 32 bits or the announced length wraps to 0. */
  lemma ProtectsUtf16(n: nat)
    ensures Protects(Utf16Length(n), 2 * n + 2) <==> 2 * n + 2 < TWO_32 || n % TWO_32 == 0 || (2 * n + 2) % TWO_32 == 0
  {
    LengthOf(n);
  }

  /** Into UTF-8 likewise. */
  lemma ProtectsUtf8(needed: nat)
    ensures Protects(needed % TWO_32, needed) <==> needed < TWO_32 || needed % TWO_32 == 0
  {
  }

  // ----- byte order

  /** The two bytes of every unit exchanged. */
  function SwapPairs(s: seq<byte>): (r: seq<byte>)
    ensures |r| == |s|
  {
    if |s| < 2 then s else [s[1], s[0]] + SwapPairs(s[2..])
  }

  /** The big-endian output is the little-endian output with the bytes of each unit exchanged. */
  lemma {:induction false} BigEndianIsSwapped(us: seq<Unit>)
    ensures Serialize(us, BigEndian) == SwapPairs(Serialize(us, LittleEndian))
  {
    if us != [] {
      BigEndianIsSwapped(us[1..]);
      var s := Serialize(us, LittleEndian);
      DropPrefix(Pair(us[0], LittleEndian), Serialize(us[1..], LittleEndian));
      assert s[2..] == Serialize(us[1..], LittleEndian);
    }
  }

  lemma {:induction false} SwappedAt(s: seq<byte>, k: nat)
    requires 2 * k + 1 < |s|
    ensures SwapPairs(s)[2 * k] == s[2 * k + 1] && SwapPairs(s)[2 * k + 1] == s[2 * k]
    decreases k
  {
    if k > 0 {
      SwappedAt(s[2..], k - 1);
    }
  }

  /** Reading big-endian text is reading the little-endian text with each pair exchanged. */
  lemma {:induction false} ReadsSwapped(s: seq<byte>, k: nat)
    ensures UnitsWalk(SwapPairs(s), k, BigEndian) <==> UnitsWalk(s, k, LittleEndian)
    ensures UnitsWalk(s, k, LittleEndian) ==> Units(SwapPairs(s), k, BigEndian) == Units(s, k, LittleEndian)
    decreases |s| - 2 * k
  {
    if 2 * k + 1 < |s| {
      SwappedAt(s, k);
      ReadsSwapped(s, k + 1);
    }
  }

  // ----- UTF-16 text as bytes and back

  predicate NoTerminator(us: seq<Unit>) { TERMINATOR !in us }

  lemma {:induction false} UnitsShift(a: seq<byte>, b: seq<byte>, k: nat, order: ByteOrder)
    requires |a| == 2
    ensures UnitsWalk(a + b, k + 1, order) <==> UnitsWalk(b, k, order)
    ensures UnitsWalk(b, k, order) ==> Units(a + b, k + 1, order) == Units(b, k, order)
    decreases |b| - 2 * k
  {
    if 2 * k + 1 < |b| {
      assert UnitAt(a + b, k + 1, order) == UnitAt(b, k, order);
      UnitsShift(a, b, k + 1, order);
    }
  }

  lemma {:induction false} SerializedReadsBack(us: seq<Unit>, order: ByteOrder)
    requires NoTerminator(us)
    ensures UnitsWalk(Serialize(us, order) + [0, 0], 0, order)
    ensures Units(Serialize(us, order) + [0, 0], 0, order) == us
  {
    var s := Serialize(us, order) + [0, 0];
    if us == [] {
      assert UnitAt(s, 0, order) == TERMINATOR;
    } else {
      SerializedReadsBack(us[1..], order);
      Assoc(Pair(us[0], order), Serialize(us[1..], order), [0, 0]);
      UnitsShift(Pair(us[0], order), Serialize(us[1..], order) + [0, 0], 0, order);
      assert UnitAt(s, 0, order) == us[0];
    }
  }

  // ----- UTF-16 to UTF-8 and back

  /** What the decoder makes of the encoding of one unit. */
  function Returned(u: Unit, g: Grouping): Unit {
    var v := Value(u);
    if v < 0x80 then Unit(0, u.lo)
    else if v < 0x800 then Unit(HighOfTwo(LeadOfTwo(v)), LowOfTwo(LeadOfTwo(v), Trail(v)))
    else Unit(HighOfThree(LeadOfThree(v), MiddleOfThree(v), g), LowOfThree(MiddleOfThree(v), Trail(v)))
  }

  function AllReturned(us: seq<Unit>, g: Grouping): (r: seq<Unit>)
    ensures |r| == |us|
  {
    if us == [] then [] else [Returned(us[0], g)] + AllReturned(us[1..], g)
  }

  lemma {:induction false} DecodeShift(a: seq<byte>, b: seq<byte>, i: nat, g: Grouping)
    ensures Walks(a + b, |a| + i) <==> Walks(b, i)
    ensures Walks(b, i) ==> Decode(a + b, |a| + i, g) == Decode(b, i, g)
    decreases |b| - i
  {
    if i < |b| && b[i] != 0 {
      DecodeShift(a, b, i + Width(b[i]), g);
    }
  }

  /** The lead byte of an encoded unit is not zero and announces its width. */
  lemma LeadAnnounces(u: Unit)
    requires u != TERMINATOR
    ensures EncodeUnit(u)[0] != 0 && Width(EncodeUnit(u)[0]) == |EncodeUnit(u)|
  {
  }

  lemma {:induction false} DecodesEncoded(us: seq<Unit>, g: Grouping)
    requires NoTerminator(us)
    ensures Walks(Encode(us) + [0], 0) && Decode(Encode(us) + [0], 0, g) == AllReturned(us, g)
  {
    var s := Encode(us) + [0];
    if us != [] {
      DecodesEncoded(us[1..], g);
      var x := EncodeUnit(us[0]);
      Assoc(x, Encode(us[1..]), [0]);
      DecodeShift(x, Encode(us[1..]) + [0], 0, g);
      LeadAnnounces(us[0]);
      assert s[0] == x[0];
      assert UnitDecoded(s, 0, g) == Returned(us[0], g);
    }
  }

  /** The units that survive the round trip through the routines as written: those below
      0x800, and of the others those whose middle six bits repeat a two-bit pattern. */
  predicate Survives(u: Unit) {
    Value(u) < 0x800 || (Value(u) >> 6) & 0x3f in {0, 21, 42, 63}
  }

  predicate AllSurvive(us: seq<Unit>) {
    forall k :: 0 <= k < |us| ==> Survives(us[k])
  }

  lemma TwoReturned(u: Unit)
    requires 0x80 <= Value(u) < 0x800
    ensures HighOfTwo(LeadOfTwo(Value(u))) == u.hi && LowOfTwo(LeadOfTwo(Value(u)), Trail(Value(u))) == u.lo
  {
  }

  lemma ThreeReturned(u: Unit)
    ensures LowOfThree(MiddleOfThree(Value(u)), Trail(Value(u))) == u.lo
    ensures HighOfThree(LeadOfThree(Value(u)), MiddleOfThree(Value(u)), AsNeeded) == u.hi
  {
  }

  lemma ThreeReturnedAsWritten(u: Unit)
    ensures HighOfThree(LeadOfThree(Value(u)), MiddleOfThree(Value(u)), AsWritten) == u.hi
      <==> (Value(u) >> 6) & 0x3f in {0, 21, 42, 63}
  {
  }

  lemma ReturnedExactly(u: Unit)
    ensures Returned(u, AsWritten) == u <==> Survives(u)
    ensures Returned(u, AsNeeded) == u
  {
    if Value(u) < 0x80 {
      assert u.hi == 0;
    } else if Value(u) < 0x800 {
      TwoReturned(u);
    } else {
      ThreeReturned(u);
      ThreeReturnedAsWritten(u);
    }
  }

  lemma {:induction false} AllReturnedExactly(us: seq<Unit>)
    ensures AllReturned(us, AsWritten) == us <==> AllSurvive(us)
    ensures AllReturned(us, AsNeeded) == us
  {
    if us != [] {
      ReturnedExactly(us[0]);
      AllReturnedExactly(us[1..]);
      assert us == [us[0]] + us[1..];
    }
  }

  /** Transcoding UTF-16 text (either byte order) to UTF-8 and back gives the text again
      exactly when every unit survives; so always for units below 0x800. */
  lemma RoundTripExactly(us: seq<Unit>, order: ByteOrder)
    requires NoTerminator(us)
    ensures var text := Serialize(us, order) + [0, 0];
      && UnitsWalk(text, 0, order)
      && var utf8 := Encode(Units(text, 0, order)) + [0];
      && Walks(utf8, 0)
      && (Serialize(Decode(utf8, 0, AsWritten), order) + [0, 0] == text <==> AllSurvive(us))
      && Serialize(Decode(utf8, 0, AsNeeded), order) + [0, 0] == text
  {
    SerializedReadsBack(us, order);
    DecodesEncoded(us, AsWritten);
    DecodesEncoded(us, AsNeeded);
    AllReturnedExactly(us);
    var back := AllReturned(us, AsWritten);
    if Serialize(back, order) + [0, 0] == Serialize(us, order) + [0, 0] {
      SameFront(Serialize(back, order), Serialize(us, order), [0, 0]);
      SerializeInjective(back, us, order);
    }
  }

  lemma SameFront<T>(a: seq<T>, b: seq<T>, c: seq<T>)
    requires a + c == b + c
    ensures a == b
  {
    assert |a| == |b|;
    assert a == (a + c)[..|a|] == (b + c)[..|a|] == b;
  }

  lemma {:induction false} SerializeInjective(us: seq<Unit>, vs: seq<Unit>, order: ByteOrder)
    requires Serialize(us, order) == Serialize(vs, order)
    ensures us == vs
  {
    if us != [] && vs != [] {
      var s := Serialize(us, order);
      DropPrefix(Pair(us[0], order), Serialize(us[1..], order));
      DropPrefix(Pair(vs[0], order), Serialize(vs[1..], order));
      SerializeInjective(us[1..], vs[1..], order);
      assert s[0] == Pair(us[0], order)[0] && s[0] == Pair(vs[0], order)[0];
      assert s[1] == Pair(us[0], order)[1] && s[1] == Pair(vs[0], order)[1];
      assert us == [us[0]] + us[1..] && vs == [vs[0]] + vs[1..];
    }
  }

  /** The Euro sign, U+20AC, comes back as U+22AC. */
  lemma EuroSignIsLost()
    ensures !Survives(Unit(0x20, 0xac))
    ensures Returned(Unit(0x20, 0xac), AsWritten) == Unit(0x22, 0xac)
    ensures EncodeUnit(Unit(0x20, 0xac)) == [0xe2, 0x82, 0xac]
  {
    assert Value(Unit(0x20, 0xac)) == 0x20ac;
  }

  /** Section 3 of RFC 3629: two bytes are 110xxxxx 10xxxxxx, three are 1110xxxx 10xxxxxx
      10xxxxxx, and the bits x are those of the number. */
  predicate TwoBytesFor(v: bv16, x: byte, y: byte) {
    && x & 0xe0 == 0xc0 && y & 0xc0 == 0x80
    && v == ((x as bv16 & 0x1f) << 6) | (y as bv16 & 0x3f)
  }

  predicate ThreeBytesFor(v: bv16, x: byte, y: byte, z: byte) {
    && x & 0xf0 == 0xe0 && y & 0xc0 == 0x80 && z & 0xc0 == 0x80
    && v == ((x as bv16 & 0x0f) << 12) | ((y as bv16 & 0x3f) << 6) | (z as bv16 & 0x3f)
  }

  lemma TwoBytesRight(v: bv16)
    requires v < 0x800
    ensures TwoBytesFor(v, LeadOfTwo(v), Trail(v))
  {
  }

  lemma ThreeBytesRight(v: bv16)
    ensures ThreeBytesFor(v, LeadOfThree(v), MiddleOfThree(v), Trail(v))
  {
  }

  /** The encoding of a unit is that of RFC 3629, and the shortest there is. */
  lemma EncodesAsRfc3629(u: Unit)
    ensures var v, x := Value(u), EncodeUnit(u);
      match |x|
      case 1 => v < 0x80 && u == Unit(0, x[0])
      case 2 => 0x80 <= v < 0x800 && TwoBytesFor(v, x[0], x[1])
      case _ => |x| == 3 && 0x800 <= v && ThreeBytesFor(v, x[0], x[1], x[2])
  {
    var v := Value(u);
    if v < 0x80 {
      assert u.hi == 0;
    } else if v < 0x800 {
      TwoBytesRight(v);
    } else {
      ThreeBytesRight(v);
    }
  }

  // ----- what the bits of the bytes mean

  /** Little-endian text has the less significant byte of a unit first, big-endian text the
      other (sections 2 and 3 of RFC 2781). */
  lemma ByteOrders(u: Unit)
    ensures Serialize([u], LittleEndian) == [(Value(u) & 0xff) as byte, (Value(u) >> 8) as byte]
    ensures Serialize([u], BigEndian) == [(Value(u) >> 8) as byte, (Value(u) & 0xff) as byte]
  {
    ValueBytes(u);
    assert [u][1..] == [];
    assert Serialize([u], LittleEndian) == Pair(u, LittleEndian);
    assert Serialize([u], BigEndian) == Pair(u, BigEndian);
  }

  lemma ValueBytes(u: Unit)
    ensures (Value(u) & 0xff) as byte == u.lo && (Value(u) >> 8) as byte == u.hi
  {
  }

  /** Whatever the two bytes are, they decode to the number that section 3 of RFC 3629 reads
      in them. */
  lemma TwoBytesMean(f: byte, m: byte)
    ensures Value(Unit(HighOfTwo(f), LowOfTwo(f, m))) == ((f as bv16 & 0x1f) << 6) | (m as bv16 & 0x3f)
  {
  }

  /** With the needed grouping so do three; as written, bits 2 to 5 of the middle byte are
      replaced by its bits 0 to 3. */
  lemma ThreeBytesMean(f: byte, m: byte, t: byte)
    ensures Value(Unit(HighOfThree(f, m, AsNeeded), LowOfThree(m, t)))
      == ((f as bv16 & 0x0f) << 12) | ((m as bv16 & 0x3f) << 6) | (t as bv16 & 0x3f)
    ensures Value(Unit(HighOfThree(f, m, AsWritten), LowOfThree(m, t)))
      == ((f as bv16 & 0x0f) << 12) | ((m as bv16 & 0x0f) << 8) | ((m as bv16 & 0x03) << 6) | (t as bv16 & 0x3f)
  {
  }

  /** A character of four bytes is stepped over as three and one more that takes the byte
      behind it along: at the end of a text the decoder passes over the terminator. */
  lemma FourBytesPassTheEnd(text: seq<byte>, i: nat)
    requires i + 5 == |text| && text[i] >= 0xf0 && 0x80 <= text[i + 3] <= 0xbf && text[i + 4] == 0
    ensures !Walks(text, i)
  {
    assert !Walks(text, i + 5);
    assert !Walks(text, i + 3);
  }

  // ----- the end of UTF-8 output

  lemma {:induction false} UnitsHaveNoTerminator(s: seq<byte>, k: nat, order: ByteOrder)
    requires UnitsWalk(s, k, order)
    ensures NoTerminator(Units(s, k, order))
    decreases |s| - 2 * k
  {
    if UnitAt(s, k, order) != TERMINATOR { UnitsHaveNoTerminator(s, k + 1, order); }
  }

  lemma NoZeroInUnit(u: Unit)
    requires u != TERMINATOR
    ensures 0 !in EncodeUnit(u)
  {
    var v := Value(u);
    if v < 0x80 {
      assert u.hi == 0;
    } else if v >= 0x800 {
      ThreeBytesRight(v);
    } else {
      TwoBytesRight(v);
    }
  }

  lemma {:induction false} NoZeroInEncoding(us: seq<Unit>)
    requires NoTerminator(us)
    ensures 0 !in Encode(us)
  {
    if us != [] {
      NoZeroInUnit(us[0]);
      NoZeroInEncoding(us[1..]);
    }
  }

  /** Where a reader finds the end of the text in a buffer: its first zero byte. */
  function ReadTo(buffer: seq<byte>): nat { First(buffer, (b: byte) => b == 0) }

  /** What the copy into UTF-8 leaves in the destination, which held `was`: a reader never
      ends inside the text, and ends right behind it exactly when the destination has a byte
      there and it was zero before.  So a destination of just the announced length has no
      end. */
  lemma EndsExactly(s: seq<byte>, order: ByteOrder, was: seq<byte>, now: seq<byte>)
    requires UnitsWalk(s, 0, order) && Filled(now, Encode(Units(s, 0, order)), was)
    ensures var n := |Encode(Units(s, 0, order))|;
      && n <= ReadTo(now)
      && (n < |now| && ReadTo(now) == n <==> n < |was| && was[n] == 0)
      && (|was| == n ==> 0 !in now)
  {
    var us := Units(s, 0, order);
    UnitsHaveNoTerminator(s, 0, order);
    NoZeroInEncoding(us);
    EndBehind(now, Encode(us), was);
  }

  lemma EndBehind(now: seq<byte>, text: seq<byte>, was: seq<byte>)
    requires Filled(now, text, was) && 0 !in text
    ensures |text| <= ReadTo(now)
    ensures |text| < |now| && ReadTo(now) == |text| <==> |text| < |was| && was[|text|] == 0
    ensures |was| == |text| ==> 0 !in now
  {
    forall j | 0 <= j < |text| ensures now[j] != 0 {
      assert now[j] == text[j];
    }
    assert |text| < |was| ==> now[|text|] == was[|text|];
    if |was| == |text| {
      assert now == text;
    }
  }

  // ----- UTF-8 to UTF-16 and back

  /** The sequence at `i` is in the shortest form of RFC 3629, section 4 (surrogates let
      through). */
  predicate ShortestAt(s: seq<byte>, i: nat)
    requires Walks(s, i) && s[i] != 0
  {
    if s[i] <= 0x7f then true
    else if s[i] <= 0xdf then assert Walks(s, i + 2); s[i] >= 0xc2 && s[i + 1] & 0xc0 == 0x80
    else assert Walks(s, i + 3); ShortestThree(s[i], s[i + 1], s[i + 2])
  }

  predicate ShortestThree(f: byte, m: byte, t: byte) {
    0xe0 <= f <= 0xef && m & 0xc0 == 0x80 && t & 0xc0 == 0x80 && (f == 0xe0 ==> m >= 0xa0)
  }

  /** All sequences up to the terminator are in shortest form. */
  predicate Shortest(s: seq<byte>, i: nat)
    requires Walks(s, i)
    decreases |s| - i
  {
    s[i] == 0 || (ShortestAt(s, i) && Shortest(s, i + Width(s[i])))
  }

  /** The six bits of a middle byte repeat a two-bit pattern. */
  predicate Repeats(m: byte) { m & 0x3f in {0, 21, 42, 63} }

  /** The middle byte, if the sequence at `i` has three. */
  predicate RepeatsAt(s: seq<byte>, i: nat)
    requires Walks(s, i) && s[i] != 0
  {
    s[i] > 0xdf ==> assert Walks(s, i + 3); Repeats(s[i + 1])
  }

  predicate MiddlesRepeat(s: seq<byte>, i: nat)
    requires Walks(s, i)
    decreases |s| - i
  {
    s[i] == 0 || (RepeatsAt(s, i) && MiddlesRepeat(s, i + Width(s[i])))
  }

  lemma TwoBytesBack(f: byte, m: byte)
    requires 0xc2 <= f <= 0xdf && m & 0xc0 == 0x80
    ensures EncodeUnit(Unit(HighOfTwo(f), LowOfTwo(f, m))) == [f, m]
  {
    var v := Value(Unit(HighOfTwo(f), LowOfTwo(f, m)));
    assert 0x80 <= v < 0x800;
    assert LeadOfTwo(v) == f && Trail(v) == m;
  }

  lemma TwoBytesBackExactly(f: byte, m: byte)
    requires 0x7f < f <= 0xdf
    ensures EncodeUnit(Unit(HighOfTwo(f), LowOfTwo(f, m))) == [f, m] <==> f >= 0xc2 && m & 0xc0 == 0x80
  {
    var u := Unit(HighOfTwo(f), LowOfTwo(f, m));
    if f >= 0xc2 && m & 0xc0 == 0x80 {
      TwoBytesBack(f, m);
    } else if EncodeUnit(u) == [f, m] {
      EncodesAsRfc3629(u);
      TwoBytesAtLeast(Value(u), f, m);
    }
  }

  lemma TwoBytesAtLeast(v: bv16, x: byte, y: byte)
    requires v >= 0x80 && TwoBytesFor(v, x, y)
    ensures x >= 0xc2
  {
  }

  function ThreeBytesValue(f: byte, m: byte, t: byte): bv16 {
    Value(Unit(HighOfThree(f, m, AsNeeded), LowOfThree(m, t)))
  }

  lemma LeadBack(f: byte, m: byte, t: byte)
    requires 0xe0 <= f <= 0xef && m & 0xc0 == 0x80 && (f == 0xe0 ==> m >= 0xa0)
    ensures ThreeBytesValue(f, m, t) >= 0x800 && LeadOfThree(ThreeBytesValue(f, m, t)) == f
  {
  }

  lemma MiddleBack(f: byte, m: byte, t: byte)
    requires m & 0xc0 == 0x80
    ensures MiddleOfThree(ThreeBytesValue(f, m, t)) == m
  {
  }

  lemma TrailBack(f: byte, m: byte, t: byte)
    requires t & 0xc0 == 0x80
    ensures Trail(ThreeBytesValue(f, m, t)) == t
  {
  }

  lemma ThreeBytesBack(f: byte, m: byte, t: byte)
    requires ShortestThree(f, m, t)
    ensures EncodeUnit(Unit(HighOfThree(f, m, AsNeeded), LowOfThree(m, t))) == [f, m, t]
  {
    LeadBack(f, m, t);
    MiddleBack(f, m, t);
    TrailBack(f, m, t);
  }

  lemma ThreeBytesAtLeast(v: bv16, x: byte, y: byte, z: byte)
    requires v >= 0x800 && ThreeBytesFor(v, x, y, z)
    ensures ShortestThree(x, y, z)
  {
  }

  lemma SameHighExactly(f: byte, m: byte)
    ensures HighOfThree(f, m, AsWritten) == HighOfThree(f, m, AsNeeded) <==> Repeats(m)
  {
  }

  lemma ThreeBytesBackExactly(f: byte, m: byte, t: byte, g: Grouping)
    requires f > 0xdf
    ensures EncodeUnit(Unit(HighOfThree(f, m, g), LowOfThree(m, t))) == [f, m, t]
      <==> ShortestThree(f, m, t) && (g == AsWritten ==> Repeats(m))
  {
    var u := Unit(HighOfThree(f, m, g), LowOfThree(m, t));
    SameHighExactly(f, m);
    if ShortestThree(f, m, t) {
      ThreeBytesBack(f, m, t);
    }
    if EncodeUnit(u) == [f, m, t] {
      ThreeBytesOnly(u, f, m, t);
    }
  }

  lemma ThreeBytesOnly(u: Unit, f: byte, m: byte, t: byte)
    requires EncodeUnit(u) == [f, m, t]
    ensures ShortestThree(f, m, t) && u.hi == HighOfThree(f, m, AsNeeded)
  {
    EncodesAsRfc3629(u);
    ThreeBytesAtLeast(Value(u), f, m, t);
    ThreeReturned(u);
  }

  /** A sequence comes back from its unit exactly when it is in shortest form and, as the
      routines are written, its middle byte repeats a two-bit pattern. */
  lemma UnitBackExactly(s: seq<byte>, i: nat, g: Grouping)
    requires Walks(s, i) && s[i] != 0
    ensures i + Width(s[i]) <= |s|
    ensures EncodeUnit(UnitDecoded(s, i, g)) == s[i..i + Width(s[i])]
      <==> ShortestAt(s, i) && (g == AsWritten ==> RepeatsAt(s, i))
  {
    assert Walks(s, i + Width(s[i]));
    if s[i] <= 0x7f {
      assert EncodeUnit(UnitDecoded(s, i, g)) == [s[i]];
    } else if s[i] <= 0xdf {
      assert s[i..i + 2] == [s[i], s[i + 1]];
      TwoBytesBackExactly(s[i], s[i + 1]);
    } else {
      assert s[i..i + 3] == [s[i], s[i + 1], s[i + 2]];
      ThreeBytesBackExactly(s[i], s[i + 1], s[i + 2], g);
    }
  }

  /** Where the walk from `i` finds the terminator. */
  function End(s: seq<byte>, i: nat): (e: nat)
    requires Walks(s, i)
    ensures i <= e < |s| && s[e] == 0
    decreases |s| - i
  {
    if s[i] == 0 then i else End(s, i + Width(s[i]))
  }

  /** The units that a reader of the terminated text sees. */
  function BeforeTerminator(us: seq<Unit>): seq<Unit> {
    if us == [] || us[0] == TERMINATOR then [] else [us[0]] + BeforeTerminator(us[1..])
  }

  lemma {:induction false} ReadsUpToTerminator(us: seq<Unit>, order: ByteOrder)
    ensures UnitsWalk(Serialize(us, order) + [0, 0], 0, order)
    ensures Units(Serialize(us, order) + [0, 0], 0, order) == BeforeTerminator(us)
  {
    var s := Serialize(us, order) + [0, 0];
    if us == [] || us[0] == TERMINATOR {
      assert UnitAt(s, 0, order) == TERMINATOR;
    } else {
      ReadsUpToTerminator(us[1..], order);
      Assoc(Pair(us[0], order), Serialize(us[1..], order), [0, 0]);
      UnitsShift(Pair(us[0], order), Serialize(us[1..], order) + [0, 0], 0, order);
      assert UnitAt(s, 0, order) == us[0];
    }
  }

  lemma SameParts<T>(a: seq<T>, b: seq<T>, c: seq<T>, d: seq<T>)
    requires |a| == |c|
    ensures a + b == c + d <==> a == c && b == d
  {
    if a + b == c + d {
      assert a == (a + b)[..|a|] && c == (c + d)[..|c|];
      assert b == (a + b)[|a|..] && d == (c + d)[|c|..];
    }
  }

  lemma {:induction false} ComesBackExactly(s: seq<byte>, i: nat, g: Grouping)
    requires Walks(s, i)
    ensures Encode(BeforeTerminator(Decode(s, i, g))) == s[i..End(s, i)]
      <==> Shortest(s, i) && (g == AsWritten ==> MiddlesRepeat(s, i))
    decreases |s| - i
  {
    if s[i] != 0 {
      var j, u := i + Width(s[i]), UnitDecoded(s, i, g);
      var seen := BeforeTerminator(Decode(s, j, g));
      ComesBackExactly(s, j, g);
      UnitBackExactly(s, i, g);
      SplitSlice(s, i, j, End(s, j));
      assert Decode(s, i, g)[0] == u && Decode(s, i, g)[1..] == Decode(s, j, g);
      if u == TERMINATOR {
        ZeroUnitIsLost(s, i, g);
      } else {
        LeadAnnounces(u);
        assert BeforeTerminator(Decode(s, i, g)) == [u] + seen;
        SameSequences(EncodeUnit(u), Encode(seen), s[i..j], s[j..End(s, j)]);
      }
    }
  }

  lemma ZeroUnitIsLost(s: seq<byte>, i: nat, g: Grouping)
    requires Walks(s, i) && s[i] != 0 && UnitDecoded(s, i, g) == TERMINATOR
    ensures !(ShortestAt(s, i) && (g == AsWritten ==> RepeatsAt(s, i)))
  {
    UnitBackExactly(s, i, g);
    assert EncodeUnit(TERMINATOR)[0] == 0;
    assert s[i..i + Width(s[i])][0] == s[i];
  }

  lemma SameSequences(a: seq<byte>, b: seq<byte>, c: seq<byte>, d: seq<byte>)
    requires a != [] && c != [] && Width(a[0]) == |a| && Width(c[0]) == |c|
    ensures a + b == c + d <==> a == c && b == d
  {
    if a + b == c + d {
      assert a[0] == (a + b)[0] == c[0];
      SameParts(a, b, c, d);
    }
  }

  /** Transcoding UTF-8 text to UTF-16 (either byte order) and back gives the text again
      exactly when it is in shortest form and the middle byte of every sequence of three
      repeats a two-bit pattern; with the needed grouping, exactly when it is in shortest
      form. */
  lemma Utf8ComesBack(s: seq<byte>, order: ByteOrder, g: Grouping)
    requires Walks(s, 0)
    ensures var text := Serialize(Decode(s, 0, g), order) + [0, 0];
      && UnitsWalk(text, 0, order)
      && (Shortest(s, 0) && (g == AsWritten ==> MiddlesRepeat(s, 0))
          <==> Encode(Units(text, 0, order)) == s[..End(s, 0)])
  {
    ReadsUpToTerminator(Decode(s, 0, g), order);
    ComesBackExactly(s, 0, g);
  }

  // ----- text that is cut off

  /** The bits of the sequence at `i` that go into its unit are all zero. */
  predicate ZeroAt(s: seq<byte>, i: nat, g: Grouping)
    requires Walks(s, i) && s[i] != 0
  {
    if s[i] <= 0x7f then false
    else if s[i] <= 0xdf then assert Walks(s, i + 2); s[i] & 0x1f == 0 && s[i + 1] & 0x3f == 0
    else assert Walks(s, i + 3); ThreeZero(s[i], s[i + 1], s[i + 2], g)
  }

  predicate ThreeZero(f: byte, m: byte, t: byte, g: Grouping) {
    f & 0x0f == 0 && m & (if g == AsWritten then 0x0f else 0x3f) == 0 && t & 0x3f == 0
  }

  /** Exactly when a sequence decodes to the terminator.  In shortest form, as the routines
      are written, that is E0 A0 80 (U+0800) and E0 B0 80 (U+0C00); with the needed grouping
      none. */
  lemma DecodedZeroExactly(s: seq<byte>, i: nat, g: Grouping)
    requires Walks(s, i) && s[i] != 0
    ensures UnitDecoded(s, i, g) == TERMINATOR <==> ZeroAt(s, i, g)
    ensures ShortestAt(s, i) ==> (ZeroAt(s, i, g) <==> g == AsWritten && CutsAt(s, i))
  {
    if s[i] <= 0x7f {
    } else if s[i] <= 0xdf {
      assert Walks(s, i + 2);
      TwoZeroExactly(s[i], s[i + 1]);
    } else {
      assert Walks(s, i + 3);
      ThreeZeroExactly(s[i], s[i + 1], s[i + 2], g);
      if ShortestThree(s[i], s[i + 1], s[i + 2]) { ShortestZero(s[i], s[i + 1], s[i + 2], g); }
    }
  }

  predicate CutsAt(s: seq<byte>, i: nat) {
    i + 3 <= |s| && s[i] == 0xe0 && s[i + 1] in {0xa0, 0xb0} && s[i + 2] == 0x80
  }

  lemma TwoZeroExactly(f: byte, m: byte)
    ensures Unit(HighOfTwo(f), LowOfTwo(f, m)) == TERMINATOR <==> f & 0x1f == 0 && m & 0x3f == 0
    ensures 0xc2 <= f <= 0xdf ==> f & 0x1f != 0
  {
  }

  lemma ThreeZeroExactly(f: byte, m: byte, t: byte, g: Grouping)
    ensures Unit(HighOfThree(f, m, g), LowOfThree(m, t)) == TERMINATOR <==> ThreeZero(f, m, t, g)
  {
  }

  lemma ShortestZero(f: byte, m: byte, t: byte, g: Grouping)
    requires ShortestThree(f, m, t)
    ensures ThreeZero(f, m, t, g) <==> g == AsWritten && f == 0xe0 && m in {0xa0, 0xb0} && t == 0x80
  {
  }

  /** No sequence decodes to the terminator. */
  predicate CutsNowhere(s: seq<byte>, i: nat)
    requires Walks(s, i)
    decreases |s| - i
  {
    s[i] == 0 || (!CutsAt(s, i) && CutsNowhere(s, i + Width(s[i])))
  }

  lemma {:induction false} CutExactly(s: seq<byte>, i: nat)
    requires Walks(s, i) && Shortest(s, i)
    ensures BeforeTerminator(Decode(s, i, AsWritten)) == Decode(s, i, AsWritten) <==> CutsNowhere(s, i)
    decreases |s| - i
  {
    if s[i] != 0 {
      var j, us := i + Width(s[i]), Decode(s, i, AsWritten);
      CutExactly(s, j);
      DecodedZeroExactly(s, i, AsWritten);
      assert us[0] == UnitDecoded(s, i, AsWritten) && us[1..] == Decode(s, j, AsWritten);
      assert us == [us[0]] + us[1..];
    }
  }

  /** UTF-8 text in shortest form arrives in UTF-16 with all its units exactly when it has
      neither U+0800 nor U+0C00; otherwise a reader sees it end there. */
  lemma ArrivesWholeExactly(s: seq<byte>, order: ByteOrder)
    requires Walks(s, 0) && Shortest(s, 0)
    ensures var text := Serialize(Decode(s, 0, AsWritten), order) + [0, 0];
      UnitsWalk(text, 0, order) && (Units(text, 0, order) == Decode(s, 0, AsWritten) <==> CutsNowhere(s, 0))
  {
    ReadsUpToTerminator(Decode(s, 0, AsWritten), order);
    CutExactly(s, 0);
  }

  /** Of a text that begins with U+0800, nothing is left. */
  lemma NothingAfterU0800(rest: seq<byte>, order: ByteOrder)
    requires Walks(rest, 0)
    ensures var s := [0xe0, 0xa0, 0x80] + rest;
      Walks(s, 0) && Units(Serialize(Decode(s, 0, AsWritten), order) + [0, 0], 0, order) == []
  {
    var s := [0xe0, 0xa0, 0x80] + rest;
    DecodeShift([0xe0, 0xa0, 0x80], rest, 0, AsWritten);
    assert Walks(s, 3) && Walks(s, 0);
    DecodedZeroExactly(s, 0, AsWritten);
    ReadsUpToTerminator(Decode(s, 0, AsWritten), order);
  }
}
