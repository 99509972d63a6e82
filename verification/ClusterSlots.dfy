/**
 * The slot that a Redis Cluster server computes, by the 'Hash tags' section and the CRC appendix of the
 * Redis Cluster specification, against the slot that client.ts computes.
 */
module ClusterSlots {
  import opened Wrappers
  import opened Crc16
  import opened Sequences
  import opened SessionKeys

  /** The bytes that the server sees: UTF-8, surrogate pairs as one character (section 3 of RFC 3629). */
  function Utf8Text(t: Text): seq<Byte>
    decreases |t|
  {
    if t == [] then []
    else if |t| >= 2 && 0xD800 <= t[0] < 0xDC00 <= t[1] < 0xE000 then
      var c := 0x1_0000 + (t[0] as int - 0xD800) * 0x400 + (t[1] as int - 0xDC00);
      [0xF0 + c / 0x4_0000, 0x80 + c / 0x1000 % 64, 0x80 + c / 64 % 64, 0x80 + c % 64] + Utf8Text(t[2..])
    else Utf8(t[0]) + Utf8Text(t[1..])
  }

  /** Polynomial 0x1021, highest bit first. */
  function ClusterShift(crc: bv16): bv16 {
    if crc & 0x8000 != 0 then (crc << 1) ^ 0x1021 else crc << 1
  }

  function ClusterNext(crc: bv16, b: bv16): bv16 {
    Iterate(ClusterShift, crc ^ (b << 8), 8)
  }

  function ClusterCrc(bytes: seq<Byte>): bv16 {
    if bytes == [] then 0 else ClusterNext(ClusterCrc(bytes[..|bytes| - 1]), bytes[|bytes| - 1] as bv16)
  }

  /** Braces are single bytes that occur in no other character, so the tag can be found before encoding. */
  function ClusterSlot(key: Text): nat {
    LowBits(ClusterCrc(Utf8Text(HashTag(key))))
  }

  /** The keys of one hash tag share a slot, on either side. */
  lemma TagDecides(a: Text, b: Text)
    requires HashTag(a) == HashTag(b)
    ensures Slot(a) == Slot(b) && ClusterSlot(a) == ClusterSlot(b)
  {
  }

  /** All the keys that one script receives for a user are in one slot of the server's, too. */
  lemma OneClusterSlotPerUser(ns: Text, a: Name, b: Name)
    requires IsNamespace(ns) && a.IsValid() && b.IsValid() && a.HasUser() && b.HasUser()
    requires a.user == b.user
    ensures ClusterSlot(Key(ns, a)) == ClusterSlot(Key(ns, b))
  {
    TagIsUser(ns, a);
    TagIsUser(ns, b);
    TagDecides(Key(ns, a), Key(ns, b));
  }

  // ---------------------------------------------------------------- where the two slots agree, and where not

  function EightTimes<T>(f: T -> T, x: T): T {
    f(f(f(f(f(f(f(f(x))))))))
  }

  lemma FourTimes<T>(f: T -> T, x: T)
    ensures Iterate(f, x, 4) == f(f(f(f(x))))
  {
    assert Iterate(f, x, 2) == f(f(x));
  }

  lemma IterateEight<T>(f: T -> T, x: T)
    ensures Iterate(f, x, 8) == EightTimes(f, x)
  {
    IterateAdd(f, x, 4, 4);
    FourTimes(f, x);
    FourTimes(f, Iterate(f, x, 4));
  }

  lemma BytesDiffer(b: bv16)
    requires b <= 0x7F
    ensures Iterate(Shift, b, 8) & 0x3FFF == ClusterNext(0, b) & 0x3FFF <==> b == 0
  {
    IterateEight(Shift, b);
    IterateEight(ClusterShift, 0 ^ (b << 8));
    ShiftedBytesDiffer(b);
  }

  lemma ShiftedBytesDiffer(b: bv16)
    requires b <= 0x7F
    ensures EightTimes(Shift, b) & 0x3FFF == EightTimes(ClusterShift, 0 ^ (b << 8)) & 0x3FFF <==> b == 0
  {
  }

  lemma NatAndBack(x: bv16)
    ensures (x as nat) as bv16 == x
  {
  }

  lemma NatsEqual(x: bv16, y: bv16)
    ensures x as nat == y as nat <==> x == y
  {
    NatAndBack(x);
    NatAndBack(y);
  }

  lemma LowBitsTell(x: bv16, y: bv16, p: bv16, q: bv16)
    requires p == x & 0x3FFF && q == y & 0x3FFF
    ensures LowBits(x) == LowBits(y) <==> p == q
  {
    NatsEqual(p, q);
  }

  lemma LowBitsApart(x: bv16, y: bv16)
    requires x & 0x3FFF != y & 0x3FFF
    ensures LowBits(x) != LowBits(y)
  {
    LowBitsTell(x, y, x & 0x3FFF, y & 0x3FFF);
  }

  lemma SlotsOfBytesDiffer(b: bv16)
    requires b <= 0x7F
    ensures LowBits(Iterate(Shift, b, 8)) == LowBits(ClusterNext(0, b)) <==> b == 0
  {
    BytesDiffer(b);
    if b != 0 {
      LowBitsApart(Iterate(Shift, b, 8), ClusterNext(0, b));
    }
  }

  lemma UnitBits(u: Unit)
    requires u < 0x80
    ensures u as bv16 <= 0x7F && (u as bv16 == 0 <==> u == 0) && LowByte(u) == u as bv16
  {
  }

  lemma CrcOfUnit(u: Unit)
    requires u < 0x80
    ensures Crc([u]) == Iterate(Shift, u as bv16, 8)
  {
    UnitBits(u);
    assert MessageBits([u]) == [] + BitsOf(LowByte(u), 8);
    assert [] + BitsOf(LowByte(u), 8) == BitsOf(LowByte(u), 8);
    FeedByte(0, u as bv16);
    assert Xor(0, u as bv16) == u as bv16;
  }

  lemma ClusterCrcOfUnit(u: Unit)
    requires u < 0x80
    ensures ClusterCrc(Utf8Text([u])) == ClusterNext(0, u as bv16)
  {
    assert Utf8Text([u]) == [u] + [];
  }

  lemma SlotsOfUnit(u: Unit)
    requires u < 0x80
    ensures Slot([u]) == LowBits(Iterate(Shift, u as bv16, 8))
    ensures ClusterSlot([u]) == LowBits(ClusterNext(0, u as bv16))
  {
    assert HashTag([u]) == [u];
    CrcOfUnit(u);
    ClusterCrcOfUnit(u);
  }

  /** Of the keys that are one ASCII character, only NUL gets the server's slot. */
  lemma OneCharacterKeys(u: Unit)
    requires u < 0x80
    ensures Slot([u]) == ClusterSlot([u]) <==> u == 0
  {
    SlotsOfUnit(u);
    UnitBits(u);
    SlotsOfBytesDiffer(u as bv16);
  }

  // ---------------------------------------------------------------- one slot here, two slots there

  const A0C: Text := [0x61, 0x30, 0x63]
  const BPB: Text := [0x62, 0x70, 0x62]

  function NextOfUnit(crc: bv16, u: Unit): bv16 {
    Next(crc, u as bv16)
  }

  function ClusterNextOfByte(crc: bv16, b: Byte): bv16 {
    ClusterNext(crc, b as bv16)
  }

  lemma CrcOfThree(key: Text, x: bv16, y: bv16, z: bv16)
    requires |key| == 3
    requires NextOfUnit(0, key[0]) == x && NextOfUnit(x, key[1]) == y && NextOfUnit(y, key[2]) == z
    ensures Crc(key) == z
  {
    forall k: Text, u: Unit ensures Crc(k + [u]) == NextOfUnit(Crc(k), u) {
      CrcExtends(k, u);
    }
    ThreeSteps(Crc, NextOfUnit, key, x, y, z);
  }

  lemma ClusterCrcExtends(bytes: seq<Byte>, b: Byte)
    ensures ClusterCrc(bytes + [b]) == ClusterNextOfByte(ClusterCrc(bytes), b)
  {
    assert (bytes + [b])[..|bytes|] == bytes;
  }

  lemma ClusterCrcOfThree(key: seq<Byte>, x: bv16, y: bv16, z: bv16)
    requires |key| == 3
    requires ClusterNextOfByte(0, key[0]) == x && ClusterNextOfByte(x, key[1]) == y && ClusterNextOfByte(y, key[2]) == z
    ensures ClusterCrc(key) == z
  {
    forall k: seq<Byte>, b: Byte ensures ClusterCrc(k + [b]) == ClusterNextOfByte(ClusterCrc(k), b) {
      ClusterCrcExtends(k, b);
    }
    ThreeSteps(ClusterCrc, ClusterNextOfByte, key, x, y, z);
  }

  lemma CrcOfA0C()
    ensures Crc(A0C) == 0xF705
  {
    IterateEight(Shift, 0x61);
    IterateEight(Shift, 0xF1);
    IterateEight(Shift, 0x4A);
    CrcOfThree(A0C, 0xE8C1, 0x8429, 0xF705);
  }

  lemma CrcOfBPB()
    ensures Crc(BPB) == 0xF705
  {
    IterateEight(Shift, 0x62);
    IterateEight(Shift, 0xF1);
    IterateEight(Shift, 0x4A);
    CrcOfThree(BPB, 0xE981, 0x8428, 0xF705);
  }

  lemma ClusterCrcOfA0C()
    ensures ClusterCrc([0x61, 0x30, 0x63]) == 0xF50B
  {
    IterateEight(ClusterShift, 0x6100);
    IterateEight(ClusterShift, 0x4C87);
    IterateEight(ClusterShift, 0x6D48);
    ClusterCrcOfThree([0x61, 0x30, 0x63], 0x7C87, 0x0E48, 0xF50B);
  }

  lemma ClusterCrcOfBPB()
    ensures ClusterCrc([0x62, 0x70, 0x62]) == 0xB1B6
  {
    IterateEight(ClusterShift, 0x6200);
    IterateEight(ClusterShift, 0x3CE4);
    IterateEight(ClusterShift, 0x71DF);
    ClusterCrcOfThree([0x62, 0x70, 0x62], 0x4CE4, 0x13DF, 0xB1B6);
  }

  lemma Ascii3(a: Unit, b: Unit, c: Unit)
    requires a < 0x80 && b < 0x80 && c < 0x80
    ensures Utf8Text([a, b, c]) == [a, b, c]
  {
    assert [a, b, c][1..] == [b, c] && [b, c][1..] == [c] && [c][1..] == [];
    assert Utf8Text([c]) == [c] + [];
    assert Utf8Text([b, c]) == [b] + [c];
  }

  /** Both keys are in slot 14085 for the client; the server has them in 13579 and 12726. */
  lemma SameSlotApart()
    ensures Slot(A0C) == Slot(BPB) && ClusterSlot(A0C) != ClusterSlot(BPB)
  {
    assert HashTag(A0C) == A0C && HashTag(BPB) == BPB;
    CrcOfA0C();
    CrcOfBPB();
    ClusterCrcOfA0C();
    ClusterCrcOfBPB();
    Ascii3(0x61, 0x30, 0x63);
    Ascii3(0x62, 0x70, 0x62);
    LowBitsTell(0xF50B, 0xB1B6, 0xF50B & 0x3FFF, 0xB1B6 & 0x3FFF);
  }
}
