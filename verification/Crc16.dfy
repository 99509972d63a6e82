/**
 * Hash slots: the table-driven CRC of client.ts, and the bit-by-bit CRC that it stands for.
 */
module Crc16 {
  import opened Wrappers

  /** A UTF-16 code unit. */
  type Unit = u: int | 0 <= u < 0x1_0000

  type Text = seq<Unit>

  // ---------------------------------------------------------------- one bit at a time

  function Iterate<T>(f: T -> T, x: T, n: nat): T {
    if n == 0 then x else f(Iterate(f, x, n - 1))
  }

  function Halve(b: bv16): bv16 {
    b >> 1
  }

  predicate Odd(b: bv16) {
    b & 1 != 0
  }

  function Xor(a: bv16, b: bv16): bv16 {
    a ^ b
  }

  /** Divides the register by the reflected polynomial, one bit on. */
  function Shift(crc: bv16): bv16 {
    if Odd(crc) then Xor(Halve(crc), 0xA001) else Halve(crc)
  }

  /** One message bit enters the register. */
  function Enter(crc: bv16, bit: bool): bv16 {
    Shift(if bit then Xor(crc, 1) else crc)
  }

  function Feed(crc: bv16, bits: seq<bool>): bv16 {
    if bits == [] then crc else Enter(Feed(crc, bits[..|bits| - 1]), bits[|bits| - 1])
  }

  /** The n lowest bits, lowest first. */
  function BitsOf(b: bv16, n: nat): seq<bool> {
    if n == 0 then [] else BitsOf(b, n - 1) + [Odd(Iterate(Halve, b, n - 1))]
  }

  /** Each code unit contributes its low byte; the upper one is ignored. */
  function LowByte(u: Unit): bv16 {
    (u as bv16) & 0xFF
  }

  function MessageBits(key: Text): seq<bool> {
    if key == [] then [] else MessageBits(key[..|key| - 1]) + BitsOf(LowByte(key[|key| - 1]), 8)
  }

  /** The reference: the CRC with reflected polynomial 0xA001, bit by bit. */
  function Crc(key: Text): bv16 {
    Feed(0, MessageBits(key))
  }

  // ---------------------------------------------------------------- why a table works

  lemma XorParity(a: bv16, b: bv16)
    ensures Odd(Xor(a, b)) <==> Odd(a) != Odd(b)
  {
  }

  lemma XorHalves(a: bv16, b: bv16)
    ensures Halve(Xor(a, b)) == Xor(Halve(a), Halve(b))
  {
  }

  lemma XorCancels(p: bv16, q: bv16, r: bv16)
    ensures Xor(Xor(p, r), Xor(q, r)) == Xor(p, q)
  {
  }

  lemma XorMoves(p: bv16, q: bv16, r: bv16)
    ensures Xor(Xor(p, r), q) == Xor(Xor(p, q), r) == Xor(q, Xor(p, r)) == Xor(Xor(q, p), r)
  {
  }

  lemma ShiftBothOdd(a: bv16, b: bv16)
    requires Odd(a) && Odd(b)
    ensures Shift(Xor(a, b)) == Xor(Shift(a), Shift(b))
  {
    XorParity(a, b);
    XorHalves(a, b);
    XorCancels(Halve(a), Halve(b), 0xA001);
  }

  lemma ShiftOneOdd(a: bv16, b: bv16)
    requires Odd(a) && !Odd(b)
    ensures Shift(Xor(a, b)) == Xor(Shift(a), Shift(b))
    ensures Shift(Xor(b, a)) == Xor(Shift(b), Shift(a))
  {
    XorParity(a, b);
    XorParity(b, a);
    XorHalves(a, b);
    XorHalves(b, a);
    XorMoves(Halve(a), Halve(b), 0xA001);
  }

  lemma ShiftBothEven(a: bv16, b: bv16)
    requires !Odd(a) && !Odd(b)
    ensures Shift(Xor(a, b)) == Xor(Shift(a), Shift(b))
  {
    XorParity(a, b);
    XorHalves(a, b);
  }

  lemma ShiftIsLinear(a: bv16, b: bv16)
    ensures Shift(Xor(a, b)) == Xor(Shift(a), Shift(b))
  {
    if Odd(a) && Odd(b) {
      ShiftBothOdd(a, b);
    } else if Odd(a) {
      ShiftOneOdd(a, b);
    } else if Odd(b) {
      ShiftOneOdd(b, a);
    } else {
      ShiftBothEven(a, b);
    }
  }

  lemma {:induction false} IterateIsLinear<T(!new)>(f: T -> T, plus: (T, T) -> T, a: T, b: T, n: nat)
    requires forall x, y :: f(plus(x, y)) == plus(f(x), f(y))
    ensures Iterate(f, plus(a, b), n) == plus(Iterate(f, a, n), Iterate(f, b, n))
  {
    if n > 0 {
      IterateIsLinear(f, plus, a, b, n - 1);
    }
  }

  lemma ShiftsAreLinear(a: bv16, b: bv16, n: nat)
    ensures Iterate(Shift, Xor(a, b), n) == Xor(Iterate(Shift, a, n), Iterate(Shift, b, n))
  {
    forall x, y ensures Shift(Xor(x, y)) == Xor(Shift(x), Shift(y)) {
      ShiftIsLinear(x, y);
    }
    IterateIsLinear(Shift, Xor, a, b, n);
  }

  lemma {:induction false} IterateAdd<T>(f: T -> T, x: T, m: nat, n: nat)
    ensures Iterate(f, x, m + n) == Iterate(f, Iterate(f, x, m), n)
  {
    if n > 0 {
      IterateAdd(f, x, m, n - 1);
    }
  }

  lemma TwoZerosMoveDown(h: bv16)
    requires h & 3 == 0
    ensures Iterate(Shift, h, 2) == h >> 2
  {
    assert h & 1 == 0 && (h >> 1) & 1 == 0;
    assert Iterate(Shift, h, 1) == h >> 1;
  }

  lemma NibbleMovesDown(h: bv16)
    requires h & 0xF == 0
    ensures Iterate(Shift, h, 4) == h >> 4
  {
    assert h & 3 == 0 && (h >> 2) & 3 == 0 && (h >> 2) >> 2 == h >> 4;
    TwoZerosMoveDown(h);
    TwoZerosMoveDown(h >> 2);
    IterateAdd(Shift, h, 2, 2);
  }

  /** A register whose low byte is empty only moves down. */
  lemma HighByteMovesDown(h: bv16)
    requires h & 0xFF == 0
    ensures Iterate(Shift, h, 8) == h >> 8
  {
    assert (h >> 4) & 0xF == 0 && (h >> 4) >> 4 == h >> 8;
    NibbleMovesDown(h);
    NibbleMovesDown(h >> 4);
    IterateAdd(Shift, h, 4, 4);
  }

  lemma BytesOf(x: bv16)
    ensures (x & 0xFF00) & 0xFF == 0 && Xor(x & 0xFF00, x & 0xFF) == x && (x & 0xFF00) >> 8 == x >> 8
  {
  }

  /** Eight shifts: the low byte goes through the table, the high byte straight down. */
  lemma ByteThroughTable(x: bv16)
    ensures Iterate(Shift, x, 8) == Xor(x >> 8, Iterate(Shift, x & 0xFF, 8))
  {
    BytesOf(x);
    ShiftsAreLinear(x & 0xFF00, x & 0xFF, 8);
    HighByteMovesDown(x & 0xFF00);
  }

  // ---------------------------------------------------------------- why bits and bytes agree

  lemma ClearLowBit(b: bv16)
    requires Odd(b)
    ensures !Odd(Xor(b, 1)) && Halve(Xor(b, 1)) == Halve(b)
  {
  }

  lemma EnterOdd(crc: bv16, b: bv16)
    requires Odd(b)
    ensures Xor(Enter(crc, true), Halve(b)) == Shift(Xor(crc, b))
  {
    ClearLowBit(b);
    XorCancels(crc, b, 1);
    EvenHalves(Xor(b, 1));
    ShiftIsLinear(Xor(crc, 1), Xor(b, 1));
  }

  lemma EvenHalves(b: bv16)
    requires !Odd(b)
    ensures Shift(b) == Halve(b)
  {
  }

  lemma EnterSplits(crc: bv16, b: bv16)
    ensures Xor(Enter(crc, Odd(b)), Halve(b)) == Shift(Xor(crc, b))
  {
    if Odd(b) {
      EnterOdd(crc, b);
    } else {
      EvenHalves(b);
      ShiftIsLinear(crc, b);
    }
  }

  /** After n bits, the register and what is left of the byte make up n shifts of their sum. */
  lemma {:induction false} FeedBits(crc: bv16, b: bv16, n: nat)
    ensures Xor(Feed(crc, BitsOf(b, n)), Iterate(Halve, b, n)) == Iterate(Shift, Xor(crc, b), n)
  {
    if n == 0 {
    } else {
      FeedBits(crc, b, n - 1);
      EnterSplits(Feed(crc, BitsOf(b, n - 1)), Iterate(Halve, b, n - 1));
      FeedLast(crc, BitsOf(b, n - 1), Odd(Iterate(Halve, b, n - 1)));
    }
  }

  lemma FeedLast(crc: bv16, bits: seq<bool>, bit: bool)
    ensures Feed(crc, bits + [bit]) == Enter(Feed(crc, bits), bit)
  {
    assert (bits + [bit])[..|bits|] == bits;
  }

  lemma {:induction false} FeedAppend(crc: bv16, a: seq<bool>, b: seq<bool>)
    ensures Feed(crc, a + b) == Feed(Feed(crc, a), b)
    decreases |b|
  {
    if b == [] {
      assert a + b == a;
    } else {
      FeedAppend(crc, a, b[..|b| - 1]);
      FeedLast(crc, a + b[..|b| - 1], b[|b| - 1]);
      assert a + b == a + b[..|b| - 1] + [b[|b| - 1]];
    }
  }

  lemma ByteRunsOut(b: bv16)
    requires b & 0xFF == b
    ensures Iterate(Halve, b, 8) == 0
  {
    assert Iterate(Halve, b, 2) == b >> 2;
    assert Iterate(Halve, b, 4) == b >> 4;
    assert Iterate(Halve, b, 6) == b >> 6;
  }

  lemma XorZero(a: bv16)
    ensures Xor(a, 0) == a
  {
  }

  lemma FeedByte(crc: bv16, b: bv16)
    requires b & 0xFF == b
    ensures Feed(crc, BitsOf(b, 8)) == Iterate(Shift, Xor(crc, b), 8)
  {
    FeedBits(crc, b, 8);
    ByteRunsOut(b);
    XorZero(Feed(crc, BitsOf(b, 8)));
  }

  lemma MaskMerges(crc: bv16, u: bv16)
    ensures Xor(crc, u & 0xFF) & 0xFF == Xor(crc, u) & 0xFF
    ensures Xor(crc, u & 0xFF) >> 8 == crc >> 8
    ensures (u & 0xFF) & 0xFF == u & 0xFF
  {
  }

  /** One turn of the loop in calculateSlot advances the reference by one code unit. */
  lemma TableStep(crc: bv16, u: bv16)
    ensures Feed(crc, BitsOf(u & 0xFF, 8)) == Xor(crc >> 8, Iterate(Shift, Xor(crc, u) & 0xFF, 8))
  {
    MaskMerges(crc, u);
    FeedByte(crc, u & 0xFF);
    ByteThroughTable(Xor(crc, u & 0xFF));
  }

  /** The body of the loop in calculateSlot, with the table entry spelled out. */
  function Next(crc: bv16, u: bv16): bv16 {
    Xor(crc >> 8, Iterate(Shift, Xor(crc, u) & 0xFF, 8))
  }

  lemma CrcExtends(key: Text, u: Unit)
    ensures Crc(key + [u]) == Next(Crc(key), u as bv16)
  {
    assert (key + [u])[..|key|] == key;
    FeedAppend(0, MessageBits(key), BitsOf(LowByte(u), 8));
    TableStep(Crc(key), u as bv16);
  }

  // ---------------------------------------------------------------- the table and the loop

  lemma ByteIndex(b: bv16)
    requires b <= 0xFF
    ensures 0 <= b as int < 256 && (b as int) as bv16 == b
  {
  }

  predicate IsEntry(i: int, entry: bv16)
    requires 0 <= i < 256
  {
    entry == Iterate(Shift, i as bv16, 8)
  }

  predicate IsTable(table: seq<bv16>) {
    |table| == 256 && EntriesTo(table, 256)
  }

  predicate EntriesTo(table: seq<bv16>, n: nat)
    requires n <= |table| == 256
  {
    forall i | 0 <= i < n :: IsEntry(i, table[i])
  }

  lemma EntryAdded(table: seq<bv16>, n: nat, entry: bv16)
    requires n < |table| == 256 && EntriesTo(table, n) && IsEntry(n, entry)
    ensures EntriesTo(table[n := entry], n + 1)
  {
  }

  /** The inner loop of the table. */
  method EntryFor(b: bv16) returns (crc: bv16)
    ensures crc == Iterate(Shift, b, 8)
  {
    crc := b;
    for j := 0 to 8
      invariant crc == Iterate(Shift, b, j)
    {
      crc := if crc & 1 != 0 then (crc >> 1) ^ 0xA001 else crc >> 1;
    }
  }

  method Entry(i: int) returns (entry: bv16)
    requires 0 <= i < 256
    ensures IsEntry(i, entry)
  {
    entry := EntryFor(i as bv16);
  }

  method BuildTable() returns (table: array<bv16>)
    ensures IsTable(table[..])
  {
    table := new bv16[256];
    for i := 0 to 256
      invariant EntriesTo(table[..], i)
    {
      var entry := Entry(i);
      EntryAdded(table[..], i, entry);
      table[i] := entry;
    }
  }

  /** crc16Table[x & 0xff] */
  method Lookup(table: array<bv16>, x: bv16) returns (entry: bv16)
    requires IsTable(table[..])
    ensures entry == Iterate(Shift, x & 0xFF, 8)
  {
    var b := x & 0xFF;
    assert b <= 0xFF;
    ByteIndex(b);
    entry := table[b as int];
    assert IsEntry(b as int, table[..][b as int]);
  }

  // ---------------------------------------------------------------- slots

  /** indexOf: the first occurrence at or after `from`. */
  function IndexOf(key: Text, u: Unit, from: nat): (r: Option<nat>)
    ensures r.Some? ==> from <= r.value < |key| && key[r.value] == u && forall i | from <= i < r.value :: key[i] != u
    ensures r.None? ==> forall i | from <= i < |key| :: key[i] != u
    decreases |key| - from
  {
    if from >= |key| then None else if key[from] == u then Some(from) else IndexOf(key, u, from + 1)
  }

  const OPEN: Unit := 0x7B
  const CLOSE: Unit := 0x7D

  /** The part that is hashed: between the first `{` and the next `}`, unless that is missing or empty. */
  function HashTag(key: Text): Text {
    var start := IndexOf(key, OPEN, 0);
    if start.None? then key
    else
      var end := IndexOf(key, CLOSE, start.value + 1);
      if end.Some? && start.value + 1 < end.value then key[start.value + 1..end.value] else key
  }

  /** `% 16384` keeps the low fourteen bits. */
  function LowBits(crc: bv16): nat {
    (crc & 0x3FFF) as nat
  }

  function Slot(key: Text): nat {
    LowBits(Crc(HashTag(key)))
  }

  lemma ModuloIsMask(crc: bv16)
    ensures crc % 16384 == crc & 0x3FFF
  {
  }

  lemma LowBitsFit(crc: bv16)
    ensures LowBits(crc) < 16384
  {
  }

  /** crc % 16384 */
  method Reduce(crc: bv16) returns (slot: nat)
    ensures slot == LowBits(crc) && slot < 16384
  {
    ModuloIsMask(crc);
    LowBitsFit(crc);
    slot := (crc % 16384) as nat;
  }

  method TurnRegister(table: array<bv16>, crc: bv16, u: bv16) returns (next: bv16)
    requires IsTable(table[..])
    ensures next == Next(crc, u)
  {
    var entry := Lookup(table, Xor(crc, u));
    next := Xor(crc >> 8, entry);
  }

  /** The body of the loop: `done` is what was hashed before, and u the next code unit. */
  method Turn(table: array<bv16>, crc: bv16, u: Unit, ghost done: Text) returns (next: bv16)
    requires IsTable(table[..]) && crc == Crc(done)
    ensures next == Crc(done + [u])
  {
    CrcExtends(done, u);
    next := TurnRegister(table, crc, u as bv16);
  }

  method CrcOf(key: Text, table: array<bv16>) returns (crc: bv16)
    requires IsTable(table[..])
    ensures crc == Crc(key)
  {
    crc := 0;
    for i := 0 to |key|
      invariant crc == Crc(key[..i])
    {
      assert key[..i + 1] == key[..i] + [key[i]];
      crc := Turn(table, crc, key[i], key[..i]);
    }
    assert key[..|key|] == key;
  }

  method Hashed(key: Text) returns (hashed: Text)
    ensures hashed == HashTag(key)
  {
    hashed := key;
    var start := IndexOf(key, OPEN, 0);
    if start.Some? {
      var end := IndexOf(key, CLOSE, start.value + 1);
      if end.Some? && start.value + 1 < end.value {
        hashed := key[start.value + 1..end.value];
      }
    }
  }

  method CalculateSlot(key: Text, table: array<bv16>) returns (slot: nat)
    requires IsTable(table[..])
    ensures slot == Slot(key) && slot < 16384
  {
    var hashed := Hashed(key);
    var crc := CrcOf(hashed, table);
    slot := Reduce(crc);
  }
}
