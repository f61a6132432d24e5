/**
 CRC-32 (src/crc32.c; section 8 of RFC 1952): a table of the CRCs of all bytes stands in for eight
 steps of polynomial division per byte.
 */
module Crc {
  import opened Common

  const POLYNOMIAL: bv32 := 0xEDB88320

  /** One step of division by the reflected polynomial. */
  function BitStep(c: bv32): bv32 {
    if c & 1 == 1 then POLYNOMIAL ^ (c >> 1) else c >> 1
  }

  function BitSteps(c: bv32, k: nat): bv32
    decreases k
  {
    if k == 0 then c else BitSteps(BitStep(c), k - 1)
  }

  function Xor(x: bv32, y: bv32): bv32 {
    x ^ y
  }

  /** What the CRC of one more byte is by definition. */
  function ByteStep(c: bv32, b: byte): bv32 {
    BitSteps(Xor(c, b as bv32), 8)
  }

  function Bytes(c: bv32, data: bytes): bv32
    decreases |data|
  {
    if data == [] then c else Bytes(ByteStep(c, data[0]), data[1..])
  }

  /** gg_update_crc: the CRC of more data, given the CRC so far. */
  function Update(crc: bv32, data: bytes): bv32 {
    Not(Bytes(Not(crc), data))
  }

  function Not(c: bv32): bv32 {
    !c
  }

  // ---------- the table ----------

  /** The division steps are linear, whichever of the two low bits are set. */
  lemma StepLinear(x: bv32, y: bv32)
    ensures BitStep(x ^ y) == BitStep(x) ^ BitStep(y)
  {
    hide BitStep;
    if x & 1 == 1 {
      if y & 1 == 1 {
        StepBothSet(x, y);
      } else {
        StepOneSet(x, y);
      }
    } else if y & 1 == 1 {
      StepOneSet(y, x);
      assert x ^ y == y ^ x;
    } else {
      StepNoneSet(x, y);
    }
  }

  lemma StepBothSet(x: bv32, y: bv32)
    requires x & 1 == 1 && y & 1 == 1
    ensures BitStep(x ^ y) == BitStep(x) ^ BitStep(y)
  {
  }

  lemma StepOneSet(x: bv32, y: bv32)
    requires x & 1 == 1 && y & 1 != 1
    ensures BitStep(x ^ y) == BitStep(x) ^ BitStep(y) && BitStep(x ^ y) == BitStep(y) ^ BitStep(x)
  {
  }

  lemma StepNoneSet(x: bv32, y: bv32)
    requires x & 1 != 1 && y & 1 != 1
    ensures BitStep(x ^ y) == BitStep(x) ^ BitStep(y)
  {
  }

  lemma {:induction false} StepsLinear(x: bv32, y: bv32, k: nat)
    ensures BitSteps(Xor(x, y), k) == Xor(BitSteps(x, k), BitSteps(y, k))
    decreases k
  {
    hide BitStep, Xor;
    if k > 0 {
      XorStep(x, y);
      StepsLinear(BitStep(x), BitStep(y), k - 1);
    }
  }

  lemma XorStep(x: bv32, y: bv32)
    ensures BitStep(Xor(x, y)) == Xor(BitStep(x), BitStep(y))
  {
    hide BitStep;
    StepLinear(x, y);
  }

  lemma {:induction false} MoreSteps(y: bv32, j: nat, k: nat)
    ensures BitSteps(y, j + k) == BitSteps(BitSteps(y, j), k)
    decreases j
  {
    hide BitStep;
    if j > 0 {
      MoreSteps(BitStep(y), j - 1, k);
    }
  }

  lemma OneShift(y: bv32)
    requires y & 1 == 0
    ensures BitSteps(y, 1) == y >> 1
  {
    assert BitStep(y) == y >> 1;
    assert BitSteps(y, 1) == BitSteps(BitStep(y), 0);
  }

  lemma TwoShifts(y: bv32)
    requires y & 0x3 == 0
    ensures BitSteps(y, 2) == y >> 2
  {
    hide BitSteps;
    assert y & 0x1 == 0 && (y >> 1) & 0x1 == 0 && (y >> 1) >> 1 == y >> 2;
    MoreSteps(y, 1, 1);
    OneShift(y);
    OneShift(y >> 1);
  }

  lemma FourShifts(y: bv32)
    requires y & 0xF == 0
    ensures BitSteps(y, 4) == y >> 4
  {
    hide BitSteps;
    assert y & 0x3 == 0 && (y >> 2) & 0x3 == 0 && (y >> 2) >> 2 == y >> 4;
    MoreSteps(y, 2, 2);
    TwoShifts(y);
    TwoShifts(y >> 2);
  }

  /** Bits that have not yet reached the low end are only shifted. */
  lemma EightShifts(y: bv32)
    requires y & 0xFF == 0
    ensures BitSteps(y, 8) == y >> 8
  {
    hide BitSteps;
    assert y & 0xF == 0 && (y >> 4) & 0xF == 0 && (y >> 4) >> 4 == y >> 8;
    MoreSteps(y, 4, 4);
    FourShifts(y);
    FourShifts(y >> 4);
  }

  /** A table lookup and a shift are eight division steps, for every state and byte. */
  lemma TableStep(c: bv32, b: byte)
    ensures Xor(BitSteps(LowByte(Xor(c, b as bv32)), 8), Rest(c)) == ByteStep(c, b)
  {
    hide BitSteps, Xor, LowByte, HighBytes, Rest;
    var z := Xor(c, b as bv32);
    ByteIsLow(b);
    Apart(c, b as bv32);
    Together(z);
    StepsLinear(LowByte(z), HighBytes(z), 8);
    HighShift(z);
  }

  function LowByte(z: bv32): bv32 {
    z & 0xFF
  }

  function HighBytes(z: bv32): bv32 {
    z & 0xFFFF_FF00
  }

  function Rest(z: bv32): bv32 {
    z >> 8
  }

  lemma Together(z: bv32)
    ensures Xor(LowByte(z), HighBytes(z)) == z
  {
  }

  lemma Apart(c: bv32, x: bv32)
    requires x & 0xFF == x
    ensures Rest(HighBytes(Xor(c, x))) == Rest(c)
  {
  }

  lemma HighShift(z: bv32)
    ensures BitSteps(HighBytes(z), 8) == Rest(HighBytes(z))
  {
    hide BitSteps, HighBytes, Rest;
    assert HighBytes(z) & 0xFF == 0 && Rest(HighBytes(z)) == HighBytes(z) >> 8 by { HighOnly(z); }
    EightShifts(HighBytes(z));
  }

  lemma HighOnly(z: bv32)
    ensures HighBytes(z) & 0xFF == 0 && Rest(HighBytes(z)) == HighBytes(z) >> 8
  {
  }

  lemma ByteIsLow(b: byte)
    ensures (b as bv32) & 0xFF == b as bv32
  {
    var x := b as bv8;
    assert b as bv32 == x as bv32;
  }

  ghost predicate IsCrcTable(table: seq<bv32>) {
    |table| == 256 && forall n :: 0 <= n < 256 ==> table[n] == BitSteps(n as bv32, 8)
  }

  /** make_crc_table: the CRC of every byte, by division. */
  method MakeCrcTable() returns (table: array<bv32>)
    ensures fresh(table) && IsCrcTable(table[..])
  {
    hide BitStep;
    table := new bv32[256];
    var n := 0;
    while n < 256
      invariant 0 <= n <= 256
      invariant forall m :: 0 <= m < n ==> table[m] == BitSteps(m as bv32, 8)
    {
      var c := n as bv32;
      var k := 0;
      while k < 8
        invariant 0 <= k <= 8 && BitSteps(c, 8 - k) == BitSteps(n as bv32, 8)
      {
        c := BitStep(c);
        k := k + 1;
      }
      table[n] := c;
      n := n + 1;
    }
  }

  /** The table's index for a word. */
  function Index(c: bv32): (r: nat)
    ensures r < 256
  {
    LowByte(c) as nat
  }

  lemma WordRoundTrip(x: bv32)
    ensures (x as nat) as bv32 == x
  {
  }

  lemma IndexAsWord(c: bv32)
    ensures Index(c) as bv32 == LowByte(c)
  {
    hide LowByte;
    WordRoundTrip(LowByte(c));
  }

  /** gg_update_crc with the contents of crc_table. */
  method UpdateCrc(table: seq<bv32>, crc: bv32, data: bytes) returns (r: bv32)
    requires IsCrcTable(table)
    ensures r == Update(crc, data)
  {
    hide ByteStep, BitSteps, Xor, Rest, Not, Index, LowByte;
    var c := Not(crc);
    var n := 0;
    assert data[0..] == data;
    while n < |data|
      invariant 0 <= n <= |data| && Bytes(c, data[n..]) == Bytes(Not(crc), data)
    {
      assert data[n..][0] == data[n] && data[n..][1..] == data[n + 1..];
      var x := Xor(c, data[n] as bv32);
      IndexAsWord(x);
      TableStep(c, data[n]);
      c := Xor(table[Index(x)], Rest(c));
      n := n + 1;
    }
    assert data[n..] == [];
    r := Not(c);
  }

  // ---------- chaining ----------

  lemma {:induction false} BytesConcat(c: bv32, a: bytes, b: bytes)
    ensures Bytes(c, a + b) == Bytes(Bytes(c, a), b)
    decreases |a|
  {
    hide ByteStep;
    if a == [] {
      assert a + b == b;
    } else {
      assert (a + b)[0] == a[0] && (a + b)[1..] == a[1..] + b;
      BytesConcat(ByteStep(c, a[0]), a[1..], b);
    }
  }

  lemma NotNot(c: bv32)
    ensures Not(Not(c)) == c
  {
  }

  /** The CRC of a whole can be taken in parts, the second starting from the CRC of the first. */
  lemma UpdateChains(crc: bv32, a: bytes, b: bytes)
    ensures Update(Update(crc, a), b) == Update(crc, a + b)
  {
    hide Bytes, Not;
    BytesConcat(Not(crc), a, b);
    NotNot(Bytes(Not(crc), a));
  }

  // ---------- known values ----------

  lemma OneByte(c: bv32, b: byte, rest: bytes)
    ensures Bytes(c, [b] + rest) == Bytes(ByteStep(c, b), rest)
  {
    hide ByteStep;
    assert ([b] + rest)[1..] == rest;
  }

  lemma NoByte(c: bv32)
    ensures Bytes(c, []) == c
  {
  }

  lemma CheckSteps123()
    ensures ByteStep(0xFFFF_FFFF, 0x31) == 0x7C23_1048
    ensures ByteStep(0x7C23_1048, 0x32) == 0xB0AC_BB32
    ensures ByteStep(0xB0AC_BB32, 0x33) == 0x77B7_9C2D
  {
  }

  lemma CheckSteps456()
    ensures ByteStep(0x77B7_9C2D, 0x34) == 0x641C_1F5C
    ensures ByteStep(0x641C_1F5C, 0x35) == 0x340A_C5E3
    ensures ByteStep(0x340A_C5E3, 0x36) == 0xF68D_2C9E
  {
  }

  lemma CheckSteps789()
    ensures ByteStep(0xF68D_2C9E, 0x37) == 0xAFFC_9660
    ensures ByteStep(0xAFFC_9660, 0x38) == 0x651F_2550
    ensures ByteStep(0x651F_2550, 0x39) == 0x340B_C6D9
  {
  }

  /** The check value of CRC-32: that of the digits one to nine. */
  lemma CheckValue()
    ensures Update(0, Ascii("123456789")) == 0xCBF4_3926
  {
    hide ByteStep, Bytes;
    CheckSteps123();
    CheckSteps456();
    CheckSteps789();
    assert Ascii("123456789") == [0x31, 0x32, 0x33, 0x34, 0x35, 0x36, 0x37, 0x38, 0x39];
    OneByte(0xFFFF_FFFF, 0x31, [0x32, 0x33, 0x34, 0x35, 0x36, 0x37, 0x38, 0x39]);
    OneByte(0x7C23_1048, 0x32, [0x33, 0x34, 0x35, 0x36, 0x37, 0x38, 0x39]);
    OneByte(0xB0AC_BB32, 0x33, [0x34, 0x35, 0x36, 0x37, 0x38, 0x39]);
    OneByte(0x77B7_9C2D, 0x34, [0x35, 0x36, 0x37, 0x38, 0x39]);
    OneByte(0x641C_1F5C, 0x35, [0x36, 0x37, 0x38, 0x39]);
    OneByte(0x340A_C5E3, 0x36, [0x37, 0x38, 0x39]);
    OneByte(0xF68D_2C9E, 0x37, [0x38, 0x39]);
    OneByte(0xAFFC_9660, 0x38, [0x39]);
    OneByte(0x651F_2550, 0x39, []);
    NoByte(0x340B_C6D9);
    assert [0x31, 0x32, 0x33, 0x34, 0x35, 0x36, 0x37, 0x38, 0x39] == [0x31] + [0x32, 0x33, 0x34, 0x35, 0x36, 0x37, 0x38, 0x39] && [0x32, 0x33, 0x34, 0x35, 0x36, 0x37, 0x38, 0x39] == [0x32] + [0x33, 0x34, 0x35, 0x36, 0x37, 0x38, 0x39] && [0x33, 0x34, 0x35, 0x36, 0x37, 0x38, 0x39] == [0x33] + [0x34, 0x35, 0x36, 0x37, 0x38, 0x39] && [0x34, 0x35, 0x36, 0x37, 0x38, 0x39] == [0x34] + [0x35, 0x36, 0x37, 0x38, 0x39] && [0x35, 0x36, 0x37, 0x38, 0x39] == [0x35] + [0x36, 0x37, 0x38, 0x39] && [0x36, 0x37, 0x38, 0x39] == [0x36] + [0x37, 0x38, 0x39] && [0x37, 0x38, 0x39] == [0x37] + [0x38, 0x39] && [0x38, 0x39] == [0x38] + [0x39] && [0x39] == [0x39] + [];
  }

  /** The CRC of nothing leaves the CRC as it is. */
  lemma EmptyUpdate(crc: bv32)
    ensures Update(crc, []) == crc
  {
    hide Not;
    NoByte(Not(crc));
    NotNot(crc);
  }
}
