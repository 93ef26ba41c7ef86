/**
  CRC-32 as the PNG writer computes it (runtime/stasis_image_writer.c): a byte is added to the
  register at once and the register turned eight times with a mask in place of a branch.
  The reference takes the message one bit at a time.
*/
module Crc {
  import opened ByteText

  const POLYNOMIAL: bv32 := 0xEDB8_8320
  const ONES: bv32 := 0xFFFF_FFFF

  // One turn of the shift register, as the source writes it: the mask is 0 or all ones.
  function Turn(c: bv32): bv32 { (c >> 1) ^ (POLYNOMIAL & (0 - (c & 1))) }
  function Turn2(c: bv32): bv32 { Turn(Turn(c)) }
  function Turn4(c: bv32): bv32 { Turn2(Turn2(c)) }
  function Turn8(c: bv32): bv32 { Turn4(Turn4(c)) }

  function Bit(on: bool, mask: bv32): bv32 { if on then mask else 0 }

  function FromBits(b0: bool, b1: bool, b2: bool, b3: bool, b4: bool, b5: bool, b6: bool, b7: bool): bv32 {
    Bit(b0, 1) | Bit(b1, 2) | Bit(b2, 4) | Bit(b3, 8) | Bit(b4, 16) | Bit(b5, 32) | Bit(b6, 64) | Bit(b7, 128)
  }

  // A byte widened to the register, by its binary digits.
  function ByteBits(b: Byte): bv32 {
    FromBits(b % 2 == 1, b / 2 % 2 == 1, b / 4 % 2 == 1, b / 8 % 2 == 1,
             b / 16 % 2 == 1, b / 32 % 2 == 1, b / 64 % 2 == 1, b / 128 % 2 == 1)
  }

  function AddByte(c: bv32, b: Byte): bv32 { Turn8(c ^ ByteBits(b)) }

  function Update(c: bv32, data: Bytes): bv32
    decreases |data|
  {
    if data == [] then c else Update(AddByte(c, data[0]), data[1..])
  }

  lemma {:induction false} UpdateJoins(c: bv32, a: Bytes, b: Bytes)
    ensures Update(c, a + b) == Update(Update(c, a), b)
    decreases |a|
  {
    hide AddByte;
    if a == [] {
      assert a + b == b;
    } else {
      assert (a + b)[1..] == a[1..] + b;
      UpdateJoins(AddByte(c, a[0]), a[1..], b);
    }
  }

  lemma UpdateOne(c: bv32, data: Bytes, k: nat)
    requires k < |data|
    ensures Update(c, data[..k + 1]) == AddByte(Update(c, data[..k]), data[k])
  {
    hide AddByte;
    UpdateJoins(c, data[..k], [data[k]]);
    assert data[..k + 1] == data[..k] + [data[k]];
    assert Update(Update(c, data[..k]), [data[k]]) == Update(AddByte(Update(c, data[..k]), data[k]), [data[k]][1..]);
  }

  lemma UpdateNone(c: bv32, data: Bytes)
    ensures Update(c, data[..0]) == c
  {}

  /** png_crc32_update: the running checksum over the data. */
  method CrcUpdate(crc: bv32, data: Bytes) returns (c: bv32)
    ensures c == Update(crc, data)
  {
    hide Update, AddByte;
    c := crc;
    UpdateNone(crc, data);
    for i := 0 to |data|
      invariant c == Update(crc, data[..i])
    {
      UpdateOne(crc, data, i);
      c := AddInPlace(c, data[i]);
    }
    assert data[..|data|] == data;
  }

  // The turns still to be made.
  function Turns(c: bv32, n: nat): bv32
    decreases n
  {
    if n == 0 then c else Turns(Turn(c), n - 1)
  }

  lemma EightTurns(c: bv32)
    ensures Turns(c, 8) == Turn8(c)
  {
    hide Turn;
    assert Turns(c, 8) == Turn(Turn(Turn(Turn(Turn(Turn(Turn(Turn(c))))))));
  }

  // The loop over the bits of one byte.
  method AddInPlace(crc: bv32, b: Byte) returns (c: bv32)
    ensures c == AddByte(crc, b)
  {
    hide Turn, Turn8;
    c := crc ^ ByteBits(b);
    EightTurns(c);
    ghost var start := c;
    var bit: nat := 0;
    while bit < 8
      invariant bit <= 8 && Turns(start, 8) == Turns(c, 8 - bit)
    {
      TurnMeans(c);
      var mask := 0 - (c & 1);
      c := (c >> 1) ^ (POLYNOMIAL & mask);
      bit := bit + 1;
    }
  }

  lemma TurnMeans(c: bv32)
    ensures (c >> 1) ^ (POLYNOMIAL & (0 - (c & 1))) == Turn(c)
  {}

  // ---------- The serial definition ----------

  // The register of a CRC takes one message bit at a time, lowest bit of each byte first, and
  // subtracts the polynomial when the bit leaving the register differs from the message bit.
  function TakeBit(c: bv32, bit: bv32): bv32 {
    if (c & 1) != bit then (c >> 1) ^ POLYNOMIAL else c >> 1
  }

  // The operators by name, so that proofs can hide what they do to the bits.
  function Xor(a: bv32, b: bv32): bv32 { a ^ b }
  function Drop1(bits: bv32): bv32 { bits >> 1 }
  function Drop2(bits: bv32): bv32 { bits >> 2 }
  function Drop4(bits: bv32): bv32 { bits >> 4 }
  function LowBit(bits: bv32): bv32 { bits & 1 }

  function Take2(c: bv32, bits: bv32): bv32 { TakeBit(TakeBit(c, LowBit(bits)), LowBit(Drop1(bits))) }
  function Take4(c: bv32, bits: bv32): bv32 { Take2(Take2(c, bits), Drop2(bits)) }
  function Take8(c: bv32, bits: bv32): bv32 { Take4(Take4(c, bits), Drop4(bits)) }

  function Serial(c: bv32, data: Bytes): bv32
    decreases |data|
  {
    if data == [] then c else Serial(Take8(c, ByteBits(data[0])), data[1..])
  }

  lemma DropsJoin(bits: bv32)
    ensures Drop1(Drop1(bits)) == Drop2(bits) && Drop2(Drop2(bits)) == Drop4(bits)
  {}

  // Adding all the bits at once and turning is the same as taking them in turn.
  lemma One(c: bv32, bits: bv32)
    ensures Turn(Xor(c, bits)) == Xor(TakeBit(c, LowBit(bits)), Drop1(bits))
  {
    hide Turn, TakeBit;
    OneRaw(c, bits);
    NamesMean(c, TakeBit(c, bits & 1), bits);
  }

  lemma OneRaw(c: bv32, bits: bv32)
    ensures Turn(c ^ bits) == TakeBit(c, bits & 1) ^ (bits >> 1)
  {}

  lemma NamesMean(c: bv32, taken: bv32, bits: bv32)
    ensures Xor(c, bits) == c ^ bits && LowBit(bits) == bits & 1 && Xor(taken, Drop1(bits)) == taken ^ (bits >> 1)
  {}

  lemma Two(c: bv32, bits: bv32)
    ensures Turn2(Xor(c, bits)) == Xor(Take2(c, bits), Drop2(bits))
  {
    hide Turn, TakeBit, Xor, Drop1, Drop2, LowBit;
    One(c, bits);
    One(TakeBit(c, LowBit(bits)), Drop1(bits));
    DropsJoin(bits);
  }

  lemma Four(c: bv32, bits: bv32)
    ensures Turn4(Xor(c, bits)) == Xor(Take4(c, bits), Drop4(bits))
  {
    hide Turn2, Take2, Xor, Drop2, Drop4;
    Two(c, bits);
    Two(Take2(c, bits), Drop2(bits));
    DropsJoin(bits);
  }

  lemma Eight(c: bv32, bits: bv32)
    ensures Turn8(Xor(c, bits)) == Xor(Take8(c, bits), Drop4(Drop4(bits)))
  {
    hide Turn4, Take4, Xor, Drop4;
    Four(c, bits);
    Four(Take4(c, bits), Drop4(bits));
  }

  lemma NothingLeft(c: bv32, bits: bv32)
    requires bits < 256
    ensures Xor(c, Drop4(Drop4(bits))) == c
  {}

  lemma ByteIsTaken(c: bv32, bits: bv32)
    requires bits < 256
    ensures Turn8(Xor(c, bits)) == Take8(c, bits)
  {
    hide Turn8, Take8, Xor, Drop4;
    Eight(c, bits);
    NothingLeft(Take8(c, bits), bits);
  }

  lemma ByteIsSmall(b: Byte)
    ensures ByteBits(b) < 256
  {}

  /** The byte-at-a-time update is the bit-serial CRC. */
  lemma {:induction false} UpdateIsSerial(c: bv32, data: Bytes)
    ensures Update(c, data) == Serial(c, data)
    decreases |data|
  {
    hide Turn8, Take8, ByteBits;
    if data != [] {
      ByteIsSmall(data[0]);
      ByteIsTaken(c, ByteBits(data[0]));
      UpdateIsSerial(AddByte(c, data[0]), data[1..]);
    }
  }

  // ---------- What the checksum detects ----------

  lemma TurnIsInjective(a: bv32, b: bv32)
    ensures Turn(a) == Turn(b) ==> a == b
  {}

  lemma Turn8IsInjective(a: bv32, b: bv32)
    ensures Turn8(a) == Turn8(b) ==> a == b
  {
    hide Turn;
    var a2, b2 := Turn2(a), Turn2(b);
    var a4, b4 := Turn2(a2), Turn2(b2);
    var a6, b6 := Turn2(a4), Turn2(b4);
    Turn2IsInjective(a, b);
    Turn2IsInjective(a2, b2);
    Turn2IsInjective(a4, b4);
    Turn2IsInjective(a6, b6);
  }

  lemma Turn2IsInjective(a: bv32, b: bv32)
    ensures Turn2(a) == Turn2(b) ==> a == b
  {
    hide Turn;
    TurnIsInjective(a, b);
    TurnIsInjective(Turn(a), Turn(b));
  }

  lemma {:induction false} UpdateIsInjective(c: bv32, d: bv32, data: Bytes)
    ensures Update(c, data) == Update(d, data) ==> c == d
    decreases |data|
  {
    hide AddByte;
    if data != [] {
      AddByteIsInjective(c, d, data[0]);
      UpdateIsInjective(AddByte(c, data[0]), AddByte(d, data[0]), data[1..]);
    }
  }

  lemma AddByteIsInjective(c: bv32, d: bv32, b: Byte)
    ensures AddByte(c, b) == AddByte(d, b) ==> c == d
  {
    hide Turn8, ByteBits;
    Turn8IsInjective(c ^ ByteBits(b), d ^ ByteBits(b));
  }

  lemma AddByteSeparates(c: bv32, x: Byte, y: Byte)
    ensures AddByte(c, x) == AddByte(c, y) ==> x == y
  {
    hide Turn8, ByteBits;
    Turn8IsInjective(c ^ ByteBits(x), c ^ ByteBits(y));
    ByteBitsSeparate(x, y);
  }

  lemma BitsSeparate(a0: bool, a1: bool, a2: bool, a3: bool, a4: bool, a5: bool, a6: bool, a7: bool,
                     b0: bool, b1: bool, b2: bool, b3: bool, b4: bool, b5: bool, b6: bool, b7: bool)
    requires FromBits(a0, a1, a2, a3, a4, a5, a6, a7) == FromBits(b0, b1, b2, b3, b4, b5, b6, b7)
    ensures a0 == b0 && a1 == b1 && a2 == b2 && a3 == b3 && a4 == b4 && a5 == b5 && a6 == b6 && a7 == b7
  {}

  lemma ByteBitsSeparate(x: Byte, y: Byte)
    ensures ByteBits(x) == ByteBits(y) ==> x == y
  {
    hide FromBits;
    if ByteBits(x) == ByteBits(y) {
      BitsSeparate(x % 2 == 1, x / 2 % 2 == 1, x / 4 % 2 == 1, x / 8 % 2 == 1,
                   x / 16 % 2 == 1, x / 32 % 2 == 1, x / 64 % 2 == 1, x / 128 % 2 == 1,
                   y % 2 == 1, y / 2 % 2 == 1, y / 4 % 2 == 1, y / 8 % 2 == 1,
                   y / 16 % 2 == 1, y / 32 % 2 == 1, y / 64 % 2 == 1, y / 128 % 2 == 1);
      Digits(x, y);
    }
  }

  // Bytes with the same binary digits are the same byte.
  lemma Digits(x: Byte, y: Byte)
    requires x % 2 == y % 2 && x / 2 % 2 == y / 2 % 2 && x / 4 % 2 == y / 4 % 2 && x / 8 % 2 == y / 8 % 2
    requires x / 16 % 2 == y / 16 % 2 && x / 32 % 2 == y / 32 % 2
    requires x / 64 % 2 == y / 64 % 2 && x / 128 % 2 == y / 128 % 2
    ensures x == y
  {
    Halves(x);
    Halves(y);
    SameHalves(x / 128, y / 128);
    SameHalves(x / 64, y / 64);
    SameHalves(x / 32, y / 32);
    SameHalves(x / 16, y / 16);
    SameHalves(x / 8, y / 8);
    SameHalves(x / 4, y / 4);
    SameHalves(x / 2, y / 2);
    SameHalves(x, y);
  }

  lemma Halves(x: Byte)
    ensures x / 2 / 2 == x / 4 && x / 4 / 2 == x / 8 && x / 8 / 2 == x / 16 && x / 16 / 2 == x / 32
    ensures x / 32 / 2 == x / 64 && x / 64 / 2 == x / 128 && x / 128 / 2 == 0
  {}

  lemma SameHalves(x: nat, y: nat)
    ensures x / 2 == y / 2 && x % 2 == y % 2 ==> x == y
  {}

  /** A chunk damaged in any one byte no longer matches its checksum. */
  lemma OneByteIsDetected(c: bv32, before: Bytes, x: Byte, y: Byte, after: Bytes)
    requires x != y
    ensures Update(c, before + [x] + after) != Update(c, before + [y] + after)
  {
    hide AddByte, ByteBits;
    UpdateJoins(c, before + [x], after);
    UpdateJoins(c, before + [y], after);
    UpdateOne(c, before + [x], |before|);
    UpdateOne(c, before + [y], |before|);
    assert (before + [x])[..|before|] == before == (before + [y])[..|before|];
    assert (before + [x])[..|before| + 1] == before + [x] && (before + [y])[..|before| + 1] == before + [y];
    AddByteSeparates(Update(c, before), x, y);
    UpdateIsInjective(Update(c, before + [x]), Update(c, before + [y]), after);
  }

  // ---------- The check value ----------

  // The register after each byte of the text.
  lemma CheckTurns()
    ensures Turn8(0xFFFF_FFCE) == 0x7C23_1048
    ensures Turn8(0x7C23_107A) == 0xB0AC_BB32
    ensures Turn8(0xB0AC_BB01) == 0x77B7_9C2D
    ensures Turn8(0x77B7_9C19) == 0x641C_1F5C
    ensures Turn8(0x641C_1F69) == 0x340A_C5E3
    ensures Turn8(0x340A_C5D5) == 0xF68D_2C9E
    ensures Turn8(0xF68D_2CA9) == 0xAFFC_9660
    ensures Turn8(0xAFFC_9658) == 0x651F_2550
    ensures Turn8(0x651F_2569) == 0x340B_C6D9
  {}

  lemma FirstDigits()
    ensures ByteBits(49) == 0x31 && ByteBits(50) == 0x32 && ByteBits(51) == 0x33
  {}

  lemma MiddleDigits()
    ensures ByteBits(52) == 0x34 && ByteBits(53) == 0x35 && ByteBits(54) == 0x36
  {}

  lemma LastDigits()
    ensures ByteBits(55) == 0x37 && ByteBits(56) == 0x38 && ByteBits(57) == 0x39
  {}

  lemma CheckSums()
    ensures (0xFFFF_FFFF as bv32) ^ 0x31 == 0xFFFF_FFCE
    ensures (0x7C23_1048 as bv32) ^ 0x32 == 0x7C23_107A
    ensures (0xB0AC_BB32 as bv32) ^ 0x33 == 0xB0AC_BB01
    ensures (0x77B7_9C2D as bv32) ^ 0x34 == 0x77B7_9C19
    ensures (0x641C_1F5C as bv32) ^ 0x35 == 0x641C_1F69
    ensures (0x340A_C5E3 as bv32) ^ 0x36 == 0x340A_C5D5
    ensures (0xF68D_2C9E as bv32) ^ 0x37 == 0xF68D_2CA9
    ensures (0xAFFC_9660 as bv32) ^ 0x38 == 0xAFFC_9658
    ensures (0x651F_2550 as bv32) ^ 0x39 == 0x651F_2569
  {}

  lemma CheckBytes()
    ensures AddByte(0xFFFF_FFFF, 49) == 0x7C23_1048
    ensures AddByte(0x7C23_1048, 50) == 0xB0AC_BB32
    ensures AddByte(0xB0AC_BB32, 51) == 0x77B7_9C2D
    ensures AddByte(0x77B7_9C2D, 52) == 0x641C_1F5C
    ensures AddByte(0x641C_1F5C, 53) == 0x340A_C5E3
    ensures AddByte(0x340A_C5E3, 54) == 0xF68D_2C9E
    ensures AddByte(0xF68D_2C9E, 55) == 0xAFFC_9660
    ensures AddByte(0xAFFC_9660, 56) == 0x651F_2550
    ensures AddByte(0x651F_2550, 57) == 0x340B_C6D9
  {
    hide Turn8, ByteBits;
    CheckTurns();
    FirstDigits();
    MiddleDigits();
    LastDigits();
    CheckSums();
  }

  lemma {:induction false} UpdateMore(c: bv32, b: Byte, rest: Bytes)
    ensures Update(c, [b] + rest) == Update(AddByte(c, b), rest)
  {
    hide AddByte;
    assert ([b] + rest)[1..] == rest;
  }

  /** The published check value of CRC-32: over the text "123456789" it is CBF43926. */
  lemma CheckValue()
    ensures Update(ONES, [49, 50, 51, 52, 53, 54, 55, 56, 57]) ^ ONES == 0xCBF4_3926
  {
    hide Update, AddByte;
    CheckBytes();
    UpdateMore(0xFFFF_FFFF, 49, [50, 51, 52, 53, 54, 55, 56, 57]);
    assert [49] + [50, 51, 52, 53, 54, 55, 56, 57] == [49, 50, 51, 52, 53, 54, 55, 56, 57];
    UpdateMore(0x7C23_1048, 50, [51, 52, 53, 54, 55, 56, 57]);
    assert [50] + [51, 52, 53, 54, 55, 56, 57] == [50, 51, 52, 53, 54, 55, 56, 57];
    UpdateMore(0xB0AC_BB32, 51, [52, 53, 54, 55, 56, 57]);
    assert [51] + [52, 53, 54, 55, 56, 57] == [51, 52, 53, 54, 55, 56, 57];
    UpdateMore(0x77B7_9C2D, 52, [53, 54, 55, 56, 57]);
    assert [52] + [53, 54, 55, 56, 57] == [52, 53, 54, 55, 56, 57];
    UpdateMore(0x641C_1F5C, 53, [54, 55, 56, 57]);
    assert [53] + [54, 55, 56, 57] == [53, 54, 55, 56, 57];
    UpdateMore(0x340A_C5E3, 54, [55, 56, 57]);
    assert [54] + [55, 56, 57] == [54, 55, 56, 57];
    UpdateMore(0xF68D_2C9E, 55, [56, 57]);
    assert [55] + [56, 57] == [55, 56, 57];
    UpdateMore(0xAFFC_9660, 56, [57]);
    assert [56] + [57] == [56, 57];
    UpdateMore(0x651F_2550, 57, []);
    assert [57] + [] == [57];
    UpdateNothing(0x340B_C6D9);
  }

  lemma UpdateNothing(c: bv32)
    ensures Update(c, []) == c
  {}
}
