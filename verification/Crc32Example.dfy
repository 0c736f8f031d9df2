/** The check value of CRC-32: the checksum of the digits from 1 to 9. */
module Crc32Example {
  import opened Words
  import opened CrcDivision
  import opened NibbleCrc

  lemma {:induction false} HighZeros(x: nat, k: nat, n: nat)
    requires x < Bits.Pow2(k)
    ensures BitsOf(x, k + n) == Zeros(n) + BitsOf(x, k)
  {
    if n > 0 {
      HighZeros(x, k, n - 1);
      Bits.Pow2Monotone(k, k + n - 1);
      HighZero(x, k + n - 1);
    }
  }

  lemma LowOfNumber(c: nat)
    ensures Low(BitsOf(c, 32), 4) == BitsOf(c % 16, 4)
  {
    hide BitsOf, Nibble;
    LowNibble(c, 28);
    LowNibble(c % 16, 0);
    NoBits(c % 16 / 16);
    assert c % 16 % 16 == c % 16;
  }

  lemma ShiftOfNumber(c: nat)
    requires c < 0x1_0000_0000
    ensures Shr(BitsOf(c, 32), 4) == BitsOf(c / 16, 32)
  {
    hide BitsOf, Nibble, Bits.Pow2;
    PowerValues();
    LowNibble(c, 28);
    HighZeros(c / 16, 28, 4);
  }

  /** One look-up in numbers. */
  lemma HalfOfNumber(c: nat, nibble: nat, index: nat, shifted: nat, e: nat, r: nat)
    requires c < 0x1_0000_0000 && nibble < 16 && index < 16 && IsXor(c % 16, nibble, index, 1)
    requires shifted == c / 16 && e == Table(index) && IsXor(shifted, e, r, 8)
    ensures Half(BitsOf(c, 32), nibble) == BitsOf(r, 32)
  {
    hide BitsOf, IsXor, Low, Shr, Table;
    LowOfNumber(c);
    ShiftOfNumber(c);
    XorOfNumbers(c % 16, nibble, index, 1);
    PowerValues();
    ValueOfBits(index, 4);
    XorOfNumbers(c / 16, Table(index), r, 8);
  }

  lemma ByteOfNumbers(c: nat, byte: nat, mid: nat, r: nat)
    requires Half(BitsOf(c, 32), byte % 16) == BitsOf(mid, 32) && Half(BitsOf(mid, 32), byte / 16) == BitsOf(r, 32)
    ensures ByteStep(BitsOf(c, 32), byte) == BitsOf(r, 32)
  {
  }

  lemma LowHalf1()
    ensures Half(BitsOf(0xffffffff, 32), 1) == BitsOf(0xaff51d87, 32)
  {
    hide BitsOf, Half;
    assert IsXor(0x0fff, 0xa00a, 0xaff5, 4);
    HalfOfNumber(0xffffffff, 1, 14, 0xfffffff, 0xa00ae278, 0xaff51d87);
  }

  lemma HighHalf1()
    ensures Half(BitsOf(0xaff51d87, 32), 3) == BitsOf(0x7c231048, 32)
  {
    hide BitsOf, Half;
    assert IsXor(0x0aff, 0x76dc, 0x7c23, 4);
    HalfOfNumber(0xaff51d87, 3, 4, 0xaff51d8, 0x76dc4190, 0x7c231048);
  }

  lemma Digit1()
    ensures ByteStep(BitsOf(0xffffffff, 32), 49) == BitsOf(0x7c231048, 32)
  {
    hide BitsOf, Half;
    LowHalf1();
    HighHalf1();
    ByteOfNumbers(0xffffffff, 49, 0xaff51d87, 0x7c231048);
  }

  lemma LowHalf2()
    ensures Half(BitsOf(0x7c231048, 32), 2) == BitsOf(0xd11492ec, 32)
  {
    hide BitsOf, Half;
    assert IsXor(0x07c2, 0xd6d6, 0xd114, 4);
    HalfOfNumber(0x7c231048, 2, 10, 0x7c23104, 0xd6d6a3e8, 0xd11492ec);
  }

  lemma HighHalf2()
    ensures Half(BitsOf(0xd11492ec, 32), 3) == BitsOf(0xb0acbb32, 32)
  {
    hide BitsOf, Half;
    assert IsXor(0x0d11, 0xbdbd, 0xb0ac, 4);
    HalfOfNumber(0xd11492ec, 3, 15, 0xd11492e, 0xbdbdf21c, 0xb0acbb32);
  }

  lemma Digit2()
    ensures ByteStep(BitsOf(0x7c231048, 32), 50) == BitsOf(0xb0acbb32, 32)
  {
    hide BitsOf, Half;
    LowHalf2();
    HighHalf2();
    ByteOfNumbers(0x7c231048, 50, 0xd11492ec, 0xb0acbb32);
  }

  lemma LowHalf3()
    ensures Half(BitsOf(0xb0acbb32, 32), 3) == BitsOf(0x16bddbd7, 32)
  {
    hide BitsOf, Half;
    assert IsXor(0x0b0a, 0x1db7, 0x16bd, 4);
    HalfOfNumber(0xb0acbb32, 3, 1, 0xb0acbb3, 0x1db71064, 0x16bddbd7);
  }

  lemma HighHalf3()
    ensures Half(BitsOf(0x16bddbd7, 32), 3) == BitsOf(0x77b79c2d, 32)
  {
    hide BitsOf, Half;
    assert IsXor(0x016b, 0x76dc, 0x77b7, 4);
    HalfOfNumber(0x16bddbd7, 3, 4, 0x16bddbd, 0x76dc4190, 0x77b79c2d);
  }

  lemma Digit3()
    ensures ByteStep(BitsOf(0xb0acbb32, 32), 51) == BitsOf(0x77b79c2d, 32)
  {
    hide BitsOf, Half;
    LowHalf3();
    HighHalf3();
    ByteOfNumbers(0xb0acbb32, 51, 0x16bddbd7, 0x77b79c2d);
  }

  lemma LowHalf4()
    ensures Half(BitsOf(0x77b79c2d, 32), 4) == BitsOf(0xf774ea86, 32)
  {
    hide BitsOf, Half;
    assert IsXor(0x077b, 0xf00f, 0xf774, 4);
    HalfOfNumber(0x77b79c2d, 4, 9, 0x77b79c2, 0xf00f9344, 0xf774ea86);
  }

  lemma HighHalf4()
    ensures Half(BitsOf(0xf774ea86, 32), 3) == BitsOf(0x641c1f5c, 32)
  {
    hide BitsOf, Half;
    assert IsXor(0x0f77, 0x6b6b, 0x641c, 4);
    HalfOfNumber(0xf774ea86, 3, 5, 0xf774ea8, 0x6b6b51f4, 0x641c1f5c);
  }

  lemma Digit4()
    ensures ByteStep(BitsOf(0x77b79c2d, 32), 52) == BitsOf(0x641c1f5c, 32)
  {
    hide BitsOf, Half;
    LowHalf4();
    HighHalf4();
    ByteOfNumbers(0x77b79c2d, 52, 0xf774ea86, 0x641c1f5c);
  }

  lemma LowHalf5()
    ensures Half(BitsOf(0x641c1f5c, 32), 5) == BitsOf(0xf64e52b1, 32)
  {
    hide BitsOf, Half;
    assert IsXor(0x0641, 0xf00f, 0xf64e, 4);
    HalfOfNumber(0x641c1f5c, 5, 9, 0x641c1f5, 0xf00f9344, 0xf64e52b1);
  }

  lemma HighHalf5()
    ensures Half(BitsOf(0xf64e52b1, 32), 3) == BitsOf(0x340ac5e3, 32)
  {
    hide BitsOf, Half;
    assert IsXor(0x0f64, 0x3b6e, 0x340a, 4);
    HalfOfNumber(0xf64e52b1, 3, 2, 0xf64e52b, 0x3b6e20c8, 0x340ac5e3);
  }

  lemma Digit5()
    ensures ByteStep(BitsOf(0x641c1f5c, 32), 53) == BitsOf(0x340ac5e3, 32)
  {
    hide BitsOf, Half;
    LowHalf5();
    HighHalf5();
    ByteOfNumbers(0x641c1f5c, 53, 0xf64e52b1, 0x340ac5e3);
  }

  lemma LowHalf6()
    ensures Half(BitsOf(0x340ac5e3, 32), 6) == BitsOf(0x682bfdaa, 32)
  {
    hide BitsOf, Half;
    assert IsXor(0x0340, 0x6b6b, 0x682b, 4);
    HalfOfNumber(0x340ac5e3, 6, 5, 0x340ac5e, 0x6b6b51f4, 0x682bfdaa);
  }

  lemma HighHalf6()
    ensures Half(BitsOf(0x682bfdaa, 32), 3) == BitsOf(0xf68d2c9e, 32)
  {
    hide BitsOf, Half;
    assert IsXor(0x0682, 0xf00f, 0xf68d, 4);
    HalfOfNumber(0x682bfdaa, 3, 9, 0x682bfda, 0xf00f9344, 0xf68d2c9e);
  }

  lemma Digit6()
    ensures ByteStep(BitsOf(0x340ac5e3, 32), 54) == BitsOf(0xf68d2c9e, 32)
  {
    hide BitsOf, Half;
    LowHalf6();
    HighHalf6();
    ByteOfNumbers(0x340ac5e3, 54, 0x682bfdaa, 0xf68d2c9e);
  }

  lemma LowHalf7()
    ensures Half(BitsOf(0xf68d2c9e, 32), 7) == BitsOf(0xff67418d, 32)
  {
    hide BitsOf, Half;
    assert IsXor(0x0f68, 0xf00f, 0xff67, 4);
    HalfOfNumber(0xf68d2c9e, 7, 9, 0xf68d2c9, 0xf00f9344, 0xff67418d);
  }

  lemma HighHalf7()
    ensures Half(BitsOf(0xff67418d, 32), 3) == BitsOf(0xaffc9660, 32)
  {
    hide BitsOf, Half;
    assert IsXor(0x0ff6, 0xa00a, 0xaffc, 4);
    HalfOfNumber(0xff67418d, 3, 14, 0xff67418, 0xa00ae278, 0xaffc9660);
  }

  lemma Digit7()
    ensures ByteStep(BitsOf(0xf68d2c9e, 32), 55) == BitsOf(0xaffc9660, 32)
  {
    hide BitsOf, Half;
    LowHalf7();
    HighHalf7();
    ByteOfNumbers(0xf68d2c9e, 55, 0xff67418d, 0xaffc9660);
  }

  lemma LowHalf8()
    ensures Half(BitsOf(0xaffc9660, 32), 8) == BitsOf(0xe7474a46, 32)
  {
    hide BitsOf, Half;
    assert IsXor(0x0aff, 0xedb8, 0xe747, 4);
    HalfOfNumber(0xaffc9660, 8, 8, 0xaffc966, 0xedb88320, 0xe7474a46);
  }

  lemma HighHalf8()
    ensures Half(BitsOf(0xe7474a46, 32), 3) == BitsOf(0x651f2550, 32)
  {
    hide BitsOf, Half;
    assert IsXor(0x0e74, 0x6b6b, 0x651f, 4);
    HalfOfNumber(0xe7474a46, 3, 5, 0xe7474a4, 0x6b6b51f4, 0x651f2550);
  }

  lemma Digit8()
    ensures ByteStep(BitsOf(0xaffc9660, 32), 56) == BitsOf(0x651f2550, 32)
  {
    hide BitsOf, Half;
    LowHalf8();
    HighHalf8();
    ByteOfNumbers(0xaffc9660, 56, 0xe7474a46, 0x651f2550);
  }

  lemma LowHalf9()
    ensures Half(BitsOf(0x651f2550, 32), 9) == BitsOf(0xf65e6111, 32)
  {
    hide BitsOf, Half;
    assert IsXor(0x0651, 0xf00f, 0xf65e, 4);
    HalfOfNumber(0x651f2550, 9, 9, 0x651f255, 0xf00f9344, 0xf65e6111);
  }

  lemma HighHalf9()
    ensures Half(BitsOf(0xf65e6111, 32), 3) == BitsOf(0x340bc6d9, 32)
  {
    hide BitsOf, Half;
    assert IsXor(0x0f65, 0x3b6e, 0x340b, 4);
    HalfOfNumber(0xf65e6111, 3, 2, 0xf65e611, 0x3b6e20c8, 0x340bc6d9);
  }

  lemma Digit9()
    ensures ByteStep(BitsOf(0x651f2550, 32), 57) == BitsOf(0x340bc6d9, 32)
  {
    hide BitsOf, Half;
    LowHalf9();
    HighHalf9();
    ByteOfNumbers(0x651f2550, 57, 0xf65e6111, 0x340bc6d9);
  }

  lemma OneByteMore(c: Word, bytes: seq<nat>, i: nat)
    requires |c| == 32 && i < |bytes|
    ensures Folded(c, bytes[..i + 1]) == ByteStep(Folded(c, bytes[..i]), bytes[i])
  {
    assert bytes[..i + 1][..i] == bytes[..i];
  }

  lemma NothingFolded(c: Word, bytes: seq<nat>)
    requires |c| == 32
    ensures Folded(c, bytes[..0]) == c
  {
  }

  lemma Complement()
    ensures Not(Zeros(32)) == BitsOf(0xffffffff, 32) && Not(BitsOf(0x340bc6d9, 32)) == BitsOf(0xcbf43926, 32)
  {
    hide BitsOf, Bits.Pow2;
    PowerValues();
    AllOnes(32);
    assert IsXor(0x340b, 0xffff, 0xcbf4, 4);
    XorOfNumbers(0x340bc6d9, 0xffffffff, 0xcbf43926, 8);
  }

  /** The digits as bytes. */
  const DIGITS: seq<nat> := [49, 50, 51, 52, 53, 54, 55, 56, 57]

  lemma CheckValue()
    ensures Updated(Zeros(32), DIGITS) == BitsOf(0xcbf43926, 32) == Checksum(Crc32(), DIGITS)
  {
    hide BitsOf, ByteStep, Folded, Checksum, Crc32;
    Complement();
    var bytes, c := DIGITS, Not(Zeros(32));
    NothingFolded(c, bytes);
    Digit1();
    OneByteMore(c, bytes, 0);
    Digit2();
    OneByteMore(c, bytes, 1);
    Digit3();
    OneByteMore(c, bytes, 2);
    Digit4();
    OneByteMore(c, bytes, 3);
    Digit5();
    OneByteMore(c, bytes, 4);
    Digit6();
    OneByteMore(c, bytes, 5);
    Digit7();
    OneByteMore(c, bytes, 6);
    Digit8();
    OneByteMore(c, bytes, 7);
    Digit9();
    OneByteMore(c, bytes, 8);
    assert bytes[..9] == bytes;
    IsCrc32(bytes);
  }
}
