/** `mz_crc32` of `src/miniz.c`: CRC-32 with two look-ups of four bits per byte. */
module NibbleCrc {
  import Bits
  import opened Words
  import opened CrcDivision
  import Crc

  // ---------------------------------------------------------------- four bits at a time

  function Nibble(d: nat): (w: Word)
    ensures |w| == 4
  {
    [d / 8 % 2 == 1, d / 4 % 2 == 1, d / 2 % 2 == 1, d % 2 == 1]
  }

  /** The bits of a number, the lowest four apart. */
  lemma LowNibble(x: nat, k: nat)
    ensures BitsOf(x, k + 4) == BitsOf(x / 16, k) + Nibble(x % 16)
  {
    hide Nibble;
    FourHalves(x);
    NibbleBits(x);
    assert BitsOf(x, k + 4) == BitsOf(x / 2, k + 3) + [x % 2 == 1];
    assert BitsOf(x / 2, k + 3) == BitsOf(x / 4, k + 2) + [x / 2 % 2 == 1];
    assert BitsOf(x / 4, k + 2) == BitsOf(x / 8, k + 1) + [x / 4 % 2 == 1];
    assert BitsOf(x / 8, k + 1) == BitsOf(x / 16, k) + [x / 8 % 2 == 1];
  }

  lemma FourHalves(x: nat)
    ensures x / 2 / 2 == x / 4 && x / 4 / 2 == x / 8 && x / 8 / 2 == x / 16
  {
  }

  lemma NibbleBits(x: nat)
    ensures Nibble(x % 16) == [x / 8 % 2 == 1, x / 4 % 2 == 1, x / 2 % 2 == 1, x % 2 == 1]
  {
    EvenPart(x, x / 16, x % 16);
  }

  lemma EvenPart(x: nat, q: nat, r: nat)
    requires x == 16 * q + r && r < 16
    ensures (x / 8 % 2 == 1) == (r / 8 % 2 == 1) && (x / 4 % 2 == 1) == (r / 4 % 2 == 1)
    ensures (x / 2 % 2 == 1) == (r / 2 % 2 == 1) && (x % 2 == 1) == (r % 2 == 1)
  {
    FourHalves(x);
    FourHalves(r);
    HalfOf(x, 8 * q, r);
    HalfOf(x / 2, 4 * q, r / 2);
    HalfOf(x / 4, 2 * q, r / 4);
    HalfOf(x / 8, q, r / 8);
  }

  lemma HalfOf(x: nat, q: nat, r: nat)
    requires x == 2 * q + r
    ensures x / 2 == q + r / 2 && x % 2 == r % 2
  {
  }

  /** Four bits at a time, `c` is the exclusive or of `a` and `b`. */
  predicate IsXor(a: nat, b: nat, c: nat, nibbles: nat) {
    nibbles == 0 || (NibbleXor(a % 16, b % 16, c % 16) && IsXor(a / 16, b / 16, c / 16, nibbles - 1))
  }

  predicate NibbleXor(a: nat, b: nat, c: nat) {
    BitXor(a, b, c) && BitXor(a / 2, b / 2, c / 2) && BitXor(a / 4, b / 4, c / 4) && BitXor(a / 8, b / 8, c / 8)
  }

  predicate BitXor(a: nat, b: nat, c: nat) {
    (c % 2 == 1) == ((a % 2 == 1) != (b % 2 == 1))
  }

  lemma XorOfNibbles(a: nat, b: nat, c: nat)
    requires NibbleXor(a, b, c)
    ensures Nibble(c) == Xor(Nibble(a), Nibble(b))
  {
  }

  lemma XorConcat(a: Word, b: Word, c: Word, d: Word)
    requires |a| == |b| && |c| == |d|
    ensures Xor(a + c, b + d) == Xor(a, b) + Xor(c, d)
  {
  }

  lemma {:induction false} XorOfNumbers(a: nat, b: nat, c: nat, nibbles: nat)
    requires IsXor(a, b, c, nibbles)
    ensures BitsOf(c, 4 * nibbles) == Xor(BitsOf(a, 4 * nibbles), BitsOf(b, 4 * nibbles))
  {
    hide BitsOf, Nibble, NibbleXor, Xor;
    if nibbles > 0 {
      XorOfNumbers(a / 16, b / 16, c / 16, nibbles - 1);
      XorOfNibbles(a % 16, b % 16, c % 16);
      LowNibble(a, 4 * nibbles - 4);
      LowNibble(b, 4 * nibbles - 4);
      LowNibble(c, 4 * nibbles - 4);
      XorConcat(BitsOf(a / 16, 4 * nibbles - 4), BitsOf(b / 16, 4 * nibbles - 4), Nibble(a % 16), Nibble(b % 16));
    }
  }

  lemma {:induction false} HighZero(x: nat, k: nat)
    requires x < Bits.Pow2(k)
    ensures BitsOf(x, k + 1) == [false] + BitsOf(x, k)
  {
    if k > 0 { HighZero(x / 2, k - 1); }
  }

  /** Half of a number is the number shifted by one bit. */
  lemma HalfShifts(x: nat, k: nat)
    requires x < Bits.Pow2(k + 1)
    ensures BitsOf(x / 2, k + 1) == Shr(BitsOf(x, k + 1), 1)
  {
    HighZero(x / 2, k);
  }

  lemma {:induction false} HighOne(x: nat, k: nat)
    requires x < Bits.Pow2(k)
    ensures BitsOf(Bits.Pow2(k) + x, k + 1) == [true] + BitsOf(x, k)
  {
    if k > 0 {
      HighOne(x / 2, k - 1);
      assert (Bits.Pow2(k) + x) / 2 == Bits.Pow2(k - 1) + x / 2 && (Bits.Pow2(k) + x) % 2 == x % 2;
    }
  }

  /** A number with its `k` bits in the opposite order. */
  function Mirror(x: nat, k: nat): (r: nat)
    ensures r < Bits.Pow2(k)
  {
    if k == 0 then 0 else (if x % 2 == 1 then Bits.Pow2(k - 1) else 0) + Mirror(x / 2, k - 1)
  }

  lemma {:induction false} MirrorReverses(x: nat, k: nat)
    ensures BitsOf(Mirror(x, k), k) == Reverse(BitsOf(x, k))
  {
    if k > 0 {
      MirrorReverses(x / 2, k - 1);
      HighOne(Mirror(x / 2, k - 1), k - 1);
      HighZero(Mirror(x / 2, k - 1), k - 1);
    }
  }

  lemma PowerStep(k: nat)
    ensures Bits.Pow2(k + 4) == 16 * Bits.Pow2(k)
  {
    assert Bits.Pow2(k + 4) == 2 * Bits.Pow2(k + 3) && Bits.Pow2(k + 3) == 2 * Bits.Pow2(k + 2) && Bits.Pow2(k + 2) == 2 * Bits.Pow2(k + 1);
  }

  lemma PowerValues()
    ensures Bits.Pow2(0) == 1 && Bits.Pow2(4) == 0x10 && Bits.Pow2(8) == 0x100 && Bits.Pow2(12) == 0x1000 && Bits.Pow2(16) == 0x1_0000
    ensures Bits.Pow2(20) == 0x10_0000 && Bits.Pow2(24) == 0x100_0000 && Bits.Pow2(28) == 0x1000_0000 && Bits.Pow2(32) == 0x1_0000_0000
  {
    PowerStep(0);
    PowerStep(4);
    PowerStep(8);
    PowerStep(12);
    PowerStep(16);
    PowerStep(20);
    PowerStep(24);
    PowerStep(28);
  }

  lemma MirrorNibble(x: nat, k: nat)
    ensures Mirror(x, k + 4) == Mirror(x / 16, k)
            + (if x % 2 == 1 then 8 * Bits.Pow2(k) else 0) + (if x / 2 % 2 == 1 then 4 * Bits.Pow2(k) else 0)
            + (if x / 4 % 2 == 1 then 2 * Bits.Pow2(k) else 0) + (if x / 8 % 2 == 1 then Bits.Pow2(k) else 0)
  {
    assert x / 2 / 2 == x / 4 && x / 4 / 2 == x / 8 && x / 8 / 2 == x / 16;
    assert Bits.Pow2(k + 3) == 8 * Bits.Pow2(k) && Bits.Pow2(k + 2) == 4 * Bits.Pow2(k) && Bits.Pow2(k + 1) == 2 * Bits.Pow2(k);
    assert Mirror(x, k + 4) == (if x % 2 == 1 then Bits.Pow2(k + 3) else 0) + Mirror(x / 2, k + 3);
    assert Mirror(x / 2, k + 3) == (if x / 2 % 2 == 1 then Bits.Pow2(k + 2) else 0) + Mirror(x / 4, k + 2);
    assert Mirror(x / 4, k + 2) == (if x / 4 % 2 == 1 then Bits.Pow2(k + 1) else 0) + Mirror(x / 8, k + 1);
    assert Mirror(x / 8, k + 1) == (if x / 8 % 2 == 1 then Bits.Pow2(k) else 0) + Mirror(x / 16, k);
  }

  // ---------------------------------------------------------------- the table is right

  /** `crc_32_type` of `include/boost/crc.hpp` (lines 97 to 98). */
  function Crc32(): (p: Params)
    ensures IsParams(p) && p.bits == 32
  {
    Params(32, BitsOf(0x04C11DB7, 32), BitsOf(0xFFFFFFFF, 32), BitsOf(0xFFFFFFFF, 32), true, true)
  }

  /** `s_crc32`. */
  function Table(i: nat): nat
    requires i < 16
  {
    if i == 0 then 0x00000000 else if i == 1 then 0x1db71064 else if i == 2 then 0x3b6e20c8
    else if i == 3 then 0x26d930ac else if i == 4 then 0x76dc4190 else if i == 5 then 0x6b6b51f4
    else if i == 6 then 0x4db26158 else if i == 7 then 0x5005713c else if i == 8 then 0xedb88320
    else if i == 9 then 0xf00f9344 else if i == 10 then 0xd6d6a3e8 else if i == 11 then 0xcb61b38c
    else if i == 12 then 0x9b64c2b0 else if i == 13 then 0x86d3d2d4 else if i == 14 then 0xa00ae278
    else 0xbdbdf21c
  }

  /** A look-up is the division of four bits from zero, in reflected order. */
  ghost predicate Entry(i: nat, e: nat) {
    BitsOf(e, 32) == Reverse(Divide(Zeros(32), Crc32().poly, Reverse(BitsOf(i, 4))))
  }

  lemma StepIsLinear(r: Word, s: Word, poly: Word, b: bool, c: bool)
    requires |r| == |s| == |poly| > 0
    ensures Step(Xor(r, s), poly, b != c) == Xor(Step(r, poly, b), Step(s, poly, c))
  {
    hide Shl;
    ShlXor(r, s, 1);
  }

  lemma {:induction false} DivideIsLinear(r: Word, s: Word, poly: Word, m: Word, n: Word)
    requires |r| == |s| == |poly| > 0 && |m| == |n|
    ensures Divide(Xor(r, s), poly, Xor(m, n)) == Xor(Divide(r, poly, m), Divide(s, poly, n))
    decreases |m|
  {
    hide Step;
    if m != [] {
      StepIsLinear(r, s, poly, m[0], n[0]);
      assert Xor(m, n)[1..] == Xor(m[1..], n[1..]);
      DivideIsLinear(Step(r, poly, m[0]), Step(s, poly, n[0]), poly, m[1..], n[1..]);
    }
  }

  lemma EntryOfXor(i: nat, j: nat, k: nat, a: nat, b: nat, c: nat)
    requires Entry(i, a) && Entry(j, b) && IsXor(i, j, k, 1) && IsXor(a, b, c, 8)
    ensures Entry(k, c)
  {
    hide Divide, IsXor, BitsOf, Crc32;
    XorOfNumbers(i, j, k, 1);
    XorOfNumbers(a, b, c, 8);
    ReverseXor(BitsOf(i, 4), BitsOf(j, 4));
    var poly, m, n := Crc32().poly, Reverse(BitsOf(i, 4)), Reverse(BitsOf(j, 4));
    DivideIsLinear(Zeros(32), Zeros(32), poly, m, n);
    XorZeros(Zeros(32));
    ReverseXor(Divide(Zeros(32), poly, m), Divide(Zeros(32), poly, n));
  }

  /** The polynomial starts with zeros, and is the reflection of entry 8. */
  lemma PolyBits()
    ensures var poly := BitsOf(0x04C11DB7, 32); !poly[0] && !poly[1] && !poly[2] && Reverse(poly) == BitsOf(0xEDB88320, 32)
  {
    hide BitsOf, Bits.Pow2, Mirror;
    PolyBounds();
    HighZero(0x04C11DB7, 31);
    HighZero(0x04C11DB7, 30);
    HighZero(0x04C11DB7, 29);
    PolyMirror();
    MirrorReverses(0x04C11DB7, 32);
  }

  lemma PolyBounds()
    ensures 0x04C11DB7 < Bits.Pow2(29) <= Bits.Pow2(30) <= Bits.Pow2(31)
  {
    PowerValues();
  }

  lemma PolyMirror()
    ensures Mirror(0x04C11DB7, 32) == 0xEDB88320
  {
    hide Mirror, Bits.Pow2;
    PowerValues();
    MirrorNibble(0x04C11DB7, 28);
    MirrorNibble(0x04C11DB, 24);
    MirrorNibble(0x04C11D, 20);
    MirrorNibble(0x04C11, 16);
    PolyMirror16();
  }

  lemma PolyMirror16()
    ensures Mirror(0x04C1, 16) == 0x8320
  {
    hide Mirror, Bits.Pow2;
    PowerValues();
    MirrorNibble(0x04C1, 12);
    MirrorNibble(0x04C, 8);
    MirrorNibble(0x04, 4);
    MirrorNibble(0x0, 0);
    MirrorNothing(0);
  }

  lemma MirrorNothing(x: nat)
    ensures Mirror(x, 0) == 0
  {
  }

  lemma DivideFirst(rem: Word, poly: Word, m: Word)
    requires |rem| == |poly| > 0 && m != []
    ensures Divide(rem, poly, m) == Divide(Step(rem, poly, m[0]), poly, m[1..])
  {
  }

  lemma ZeroStep(poly: Word)
    requires |poly| > 0
    ensures Step(Zeros(|poly|), poly, false) == Zeros(|poly|) && Step(Zeros(|poly|), poly, true) == poly
  {
    assert Shl(Zeros(|poly|), 1) == Zeros(|poly|);
    XorZeros(poly);
  }

  /** One set bit, followed by `k` others: the polynomial shifted `k` times, as long as its high bits are zero. */
  lemma {:induction false} OneBit(poly: Word, before: nat, k: nat)
    requires |poly| > 4 && k <= 3 && !poly[0] && !poly[1] && !poly[2]
    ensures Divide(Zeros(|poly|), poly, Zeros(before) + [true] + Zeros(k)) == Shl(poly, k)
    decreases before, k
  {
    var m := Zeros(before) + [true] + Zeros(k);
    ZeroStep(poly);
    if before > 0 {
      DivideFirst(Zeros(|poly|), poly, m);
      assert m[1..] == Zeros(before - 1) + [true] + Zeros(k);
      OneBit(poly, before - 1, k);
    } else if k == 0 {
      DivideFirst(Zeros(|poly|), poly, m);
      assert m[1..] == [];
      ShlZero(poly);
    } else {
      OneBit(poly, 0, k - 1);
      assert m == (Zeros(0) + [true] + Zeros(k - 1)) + [false];
      DivideConcat(Zeros(|poly|), poly, Zeros(0) + [true] + Zeros(k - 1), [false]);
      DivideFirst(Shl(poly, k - 1), poly, [false]);
      ShlAt(poly, k - 1, 0);
      ShlShl(poly, k - 1, 1);
    }
  }

  lemma PowerEntry(k: nat, i: nat, e: nat)
    requires k <= 3 && Reverse(BitsOf(i, 4)) == Zeros(3 - k) + [true] + Zeros(k)
    requires BitsOf(e, 32) == Shr(BitsOf(0xEDB88320, 32), k)
    ensures Entry(i, e)
  {
    hide BitsOf, Divide;
    PolyBits();
    OneBit(BitsOf(0x04C11DB7, 32), 3 - k, k);
    ReverseShl(BitsOf(0x04C11DB7, 32), k);
  }

  lemma ShrShr(a: Word, j: nat, k: nat)
    ensures Shr(Shr(a, j), k) == Shr(a, j + k)
  {
    hide Shr;
    var l, r := Shr(Shr(a, j), k), Shr(a, j + k);
    forall i: nat | i < |a| ensures l[i] == r[i] {
      ShrAt(Shr(a, j), k, i);
      ShrAt(a, j + k, i);
      if k <= i { ShrAt(a, j, i - k); }
    }
  }

  /** Entries 8, 4, 2 and 1 are shifts of the reflected polynomial, which ends in zeros. */
  lemma PowerEntries()
    ensures Entry(8, 0xedb88320) && Entry(4, 0x76dc4190) && Entry(2, 0x3b6e20c8) && Entry(1, 0x1db71064)
  {
    hide Bits.Pow2, Divide, Shr, Entry, BitsOf;
    PowerValues();
    var top := BitsOf(0xEDB88320, 32);
    Crc.ShrNothing(top);
    HalfShifts(0xEDB88320, 31);
    HalfShifts(0x76dc4190, 31);
    HalfShifts(0x3b6e20c8, 31);
    ShrShr(top, 1, 1);
    ShrShr(top, 2, 1);
    SingleBits();
    PowerEntry(0, 8, 0xEDB88320);
    PowerEntry(1, 4, 0x76dc4190);
    PowerEntry(2, 2, 0x3b6e20c8);
    PowerEntry(3, 1, 0x1db71064);
  }

  lemma SingleBit(i: nat, k: nat)
    requires k <= 3 && i < 16 && Nibble(i) == Zeros(k) + [true] + Zeros(3 - k)
    ensures Reverse(BitsOf(i, 4)) == Zeros(3 - k) + [true] + Zeros(k)
  {
    hide BitsOf, Nibble;
    LowNibble(i, 0);
    NoBits(i / 16);
    assert i % 16 == i && BitsOf(i, 4) == Nibble(i);
  }

  lemma SingleBits()
    ensures Reverse(BitsOf(8, 4)) == Zeros(3) + [true] + Zeros(0) && Reverse(BitsOf(4, 4)) == Zeros(2) + [true] + Zeros(1)
    ensures Reverse(BitsOf(2, 4)) == Zeros(1) + [true] + Zeros(2) && Reverse(BitsOf(1, 4)) == Zeros(0) + [true] + Zeros(3)
  {
    hide BitsOf;
    SingleBit(8, 0);
    SingleBit(4, 1);
    SingleBit(2, 2);
    SingleBit(1, 3);
  }

  lemma Xor0()
    ensures IsXor(1, 1, 0, 1) && IsXor(0x1db71064, 0x1db71064, 0x00000000, 8)
  {
    assert IsXor(0x1db7, 0x1db7, 0x0000, 4);
  }

  lemma Xor3()
    ensures IsXor(2, 1, 3, 1) && IsXor(0x3b6e20c8, 0x1db71064, 0x26d930ac, 8)
  {
    assert IsXor(0x3b6e, 0x1db7, 0x26d9, 4);
  }

  lemma Xor5()
    ensures IsXor(4, 1, 5, 1) && IsXor(0x76dc4190, 0x1db71064, 0x6b6b51f4, 8)
  {
    assert IsXor(0x76dc, 0x1db7, 0x6b6b, 4);
  }

  lemma Xor6()
    ensures IsXor(4, 2, 6, 1) && IsXor(0x76dc4190, 0x3b6e20c8, 0x4db26158, 8)
  {
    assert IsXor(0x76dc, 0x3b6e, 0x4db2, 4);
  }

  lemma Xor7()
    ensures IsXor(4, 3, 7, 1) && IsXor(0x76dc4190, 0x26d930ac, 0x5005713c, 8)
  {
    assert IsXor(0x76dc, 0x26d9, 0x5005, 4);
  }

  lemma Xor9()
    ensures IsXor(8, 1, 9, 1) && IsXor(0xedb88320, 0x1db71064, 0xf00f9344, 8)
  {
    assert IsXor(0xedb8, 0x1db7, 0xf00f, 4);
  }

  lemma Xor10()
    ensures IsXor(8, 2, 10, 1) && IsXor(0xedb88320, 0x3b6e20c8, 0xd6d6a3e8, 8)
  {
    assert IsXor(0xedb8, 0x3b6e, 0xd6d6, 4);
  }

  lemma Xor11()
    ensures IsXor(8, 3, 11, 1) && IsXor(0xedb88320, 0x26d930ac, 0xcb61b38c, 8)
  {
    assert IsXor(0xedb8, 0x26d9, 0xcb61, 4);
  }

  lemma Xor12()
    ensures IsXor(8, 4, 12, 1) && IsXor(0xedb88320, 0x76dc4190, 0x9b64c2b0, 8)
  {
    assert IsXor(0xedb8, 0x76dc, 0x9b64, 4);
  }

  lemma Xor13()
    ensures IsXor(8, 5, 13, 1) && IsXor(0xedb88320, 0x6b6b51f4, 0x86d3d2d4, 8)
  {
    assert IsXor(0xedb8, 0x6b6b, 0x86d3, 4);
  }

  lemma Xor14()
    ensures IsXor(8, 6, 14, 1) && IsXor(0xedb88320, 0x4db26158, 0xa00ae278, 8)
  {
    assert IsXor(0xedb8, 0x4db2, 0xa00a, 4);
  }

  lemma Xor15()
    ensures IsXor(8, 7, 15, 1) && IsXor(0xedb88320, 0x5005713c, 0xbdbdf21c, 8)
  {
    assert IsXor(0xedb8, 0x5005, 0xbdbd, 4);
  }

  /** All sixteen constants of the source's table. */
  lemma TableIsRight(i: nat)
    requires i < 16
    ensures Entry(i, Table(i))
  {
    hide Entry, IsXor;
    PowerEntries();
    Xor0();
    EntryOfXor(1, 1, 0, 0x1db71064, 0x1db71064, 0x00000000);
    Xor3();
    EntryOfXor(2, 1, 3, 0x3b6e20c8, 0x1db71064, 0x26d930ac);
    Xor5();
    EntryOfXor(4, 1, 5, 0x76dc4190, 0x1db71064, 0x6b6b51f4);
    Xor6();
    EntryOfXor(4, 2, 6, 0x76dc4190, 0x3b6e20c8, 0x4db26158);
    Xor7();
    EntryOfXor(4, 3, 7, 0x76dc4190, 0x26d930ac, 0x5005713c);
    Xor9();
    EntryOfXor(8, 1, 9, 0xedb88320, 0x1db71064, 0xf00f9344);
    Xor10();
    EntryOfXor(8, 2, 10, 0xedb88320, 0x3b6e20c8, 0xd6d6a3e8);
    Xor11();
    EntryOfXor(8, 3, 11, 0xedb88320, 0x26d930ac, 0xcb61b38c);
    Xor12();
    EntryOfXor(8, 4, 12, 0xedb88320, 0x76dc4190, 0x9b64c2b0);
    Xor13();
    EntryOfXor(8, 5, 13, 0xedb88320, 0x6b6b51f4, 0x86d3d2d4);
    Xor14();
    EntryOfXor(8, 6, 14, 0xedb88320, 0x4db26158, 0xa00ae278);
    Xor15();
    EntryOfXor(8, 7, 15, 0xedb88320, 0x5005713c, 0xbdbdf21c);
  }

  // ---------------------------------------------------------------- the loop

  lemma {:induction false} AllOnes(k: nat)
    ensures BitsOf(Bits.Pow2(k) - 1, k) == Not(Zeros(k))
  {
    if k > 0 {
      AllOnes(k - 1);
      assert (Bits.Pow2(k) - 1) / 2 == Bits.Pow2(k - 1) - 1 && (Bits.Pow2(k) - 1) % 2 == 1;
    }
  }

  lemma OnesInvert(w: Word)
    requires |w| == 32
    ensures Xor(w, Crc32().final) == Not(w) && Crc32().init == Not(Zeros(32)) == Reverse(Not(Zeros(32)))
  {
    hide BitsOf;
    PowerValues();
    AllOnes(32);
  }

  /** Two bits of the index at a time: the register moves down by four, and the table's entry is added. */
  function Half(c: Word, nibble: nat): (r: Word)
    requires |c| == 32
    ensures |r| == 32
  {
    var index := Xor(Low(c, 4), BitsOf(nibble, 4));
    IndexBound(index);
    Xor(Shr(c, 4), BitsOf(Table(ValueOf(index)), 32))
  }

  lemma IndexBound(w: Word)
    requires |w| == 4
    ensures ValueOf(w) < 16 && BitsOf(ValueOf(w), 4) == w
  {
    ValueBound(w);
    BitsOfValue(w);
    assert Bits.Pow2(4) == 16;
  }

  /** The register is the remainder of `crc_basic` in the opposite order. */
  lemma HalfDivides(c: Word, nibble: nat)
    requires |c| == 32
    ensures Reverse(Half(c, nibble)) == Divide(Reverse(c), Crc32().poly, Reverse(BitsOf(nibble, 4)))
  {
    hide Divide, BitsOf, Shr, Shl, Low, Top, Crc32, Table;
    var poly, m := Crc32().poly, Reverse(BitsOf(nibble, 4));
    var index := Xor(Low(c, 4), BitsOf(nibble, 4));
    IndexBound(index);
    TableIsRight(ValueOf(index));
    var q := Divide(Zeros(32), poly, Reverse(index));
    LowIsTop(c);
    ReverseXor(Low(c, 4), BitsOf(nibble, 4));
    XorCommutes(Reverse(Low(c, 4)), m);
    DivideAtOnce(Reverse(c), poly, m);
    ReverseXor(Shr(c, 4), Reverse(q));
    ReverseTwice(q);
    ReverseTwice(c);
    ReverseShl(Reverse(c), 4);
    ReverseTwice(Shl(Reverse(c), 4));
    XorCommutes(q, Shl(Reverse(c), 4));
  }

  lemma LowIsTop(c: Word)
    requires |c| == 32
    ensures Reverse(Low(c, 4)) == Top(Reverse(c), 4)
  {
  }

  function ByteStep(c: Word, byte: nat): (r: Word)
    requires |c| == 32
    ensures |r| == 32
  {
    Half(Half(c, byte % 16), byte / 16)
  }

  lemma ByteDivides(c: Word, byte: nat)
    requires |c| == 32 && byte < 256
    ensures Reverse(ByteStep(c, byte)) == Divide(Reverse(c), Crc32().poly, MessageBits(Crc32(), byte))
  {
    hide Divide, Half, BitsOf;
    HalfDivides(c, byte % 16);
    HalfDivides(Half(c, byte % 16), byte / 16);
    TwoNibbles(byte);
    DivideConcat(Reverse(c), Crc32().poly, Reverse(BitsOf(byte % 16, 4)), Reverse(BitsOf(byte / 16, 4)));
  }

  lemma TwoNibbles(byte: nat)
    requires byte < 256
    ensures Reverse(BitsOf(byte, 8)) == Reverse(BitsOf(byte % 16, 4)) + Reverse(BitsOf(byte / 16, 4))
  {
    hide BitsOf, Nibble;
    LowNibble(byte, 4);
    LowNibble(byte % 16, 0);
    NoBits(byte % 16 / 16);
    assert byte % 16 % 16 == byte % 16;
    ReverseConcat(BitsOf(byte / 16, 4), Nibble(byte % 16));
  }

  lemma NoBits(x: nat)
    ensures BitsOf(x, 0) == []
  {
  }

  lemma ReverseConcat(a: Word, b: Word)
    ensures Reverse(a + b) == Reverse(b) + Reverse(a)
  {
  }

  /** What `mz_crc32` returns. */
  function Updated(crc: Word, bytes: seq<nat>): (r: Word)
    requires |crc| == 32
    ensures |r| == 32
  {
    Not(Folded(Not(crc), bytes))
  }

  function Folded(c: Word, bytes: seq<nat>): (r: Word)
    requires |c| == 32
    ensures |r| == 32
  {
    if bytes == [] then c else ByteStep(Folded(c, bytes[..|bytes| - 1]), bytes[|bytes| - 1])
  }

  lemma {:induction false} FoldedConcat(c: Word, a: seq<nat>, b: seq<nat>)
    requires |c| == 32
    ensures Folded(c, a + b) == Folded(Folded(c, a), b)
  {
    if b == [] {
      assert a + b == a;
    } else {
      assert (a + b)[..|a + b| - 1] == a + b[..|b| - 1];
      FoldedConcat(c, a, b[..|b| - 1]);
    }
  }

  /** A checksum can be continued: `mz_crc32(mz_crc32(c, a), b)` is `mz_crc32(c, a + b)`. */
  lemma Continues(crc: Word, a: seq<nat>, b: seq<nat>)
    requires |crc| == 32
    ensures Updated(Updated(crc, a), b) == Updated(crc, a + b)
  {
    var f := Folded(Not(crc), a);
    assert Not(Not(f)) == f;
    FoldedConcat(Not(crc), a, b);
  }

  lemma {:induction false} FoldedDivides(c: Word, bytes: seq<nat>)
    requires |c| == 32 && forall i :: 0 <= i < |bytes| ==> bytes[i] < 256
    ensures Reverse(Folded(c, bytes)) == Remainder(Crc32(), Reverse(c), bytes)
  {
    hide ByteStep, Divide, Crc32;
    if bytes != [] {
      FoldedDivides(c, bytes[..|bytes| - 1]);
      ByteDivides(Folded(c, bytes[..|bytes| - 1]), bytes[|bytes| - 1]);
    }
  }

  /** Started from `MZ_CRC32_INIT`, it is the CRC-32 of `crc_basic`, and so of `crc_optimal`. */
  lemma IsCrc32(bytes: seq<nat>)
    requires forall i :: 0 <= i < |bytes| ==> bytes[i] < 256
    ensures Updated(Zeros(32), bytes) == Checksum(Crc32(), bytes)
  {
    hide Folded, Remainder;
    var c := Not(Zeros(32));
    OnesInvert(Folded(c, bytes));
    FoldedDivides(c, bytes);
    ReverseTwice(Folded(c, bytes));
  }

  /** `mz_crc32` (lines 993 to 1001). */
  method MzCrc32(crc: Word, bytes: seq<nat>) returns (r: Word)
    requires |crc| == 32 && forall i :: 0 <= i < |bytes| ==> bytes[i] < 256
    ensures r == Updated(crc, bytes)
  {
    hide ByteStep;
    var c := Not(crc);
    for i := 0 to |bytes|
      invariant |c| == 32 && c == Folded(Not(crc), bytes[..i])
    {
      assert bytes[..i + 1][..i] == bytes[..i];
      c := ByteStep(c, bytes[i]);
    }
    assert bytes[..|bytes|] == bytes;
    r := Not(c);
  }

  /** Three implementations, one checksum. */
  method AllAgree(bytes: seq<nat>) returns (mz: Word, basic: Word, optimal: Word)
    requires forall i :: 0 <= i < |bytes| ==> bytes[i] < 256
    ensures mz == basic == optimal
  {
    hide Updated, Checksum, Crc32;
    mz := MzCrc32(Zeros(32), bytes);
    IsCrc32(bytes);
    OneBlock(bytes);
    basic, optimal := Crc.Agree(Crc32(), [bytes], bytes, 32, 32);
  }

  lemma OneBlock(bytes: seq<nat>)
    ensures Crc.Joined([bytes]) == bytes
  {
    assert [bytes][..0] == [];
  }
}
