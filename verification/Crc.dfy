/** `include/boost/crc.hpp`: `crc_basic`, which divides bit by bit, and `crc_optimal`, which divides a byte
    at a time with a table, in the order of the bits that suits the input.  A register may be wider than
    the CRC; what is above the CRC's bits does not matter. */
module Crc {
  import Bits
  import opened Words
  import opened CrcDivision

  ghost predicate FitsRegister(p: Params, width: nat) {
    IsParams(p) && width >= p.bits && width >= 8
  }

  // ---------------------------------------------------------------- registers wider than the CRC

  function Widen(a: Word, width: nat): (w: Word)
    requires |a| <= width
    ensures |w| == width && Low(w, |a|) == a
  {
    Zeros(width - |a|) + a
  }

  lemma LowXor(a: Word, b: Word, n: nat)
    requires |a| == |b| >= n
    ensures Low(Xor(a, b), n) == Xor(Low(a, n), Low(b, n))
  {
  }

  lemma LowShl(a: Word, n: nat, k: nat)
    requires |a| >= n
    ensures Low(Shl(a, k), n) == Shl(Low(a, n), k)
  {
    hide Shl;
    var l, r := Low(Shl(a, k), n), Shl(Low(a, n), k);
    forall i: nat | i < n ensures l[i] == r[i] {
      ShlAt(a, k, |a| - n + i);
      ShlAt(Low(a, n), k, i);
    }
  }

  lemma ShrWidened(a: Word, width: nat, k: nat)
    requires |a| <= width
    ensures Shr(Widen(a, width), k) == Widen(Shr(a, k), width)
  {
    hide Shr;
    var l, r := Shr(Widen(a, width), k), Widen(Shr(a, k), width);
    forall i: nat | i < width ensures l[i] == r[i] {
      ShrAt(Widen(a, width), k, i);
      if i >= width - |a| { ShrAt(a, k, i - (width - |a|)); }
    }
  }

  lemma XorWidened(a: Word, b: Word, width: nat)
    requires |a| == |b| <= width
    ensures Xor(Widen(a, width), Widen(b, width)) == Widen(Xor(a, b), width)
  {
  }

  /** The first `i` bits of `v` in their place. */
  ghost function Partly(v: Word, width: nat, i: nat): (w: Word)
    requires i <= |v| <= width
    ensures |w| == width
  {
    Zeros(width - |v|) + v[..i] + Zeros(|v| - i)
  }

  lemma PartlyNext(v: Word, width: nat, i: nat)
    requires i < |v| <= width
    ensures Partly(v, width, i + 1) == if v[i] then Partly(v, width, i)[width - |v| + i := true] else Partly(v, width, i)
  {
  }

  lemma PartlyAll(v: Word, width: nat)
    requires |v| <= width
    ensures Partly(v, width, |v|) == Widen(v, width) && Partly(v, width, 0) == Zeros(width)
  {
    assert v[..|v|] == v;
  }

  /** The lowest bit after `i` shifts. */
  lemma LowestBit(x: Word, bits: nat, i: nat)
    requires i < bits <= |x|
    ensures Shr(x, i)[|x| - 1] == Reverse(Low(x, bits))[i] && Shr(Shr(x, i), 1) == Shr(x, i + 1)
  {
    OneShiftMore(x, i);
    hide Zeros, Reverse;
    assert Shr(x, i)[|x| - 1] == x[|x| - 1 - i];
    assert Low(x, bits)[bits - 1 - i] == x[|x| - 1 - i];
  }

  lemma OneShiftMore(x: Word, i: nat)
    requires i < |x|
    ensures Shr(Shr(x, i), 1) == Shr(x, i + 1)
  {
    var s := Shr(x, i);
    assert s[..|x| - 1] == Zeros(i) + x[..|x| - i - 1];
    assert Zeros(1) + Zeros(i) == Zeros(i + 1);
  }

  /** `reflector<Bits>::reflect` (lines 307 to 326). */
  method Reflect(x: Word, bits: nat) returns (r: Word)
    requires bits <= |x|
    ensures r == Widen(Reverse(Low(x, bits)), |x|)
  {
    hide Partly, Shr, Low, Reverse, Widen, Zeros;
    var width := |x|;
    ghost var v := Reverse(Low(x, bits));
    PartlyAll(v, width);
    ShrNothing(x);
    var y := x;
    r := Zeros(width);
    for i := 0 to bits
      invariant |r| == width && y == Shr(x, i) && r == Partly(v, width, i)
    {
      LowestBit(x, bits, i);
      PartlyNext(v, width, i);
      if y[width - 1] {
        r := r[width - bits + i := true];
      }
      y := Shr(y, 1);
    }
  }

  lemma ShrNothing(x: Word)
    ensures Shr(x, 0) == x
  {
    assert x[..|x|] == x;
  }

  // ---------------------------------------------------------------- bit by bit

  class CrcBasic {
    const p: Params
    const width: nat
    var rem: Word

    ghost predicate Valid()
      reads this
    {
      FitsRegister(p, width) && |rem| == width
    }

    /** The bits that count. */
    ghost function Current(): Word
      requires Valid()
      reads this
    {
      Low(rem, p.bits)
    }

    constructor (p: Params, width: nat)
      requires FitsRegister(p, width)
      ensures Valid() && this.p == p && Current() == p.init
    {
      this.p, this.width := p, width;
      rem := Widen(p.init, width);
    }

    /** `process_bit` (lines 727 to 751). */
    method ProcessBit(bit: bool)
      requires Valid()
      modifies this
      ensures Valid() && Current() == Step(old(Current()), p.poly, bit)
    {
      var high := width - p.bits;
      ghost var old_ := Low(rem, p.bits);
      rem := rem[high := rem[high] != bit];
      var divide := rem[high];
      rem := Shl(rem, 1);
      assert Low(rem, p.bits) == Shl(old_, 1);
      if divide {
        LowXor(rem, Widen(p.poly, width), p.bits);
        rem := Xor(rem, Widen(p.poly, width));
      }
    }

    /** `process_bits` (lines 753 to 770): the `count` low bits of a byte, the highest of them first. */
    method ProcessBits(byte: Word, count: nat)
      requires Valid() && |byte| == 8 && count <= 8
      modifies this
      ensures Valid() && Current() == Divide(old(Current()), p.poly, byte[8 - count..])
    {
      hide Divide, Step, Shl;
      var bits := Shl(byte, 8 - count);
      ghost var start := Current();
      ghost var message := byte[8 - count..];
      assert message[..0] == [];
      DivideNothing(start, p.poly);
      for i := 0 to count
        invariant Valid() && Current() == Divide(start, p.poly, message[..i])
        invariant bits == Shl(byte, 8 - count + i)
      {
        ShlAt(byte, 8 - count + i, 0);
        assert message[..i + 1] == message[..i] + [message[i]];
        DivideConcat(start, p.poly, message[..i], [message[i]]);
        DivideOne(Current(), p.poly, message[i]);
        ProcessBit(bits[0]);
        ShlShl(byte, 8 - count + i, 1);
        bits := Shl(bits, 1);
      }
      assert message[..count] == message;
    }

    /** `process_byte` (lines 772 to 782). */
    method ProcessByte(byte: nat)
      requires Valid() && byte < 256
      modifies this
      ensures Valid() && Current() == Divide(old(Current()), p.poly, MessageBits(p, byte))
    {
      var bits := BitsOf(byte, 8);
      if p.reflectIn {
        bits := Reflect(bits, 8);
      }
      assert bits[8 - 8..] == bits == MessageBits(p, byte);
      ProcessBits(bits, 8);
    }

    /** `process_block` (lines 784 to 797). */
    method ProcessBlock(bytes: seq<nat>)
      requires Valid() && forall i :: 0 <= i < |bytes| ==> bytes[i] < 256
      modifies this
      ensures Valid() && Current() == Remainder(p, old(Current()), bytes)
    {
      for i := 0 to |bytes|
        invariant Valid() && Current() == Remainder(p, old(Current()), bytes[..i])
      {
        assert bytes[..i + 1][..i] == bytes[..i];
        ProcessByte(bytes[i]);
      }
      assert bytes[..|bytes|] == bytes;
    }

    /** `checksum` (lines 814 to 823). */
    method Sum() returns (r: Word)
      requires Valid()
      ensures r == Finished(p, Current())
    {
      r := rem;
      if p.reflectRem {
        r := Reflect(rem, p.bits);
      }
      LowXor(r, Widen(p.final, width), p.bits);
      r := Low(Xor(r, Widen(p.final, width)), p.bits);
    }
  }

  lemma DivideOne(rem: Word, poly: Word, bit: bool)
    requires |rem| == |poly| > 0
    ensures Divide(rem, poly, [bit]) == Step(rem, poly, bit)
  {
    assert [bit][1..] == [];
  }

  // ---------------------------------------------------------------- a byte at a time

  /** The bits of a table index in the order in which the table's bytes are divided. */
  function IndexBits(p: Params, i: nat): (w: Word)
    ensures |w| == 8
  {
    if p.reflectIn then Reverse(BitsOf(i, 8)) else BitsOf(i, 8)
  }

  /** What dividing a byte from zero leaves, reflected with the input. */
  ghost predicate Entry(p: Params, width: nat, i: nat, e: Word)
    requires FitsRegister(p, width)
  {
    var r := Divide(Zeros(p.bits), p.poly, IndexBits(p, i));
    |e| == width && if p.reflectIn then e == Widen(Reverse(r), width) else Low(e, p.bits) == r
  }

  lemma EntrySize(p: Params, width: nat, i: nat, e: Word)
    requires FitsRegister(p, width) && Entry(p, width, i, e)
    ensures |e| == width
  {
  }

  lemma ByteValue(w: Word)
    requires |w| == 8
    ensures ValueOf(w) < 256 && BitsOf(ValueOf(w), 8) == w
  {
    ValueBound(w);
    BitsOfValue(w);
    assert Bits.Pow2(8) == 256;
  }

  /** Lines 512 to 527: one bit. */
  method DivideBit(p: Params, width: nat, rem: Word, bit: bool) returns (r: Word)
    requires FitsRegister(p, width) && |rem| == width
    ensures |r| == width && Low(r, p.bits) == Step(Low(rem, p.bits), p.poly, bit)
  {
    var high := width - p.bits;
    r := rem;
    if bit {
      r := r[high := !r[high]];
    }
    assert Low(r, p.bits)[0] == (Low(rem, p.bits)[0] != bit);
    assert Shl(Low(r, p.bits), 1) == Shl(Low(rem, p.bits), 1);
    LowShl(r, p.bits, 1);
    if r[high] {
      LowXor(Shl(r, 1), Widen(p.poly, width), p.bits);
      r := Xor(Shl(r, 1), Widen(p.poly, width));
    } else {
      r := Shl(r, 1);
    }
  }

  /** Lines 507 to 528: the division of one byte, in a register. */
  method Dividend(p: Params, width: nat, dividend: nat) returns (rem: Word)
    requires FitsRegister(p, width) && dividend < 256
    ensures |rem| == width && Low(rem, p.bits) == Divide(Zeros(p.bits), p.poly, BitsOf(dividend, 8))
  {
    hide Step, Shl, BitsOf, Divide;
    var bits := BitsOf(dividend, 8);
    rem := Zeros(width);
    assert Low(rem, p.bits) == Zeros(p.bits) && bits[..0] == [];
    DivideNothing(Zeros(p.bits), p.poly);
    for i := 0 to 8
      invariant |rem| == width && Low(rem, p.bits) == Divide(Zeros(p.bits), p.poly, bits[..i])
    {
      assert bits[..i + 1] == bits[..i] + [bits[i]];
      DivideConcat(Zeros(p.bits), p.poly, bits[..i], [bits[i]]);
      DivideOne(Low(rem, p.bits), p.poly, bits[i]);
      rem := DivideBit(p, width, rem, bits[i]);
    }
    assert bits[..8] == bits;
  }

  lemma DivideNothing(rem: Word, poly: Word)
    requires |rem| == |poly| > 0
    ensures Divide(rem, poly, []) == rem
  {
  }

  /** Where a dividend's remainder goes. */
  function Place(p: Params, d: nat): (i: nat)
    requires d < 256
    ensures i < 256
  {
    ByteValue(Reverse(BitsOf(d, 8)));
    if p.reflectIn then ValueOf(Reverse(BitsOf(d, 8))) else d
  }

  lemma PlaceTwice(p: Params, d: nat)
    requires d < 256
    ensures Place(p, Place(p, d)) == d && IndexBits(p, Place(p, d)) == BitsOf(d, 8)
  {
    ByteValue(Reverse(BitsOf(d, 8)));
    ReverseTwice(BitsOf(d, 8));
    assert Bits.Pow2(8) == 256;
    ValueOfBits(d, 8);
  }

  /** `init_table` (lines 488 to 536). */
  method InitTable(p: Params, width: nat) returns (t: array<Word>)
    requires FitsRegister(p, width)
    ensures fresh(t) && t.Length == 256 && forall i: nat :: i < 256 ==> Entry(p, width, i, t[i])
  {
    hide Entry, Place, BitsOf, IndexBits;
    t := new Word[256](_ => []);
    var dividend := 0;
    while dividend < 256
      invariant 0 <= dividend <= 256
      invariant forall d: nat :: d < dividend ==> Entry(p, width, Place(p, d), t[Place(p, d)])
    {
      var rem := Dividend(p, width, dividend);
      if p.reflectIn {
        rem := Reflect(rem, p.bits);
      }
      EntryMade(p, width, dividend, rem);
      OtherPlaces(p, dividend);
      t[Place(p, dividend)] := rem;
      dividend := dividend + 1;
    }
    forall i: nat | i < 256 ensures Entry(p, width, i, t[i]) {
      PlaceTwice(p, i);
    }
  }

  lemma EntryMade(p: Params, width: nat, d: nat, rem: Word)
    requires FitsRegister(p, width) && d < 256
    requires var r := Divide(Zeros(p.bits), p.poly, BitsOf(d, 8));
             |rem| == width && if p.reflectIn then rem == Widen(Reverse(r), width) else Low(rem, p.bits) == r
    ensures Entry(p, width, Place(p, d), rem)
  {
    PlaceTwice(p, d);
  }

  lemma OtherPlaces(p: Params, d: nat)
    requires d < 256
    ensures forall e: nat :: e < d ==> Place(p, e) != Place(p, d)
  {
    hide Place;
    forall e: nat | e < d ensures Place(p, e) != Place(p, d) {
      PlaceTwice(p, d);
      PlaceTwice(p, e);
    }
  }

  /** The table index for a byte (lines 577 and 614). */
  function Index(p: Params, rem: Word, byte: nat): (w: Word)
    requires |rem| >= 8
    ensures |w| == 8
  {
    Xor(BitsOf(byte, 8), if p.reflectIn then Low(rem, 8) else AlignMsb(rem, p.bits))
  }

  /** The highest byte of the CRC's bits (lines 546 to 559). */
  function AlignMsb(rem: Word, bits: nat): (w: Word)
    requires |rem| >= 8
    ensures |w| == 8
  {
    if bits > 8 then Low(Shr(rem, bits - 8), 8) else Low(Shl(rem, 8 - bits), 8)
  }

  lemma AlignedTop(rem: Word, bits: nat)
    requires |rem| >= 8 && 0 < bits <= |rem|
    ensures AlignMsb(rem, bits) == Top(Low(rem, bits), 8)
  {
  }

  lemma LowTop(rem: Word, bits: nat)
    requires |rem| >= 8 && 0 < bits <= |rem| && rem == Widen(Low(rem, bits), |rem|)
    ensures Low(rem, 8) == Reverse(Top(Reverse(Low(rem, bits)), 8))
  {
  }

  /** One byte, in the order of `crc_basic` or in the other: the new remainder of the table-driven CRC. */
  lemma ByteStep(p: Params, width: nat, rem: Word, byte: nat, e: Word)
    requires FitsRegister(p, width) && |rem| == width && byte < 256 && !p.reflectIn
    requires Entry(p, width, ValueOf(Index(p, rem, byte)), e)
    ensures Low(Xor(Shl(rem, 8), e), p.bits) == Divide(Low(rem, p.bits), p.poly, MessageBits(p, byte))
  {
    hide Divide, Shl, AlignMsb, Low;
    AlignedTop(rem, p.bits);
    ByteValue(Index(p, rem, byte));
    DivideAtOnce(Low(rem, p.bits), p.poly, BitsOf(byte, 8));
    LowXor(Shl(rem, 8), e, p.bits);
    LowShl(rem, p.bits, 8);
    XorCommutes(Low(e, p.bits), Shl(Low(rem, p.bits), 8));
  }

  lemma ByteStepReflected(p: Params, width: nat, rem: Word, byte: nat, e: Word)
    requires FitsRegister(p, width) && |rem| == width && byte < 256 && p.reflectIn
    requires rem == Widen(Low(rem, p.bits), width) && Entry(p, width, ValueOf(Index(p, rem, byte)), e)
    ensures var r := Xor(Shr(rem, 8), e); var low := Low(r, p.bits);
            && r == Widen(low, width)
            && Reverse(low) == Divide(Reverse(Low(rem, p.bits)), p.poly, MessageBits(p, byte))
  {
    hide Divide, Shl, Shr, Low, Top, Widen;
    var current, m := Reverse(Low(rem, p.bits)), MessageBits(p, byte);
    LowTop(rem, p.bits);
    ByteValue(Index(p, rem, byte));
    ReverseXor(BitsOf(byte, 8), Reverse(Top(current, 8)));
    ReverseTwice(Top(current, 8));
    DivideAtOnce(current, p.poly, m);
    var q := Divide(Zeros(p.bits), p.poly, Xor(m, Top(current, 8)));
    ShrWidened(Low(rem, p.bits), width, 8);
    XorWidened(Shr(Low(rem, p.bits), 8), Reverse(q), width);
    ReverseXor(Shr(Low(rem, p.bits), 8), Reverse(q));
    ReverseTwice(q);
    ReverseShl(current, 8);
    ReverseTwice(Low(rem, p.bits));
    ReverseTwice(Shl(current, 8));
    XorCommutes(q, Shl(current, 8));
  }

  class CrcOptimal {
    const p: Params
    const width: nat
    const table: array<Word>
    var rem: Word

    ghost predicate Valid()
      reads this, table
    {
      && FitsRegister(p, width) && |rem| == width && table.Length == 256
      && (p.reflectIn ==> rem == Widen(Low(rem, p.bits), width))
      && forall i: nat :: i < 256 ==> Entry(p, width, i, table[i])
    }

    /** The remainder in the order of `crc_basic`. */
    ghost function Current(): Word
      requires Valid()
      reads this, table
    {
      if p.reflectIn then Reverse(Low(rem, p.bits)) else Low(rem, p.bits)
    }

    /** Lines 832 to 843. */
    constructor (p: Params, width: nat)
      requires FitsRegister(p, width)
      ensures Valid() && this.p == p && Current() == p.init && fresh(table)
    {
      hide Entry;
      this.p, this.width := p, width;
      var entries := InitTable(p, width);
      table := entries;
      var start := Widen(p.init, width);
      if p.reflectIn {
        start := Reflect(start, p.bits);
      }
      rem := start;
      new;
      ReverseTwice(p.init);
    }

    /** `process_block` (lines 944 to 966). */
    method ProcessBlock(bytes: seq<nat>)
      requires Valid() && forall i :: 0 <= i < |bytes| ==> bytes[i] < 256
      modifies this
      ensures Valid() && Current() == Remainder(p, old(Current()), bytes)
    {
      hide Entry, Divide, MessageBits, Widen, Low, Reverse, Shl, Shr, Xor, Index;
      for k := 0 to |bytes|
        invariant Valid() && Current() == Remainder(p, old(Current()), bytes[..k])
      {
        assert bytes[..k + 1][..k] == bytes[..k];
        var index := Index(p, rem, bytes[k]);
        ByteValue(index);
        var e := table[ValueOf(index)];
        EntrySize(p, width, ValueOf(index), e);
        if p.reflectIn {
          ByteStepReflected(p, width, rem, bytes[k], e);
          rem := Xor(Shr(rem, 8), e);
        } else {
          ByteStep(p, width, rem, bytes[k], e);
          rem := Xor(Shl(rem, 8), e);
        }
      }
      assert bytes[..|bytes|] == bytes;
    }

    /** `checksum` (lines 984 to 995): reflected once more if input and remainder differ. */
    method Sum() returns (r: Word)
      requires Valid()
      ensures r == Finished(p, Current())
    {
      r := rem;
      if p.reflectRem != p.reflectIn {
        r := Reflect(rem, p.bits);
      }
      ReverseTwice(Low(rem, p.bits));
      LowXor(r, Widen(p.final, width), p.bits);
      r := Low(Xor(r, Widen(p.final, width)), p.bits);
    }
  }

  /** Blocks fed one after the other. */
  method OptimalOf(p: Params, blocks: seq<seq<nat>>, ghost bytes: seq<nat>, width: nat) returns (r: Word)
    requires FitsRegister(p, width)
    requires bytes == Joined(blocks) && forall i :: 0 <= i < |bytes| ==> bytes[i] < 256
    ensures r == Checksum(p, bytes)
  {
    hide Remainder, Finished, Entry;
    var crc := new CrcOptimal(p, width);
    RemainderOfNothing(p, p.init);
    for k := 0 to |blocks|
      invariant crc.Valid() && crc.p == p && fresh(crc)
      invariant crc.Current() == Remainder(p, p.init, Joined(blocks[..k]))
    {
      assert blocks[..k + 1][..k] == blocks[..k];
      BlockOfBytes(blocks, k);
      RemainderConcat(p, p.init, Joined(blocks[..k]), blocks[k]);
      crc.ProcessBlock(blocks[k]);
    }
    assert blocks[..|blocks|] == blocks;
    r := crc.Sum();
  }

  /** The two implementations agree on every byte sequence, however it is split into blocks and whatever
      the widths of their registers. */
  method Agree(p: Params, blocks: seq<seq<nat>>, bytes: seq<nat>, basicWidth: nat, optimalWidth: nat) returns (basicSum: Word, optimalSum: Word)
    requires FitsRegister(p, basicWidth) && FitsRegister(p, optimalWidth)
    requires bytes == Joined(blocks) && forall i :: 0 <= i < |bytes| ==> bytes[i] < 256
    ensures basicSum == optimalSum == Checksum(p, bytes)
  {
    hide Remainder, Finished;
    var basic := new CrcBasic(p, basicWidth);
    basic.ProcessBlock(bytes);
    basicSum := basic.Sum();
    optimalSum := OptimalOf(p, blocks, bytes, optimalWidth);
  }

  lemma BlockOfBytes(blocks: seq<seq<nat>>, k: nat)
    requires k < |blocks| && forall i :: 0 <= i < |Joined(blocks)| ==> Joined(blocks)[i] < 256
    ensures forall i :: 0 <= i < |blocks[k]| ==> blocks[k][i] < 256
  {
    JoinedPart(blocks, k);
    forall i | 0 <= i < |blocks[k]| ensures blocks[k][i] < 256 {
      assert blocks[k][i] in Joined(blocks);
    }
  }

  function Joined(blocks: seq<seq<nat>>): seq<nat> {
    if blocks == [] then [] else Joined(blocks[..|blocks| - 1]) + blocks[|blocks| - 1]
  }

  lemma {:induction false} JoinedPart(blocks: seq<seq<nat>>, k: nat)
    requires k < |blocks|
    ensures forall x :: x in blocks[k] ==> x in Joined(blocks)
  {
    if k < |blocks| - 1 { JoinedPart(blocks[..|blocks| - 1], k); }
  }

  lemma RemainderOfNothing(p: Params, rem: Word)
    requires IsParams(p) && |rem| == p.bits
    ensures Remainder(p, rem, []) == rem && Joined([]) == []
  {
  }
}
