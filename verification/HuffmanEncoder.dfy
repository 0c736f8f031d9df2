/** Codes for symbols, and symbols as bits: `tdefl_optimize_huffman_table` and `TDEFL_PUT_BITS` of `src/miniz.c`. */
module HuffmanEncoder {
  import opened Bits
  import opened HuffmanCode

  // ---------------------------------------------------------------- code assignment

  /** The loop that turns a code around, in the encoder as in the inflater. */
  method ReverseBits(code: nat, size: nat) returns (rev: nat)
    ensures rev == Reverse(code, size)
  {
    hide Reverse, Append;
    var l: nat, c: nat := size, code;
    rev := 0;
    AppendNothing(Reverse(code, size), size);
    while l > 0
      invariant 0 <= l <= size && Append(Reverse(c, l), l, rev) == Reverse(code, size)
    {
      ReverseStep(c, l);
      AppendAssociates(Reverse(c / 2, l - 1), l - 1, c % 2, 1, rev);
      OneBit(c % 2, rev);
      rev := 2 * rev + c % 2;
      c := c / 2;
      l := l - 1;
    }
    NoBits(c, rev);
  }

  lemma OneBit(b: nat, rest: nat)
    requires b < 2
    ensures Append(b, 1, rest) == b + 2 * rest
  {
    assert Append(b / 2, 0, rest) == rest;
  }

  lemma NoBits(c: nat, rest: nat)
    ensures Append(Reverse(c, 0), 0, rest) == rest
  {
  }

  /** `next_code` when the first `n` symbols have their codes. */
  ghost predicate NextCodes(next: seq<nat>, sizes: Sizes, n: nat, limit: nat)
    requires n <= |sizes|
  {
    |next| > limit && forall len :: 1 <= len <= limit ==> next[len] == First(sizes, len) + CountIn(sizes, n, len)
  }

  lemma CountNone(sizes: Sizes, len: nat)
    ensures CountIn(sizes, 0, len) == 0
  {
  }

  /** `next_code` before any symbol is numbered. */
  method FirstCodes(sizes: Sizes, numCodes: seq<nat>, limit: nat) returns (next: seq<nat>)
    requires 1 <= limit <= MAX_BITS && |numCodes| == 33
    requires forall len :: 1 <= len <= limit ==> numCodes[len] == Count(sizes, len)
    ensures |next| == 33 && NextCodes(next, sizes, 0, limit)
  {
    hide Count, CountIn;
    next := seq(33, i => 0);
    var j, i := 0, 2;
    while i <= limit
      invariant 2 <= i <= limit + 1 || i == 2
      invariant |next| == 33 && j == First(sizes, i - 1)
      invariant forall len :: 1 <= len < i ==> next[len] == First(sizes, len)
    {
      j := 2 * (j + numCodes[i - 1]);
      next := next[i := j];
      i := i + 1;
    }
    forall len | 1 <= len <= limit ensures next[len] == First(sizes, len) + CountIn(sizes, 0, len) {
      CountNone(sizes, len);
    }
  }

  /** The last part of `tdefl_optimize_huffman_table`: numbers the symbols and reverses their codes. */
  method AssignCodes(sizes: Sizes, numCodes: seq<nat>, limit: nat) returns (codes: seq<nat>)
    requires 1 <= limit <= MAX_BITS && |numCodes| == 33
    requires forall i :: 0 <= i < |sizes| ==> sizes[i] <= limit
    requires forall len :: 1 <= len <= limit ==> numCodes[len] == Count(sizes, len)
    ensures |codes| == |sizes|
    ensures forall s :: 0 <= s < |sizes| ==> codes[s] == if sizes[s] == 0 then 0 else CodeWord(sizes, s)
  {
    hide First, Count;
    var next := FirstCodes(sizes, numCodes, limit);
    codes := [];
    while |codes| < |sizes|
      invariant |codes| <= |sizes| && |next| == 33 && NextCodes(next, sizes, |codes|, limit)
      invariant forall s :: 0 <= s < |codes| ==> codes[s] == if sizes[s] == 0 then 0 else CodeWord(sizes, s)
    {
      var size, rev := sizes[|codes|], 0;
      if size != 0 {
        rev := ReverseBits(next[size], size);
        next := next[size := next[size] + 1];
      }
      codes := codes + [rev];
    }
  }

  // ---------------------------------------------------------------- the bit stream

  /** The code as it is written: low bit first. */
  function CodeWord(sizes: Sizes, s: nat): nat
    requires s < |sizes|
  {
    Reverse(Code(sizes, s), sizes[s])
  }

  /** The symbols' codes one after the other, as the low bits of a number. */
  ghost function Encoded(sizes: Sizes, symbols: seq<nat>): nat
    requires forall i :: 0 <= i < |symbols| ==> symbols[i] < |sizes|
  {
    if symbols == [] then 0
    else
      var s := symbols[0];
      Append(CodeWord(sizes, s), sizes[s], Encoded(sizes, symbols[1..]))
  }

  ghost function EncodedLength(sizes: Sizes, symbols: seq<nat>): nat
    requires forall i :: 0 <= i < |symbols| ==> symbols[i] < |sizes|
  {
    if symbols == [] then 0 else sizes[symbols[0]] + EncodedLength(sizes, symbols[1..])
  }

  ghost predicate AllUsed(sizes: Sizes, symbols: seq<nat>) {
    forall i :: 0 <= i < |symbols| ==> Used(sizes, symbols[i])
  }

  /** The output buffer of the compressor: whole bytes, and up to seven bits that wait for more. */
  class BitWriter {
    var output: seq<Byte>
    var bitBuffer: nat
    var bitsIn: nat

    ghost predicate Valid()
      reads this
    {
      bitsIn < 8 && bitBuffer < Pow2(bitsIn)
    }

    ghost function Stream(): nat
      reads this
    {
      Append(BytesValue(output), 8 * |output|, bitBuffer)
    }

    ghost function Length(): nat
      reads this
    {
      8 * |output| + bitsIn
    }

    constructor ()
      ensures Valid() && Stream() == 0 && Length() == 0
    {
      output, bitBuffer, bitsIn := [], 0, 0;
    }

    /** `TDEFL_PUT_BITS`; the buffer never needs more than the 32 bits it has. */
    method PutBits(bits: nat, len: nat)
      requires Valid() && len <= 16 && bits < Pow2(len)
      modifies this
      ensures Valid() && Length() == old(Length()) + len
      ensures Stream() == Append(old(Stream()), old(Length()), bits)
    {
      hide Pow2, BytesValue, Append;
      Pow2Values();
      AppendBound(bitBuffer, bitsIn, bits, len);
      AppendAssociates(BytesValue(output), 8 * |output|, bitBuffer, bitsIn, bits);
      assert Append(bitBuffer, bitsIn, bits) < 0x1_0000_0000 by {
        Pow2Monotone(bitsIn + len, 32);
      }
      bitBuffer := Append(bitBuffer, bitsIn, bits);
      bitsIn := bitsIn + len;
      while bitsIn >= 8
        invariant bitBuffer < Pow2(bitsIn)
        invariant 8 * |output| + bitsIn == old(Length()) + len
        invariant Stream() == Append(old(Stream()), old(Length()), bits)
        decreases bitsIn
      {
        FlushByte(output, bitBuffer, bitsIn);
        output := output + [bitBuffer % 256];
        bitBuffer := bitBuffer / 256;
        bitsIn := bitsIn - 8;
      }
    }

    method PutSymbols(sizes: Sizes, codes: seq<nat>, symbols: seq<nat>)
      requires Valid() && First(sizes, 16) <= 65536 && AllUsed(sizes, symbols)
      requires |codes| == |sizes|
      requires forall s :: 0 <= s < |sizes| && sizes[s] > 0 ==> codes[s] == CodeWord(sizes, s)
      modifies this
      ensures Valid() && Length() == old(Length()) + EncodedLength(sizes, symbols)
      ensures Stream() == Append(old(Stream()), old(Length()), Encoded(sizes, symbols))
    {
      hide First, Code, CodeWord, Append, BytesValue, Pow2;
      var i := 0;
      assert symbols[..0] == [];
      StreamBound(output, bitBuffer, bitsIn);
      AppendNothing(Stream(), Length());
      while i < |symbols|
        invariant 0 <= i <= |symbols| && Valid()
        invariant Length() == old(Length()) + EncodedLength(sizes, symbols[..i])
        invariant Stream() == Append(old(Stream()), old(Length()), Encoded(sizes, symbols[..i]))
      {
        var s := symbols[i];
        assert Used(sizes, s);
        CodeWordFits(sizes, s);
        AppendAssociates(old(Stream()), old(Length()), Encoded(sizes, symbols[..i]), EncodedLength(sizes, symbols[..i]), codes[s]);
        EncodedOneMore(sizes, symbols[..i], s);
        PutBits(codes[s], sizes[s]);
        assert symbols[..i + 1] == symbols[..i] + [s];
        i := i + 1;
      }
      assert symbols[..i] == symbols;
    }
  }

  lemma CodeWordFits(sizes: Sizes, s: nat)
    requires s < |sizes|
    ensures CodeWord(sizes, s) < Pow2(sizes[s])
  {
  }

  lemma StreamBound(output: seq<Byte>, bitBuffer: nat, bitsIn: nat)
    requires bitBuffer < Pow2(bitsIn)
    ensures Append(BytesValue(output), 8 * |output|, bitBuffer) < Pow2(8 * |output| + bitsIn)
  {
    AppendBound(BytesValue(output), 8 * |output|, bitBuffer, bitsIn);
  }

  lemma FlushByte(output: seq<Byte>, bitBuffer: nat, bitsIn: nat)
    requires bitsIn >= 8 && bitBuffer < Pow2(bitsIn)
    ensures bitBuffer / 256 < Pow2(bitsIn - 8)
    ensures Append(BytesValue(output + [bitBuffer % 256]), 8 * |output| + 8, bitBuffer / 256)
         == Append(BytesValue(output), 8 * |output|, bitBuffer)
  {
    hide BytesValue, Append, Low, Shr, Pow2;
    BytesValueAppend(output, bitBuffer % 256);
    AppendAssociates(BytesValue(output), 8 * |output|, bitBuffer % 256, 8, bitBuffer / 256);
    LowEight(bitBuffer);
    AppendSplit(bitBuffer, 8);
    ShrBound(bitBuffer, 8, bitsIn);
  }

  lemma {:induction false} EncodedOneMore(sizes: Sizes, symbols: seq<nat>, s: nat)
    requires s < |sizes| && forall i :: 0 <= i < |symbols| ==> symbols[i] < |sizes|
    ensures Encoded(sizes, symbols + [s]) == Append(Encoded(sizes, symbols), EncodedLength(sizes, symbols), CodeWord(sizes, s))
    ensures EncodedLength(sizes, symbols + [s]) == EncodedLength(sizes, symbols) + sizes[s]
  {
    var more := symbols + [s];
    if symbols == [] {
      assert more[1..] == [];
      AppendNothing(CodeWord(sizes, s), sizes[s]);
    } else {
      var head, tail := symbols[0], symbols[1..];
      assert more[1..] == tail + [s];
      EncodedOneMore(sizes, tail, s);
      AppendAssociates(CodeWord(sizes, head), sizes[head], Encoded(sizes, tail), EncodedLength(sizes, tail), CodeWord(sizes, s));
    }
  }
}
