/** How much input `tinfl_decompress` of `src/miniz.c` can need: with enough of it, it never stops for more. */
module InflateEnough {
  import opened Bits
  import opened HuffmanCode
  import opened HuffmanDecoder
  import opened Sequences
  import opened BitPieces
  import P = CodeLengthPacking
  import opened LzTokens
  import opened DeflateSymbols
  import opened DeflateBlock
  import opened DeflateStream
  import opened DynamicHeader
  import opened FixedCode
  import opened InflateBlock
  import opened InflateHeader
  import opened InflateStream

  /** `n` bits later. */
  predicate Later(r: Input, next: Input, n: nat) {
    next.left <= r.left && r.left - next.left <= n && next.bits == Shr(r.bits, r.left - next.left)
  }

  /** At most `n` bits are taken, and they are enough. */
  ghost predicate Within<T>(r: Input, a: Read<T>, n: nat) {
    if a.Ok? then Later(r, a.rest, n) else a.why != NeedsMoreInput
  }

  lemma LaterTwice(r: Input, s: Input, t: Input, m: nat, n: nat)
    requires Later(r, s, m) && Later(s, t, n)
    ensures Later(r, t, m + n)
  {
    hide Shr;
    ShrShr(r.bits, r.left - s.left, s.left - t.left);
  }

  lemma LaterAlso(r: Input, s: Input, also: bool, m: nat, n: nat)
    requires Later(r, s, m) && m <= n
    ensures Later(r, s.(clean := also), n)
  {
  }

  lemma NotLater(r: Input, n: nat)
    ensures Later(r, r, n)
  {
  }

  lemma EnoughBits(r: Input, n: nat)
    requires r.left >= n
    ensures NextBits(r, n).Ok? && Later(r, NextBits(r, n).rest, n)
  {
  }

  lemma EnoughForSymbol(r: Input, sizes: Sizes)
    requires r.left >= 15
    ensures NextSymbol(r, sizes).Ok? && Later(r, NextSymbol(r, sizes).rest, 15)
  {
    hide Decoded, Spelled, Shr;
  }

  // ---------------------------------------------------------------- blocks of codes

  lemma EnoughForMatch(r: Input, symbol: nat, dist: Sizes)
    requires r.left >= 33 && 257 <= symbol <= 287
    ensures Within(r, NextMatch(r, symbol, dist), 33)
  {
    hide NextSymbol, NextBits, LengthBase, LengthBits, DistBase, DistBits, Later, Near;
    EnoughBits(r, LengthBits(symbol));
    var a := NextBits(r, LengthBits(symbol));
    StillLeft(r, a.rest, LengthBits(symbol), 5);
    EnoughForSymbol(a.rest, dist);
    var c := NextSymbol(a.rest, dist);
    LaterTwice(r, a.rest, c.rest, LengthBits(symbol), 15);
    StillLeft(r, c.rest, LengthBits(symbol) + 15, 20);
    if c.value <= 29 {
      EnoughBits(c.rest, DistBits(c.value));
      var e := NextBits(c.rest, DistBits(c.value));
      LaterTwice(r, c.rest, e.rest, LengthBits(symbol) + 15, DistBits(c.value));
      var t := Match(LengthBase(symbol) + a.value, DistBase(c.value) + e.value);
      LaterAlso(r, e.rest, e.rest.clean && symbol <= 285 && !(symbol == 284 && a.value == 31) && Near(t, e.rest.window),
                LengthBits(symbol) + 15 + DistBits(c.value), 33);
    }
  }

  lemma StillLeft(r: Input, s: Input, m: nat, n: nat)
    requires Later(r, s, m) && m <= n
    ensures s.left + n >= r.left && s.left <= r.left
  {
  }

  lemma EnoughForItem(r: Input, lit: Sizes, dist: Sizes)
    requires r.left >= 48
    ensures Within(r, NextItem(r, lit, dist), 48)
  {
    hide NextSymbol, NextMatch, Later;
    EnoughForSymbol(r, lit);
    var a := NextSymbol(r, lit);
    StillLeft(r, a.rest, 15, 15);
    LaterAlso(r, a.rest, a.rest.clean, 15, 48);
    if 257 <= a.value <= 287 {
      EnoughForMatch(a.rest, a.value, dist);
      if NextMatch(a.rest, a.value, dist).Ok? { LaterTwice(r, a.rest, NextMatch(a.rest, a.value, dist).rest, 15, 33); }
    }
  }

  lemma {:induction false} EnoughForOutput(r: Input, lit: Sizes, dist: Sizes, out: seq<Byte>, cap: nat)
    requires |out| <= cap && r.left >= 48 * (cap - |out| + 1)
    ensures Within(r, BlockOutput(r, lit, dist, out, cap), 48 * (cap - |out| + 1))
    decreases cap - |out|
  {
    hide NextItem, Emit, Later;
    EnoughForItem(r, lit, dist);
    var a := NextItem(r, lit, dist);
    if a.Ok? {
      StillLeft(r, a.rest, 48, 48);
      LaterAlso(r, a.rest, a.rest.clean, 48, 48 * (cap - |out| + 1));
      if a.value.Of? {
        var t := a.value.token;
        if !(t.Match? && t.dist > |out|) && |out| + Written(t) <= cap {
          EnoughForOutput(a.rest, lit, dist, Emit(t, out), cap);
          var b := BlockOutput(a.rest, lit, dist, Emit(t, out), cap);
          if b.Ok? {
            var m := 48 * (cap - |Emit(t, out)| + 1);
            LaterTwice(r, a.rest, b.rest, 48, m);
            LaterAlso(r, b.rest, b.rest.clean, 48 + m, 48 * (cap - |out| + 1));
          }
        }
      }
    }
  }

  // ---------------------------------------------------------------- headers

  lemma {:induction false} EnoughForThird(r: Input, i: nat, sent: nat, sizes: ThirdSizes)
    requires i <= sent <= SIZE_SYMBOLS && r.left >= 3 * (sent - i)
    ensures NextThird(r, i, sent, sizes).Ok? && Later(r, NextThird(r, i, sent, sizes).rest, 3 * (sent - i))
    decreases sent - i
  {
    hide NextBits, Later;
    if i == sent {
      NotLater(r, 0);
    } else {
      EnoughBits(r, 3);
      var a := NextBits(r, 3);
      StillLeft(r, a.rest, 3, 3);
      ThreeBits(r);
      EnoughForThird(a.rest, i + 1, sent, sizes[SWIZZLE[i] := a.value]);
      LaterTwice(r, a.rest, NextThird(r, i, sent, sizes).rest, 3, 3 * (sent - (i + 1)));
    }
  }

  lemma {:induction false} EnoughForLengths(r: Input, third: Sizes, out: Sizes, total: nat)
    requires |out| <= total ==> r.left >= 22 * (total - |out|)
    ensures Within(r, NextLengths(r, third, out, total), if |out| <= total then 22 * (total - |out|) else 0)
    decreases total - |out|
  {
    hide NextSymbol, NextBits, P.RunOf, Later;
    if |out| >= total {
      NotLater(r, 0);
    } else {
      var all := 22 * (total - |out|);
      EnoughForSymbol(r, third);
      var a := NextSymbol(r, third);
      StillLeft(r, a.rest, 15, 15);
      var x := a.value;
      if x < 16 {
        EnoughForLengths(a.rest, third, out + [x], total);
        var b := NextLengths(a.rest, third, out + [x], total);
        if b.Ok? {
          LaterTwice(r, a.rest, b.rest, 15, 22 * (total - |out| - 1));
          LaterAlso(r, b.rest, b.rest.clean, 15 + 22 * (total - |out| - 1), all);
        }
      } else if x != 16 || out != [] {
        EnoughBits(a.rest, ExtraBits(x));
        var c := NextBits(a.rest, ExtraBits(x));
        StillLeft(a.rest, c.rest, ExtraBits(x), 7);
        LaterTwice(r, a.rest, c.rest, 15, ExtraBits(x));
        var more := out + P.RunOf(x, c.value, out);
        RunIsShort(out, x, c.value, more);
        EnoughForLengths(c.rest, third, more, total);
        var b := NextLengths(c.rest, third, more, total);
        if b.Ok? {
          var m := if |more| <= total then 22 * (total - |more|) else 0;
          LaterTwice(r, c.rest, b.rest, 15 + ExtraBits(x), m);
          LaterAlso(r, b.rest, b.rest.clean, 15 + ExtraBits(x) + m, all);
        }
      }
    }
  }

  /** What a header can need: 14 bits of counts, 19 lengths of three bits, and 320 lengths of at most 22 bits. */
  const HEADER_BITS := 7111

  lemma EnoughForCodes(r: Input)
    requires r.left >= HEADER_BITS
    ensures Within(r, HeaderCodes(r), HEADER_BITS)
  {
    hide NextBits, NextThird, NextLengths, Accepted, Standard, Later;
    EnoughBits(r, 5);
    var a := NextBits(r, 5);
    StillLeft(r, a.rest, 5, 5);
    EnoughBits(a.rest, 5);
    var b := NextBits(a.rest, 5);
    LaterTwice(r, a.rest, b.rest, 5, 5);
    StillLeft(r, b.rest, 10, 10);
    EnoughBits(b.rest, 4);
    var c := NextBits(b.rest, 4);
    LaterTwice(r, b.rest, c.rest, 10, 4);
    StillLeft(r, c.rest, 14, 14);
    CountBits(r);
    CountBits(a.rest);
    CountBits(b.rest);
    EnoughForThird(c.rest, 0, c.value + 4, NO_SIZES);
    var d := NextThird(c.rest, 0, c.value + 4, NO_SIZES);
    LaterTwice(r, c.rest, d.rest, 14, 3 * (c.value + 4));
    LaterAlso(r, d.rest, d.rest.clean, 14 + 3 * (c.value + 4), 71);
    StillLeft(r, d.rest, 71, 71);
    if Accepted(d.value) {
      var total := a.value + 257 + b.value + 1;
      EnoughForLengths(d.rest, d.value, [], total);
      var e := NextLengths(d.rest, d.value, [], total);
      if e.Ok? {
        LaterTwice(r, d.rest, e.rest, 71, 22 * total);
        LaterAlso(r, e.rest, if HeaderCodes(r).Ok? then HeaderCodes(r).rest.clean else e.rest.clean, 71 + 22 * total, HEADER_BITS);
      }
    }
  }

  // ---------------------------------------------------------------- blocks

  lemma {:induction false} EnoughForBytes(r: Input, n: nat, out: seq<Byte>, cap: nat)
    requires |out| <= cap && r.left >= 8 * (cap - |out|)
    ensures Within(r, NextBytes(r, n, out, cap), 8 * (cap - |out|))
    decreases n
  {
    hide NextBits, Later;
    NotLater(r, 8 * (cap - |out|));
    if n > 0 && |out| < cap {
      EnoughBits(r, 8);
      var a := NextBits(r, 8);
      StillLeft(r, a.rest, 8, 8);
      EightBits(r);
      EnoughForBytes(a.rest, n - 1, out + [a.value], cap);
      var b := NextBytes(a.rest, n - 1, out + [a.value], cap);
      if b.Ok? { LaterTwice(r, a.rest, b.rest, 8, 8 * (cap - |out| - 1)); }
    }
  }

  lemma EnoughForWord(r: Input)
    requires r.left >= 16
    ensures NextWord(r).Ok? && Later(r, NextWord(r).rest, 16)
  {
    hide NextBits, Later;
    EnoughBits(r, 8);
    var a := NextBits(r, 8);
    StillLeft(r, a.rest, 8, 8);
    EnoughBits(a.rest, 8);
    LaterTwice(r, a.rest, NextBits(a.rest, 8).rest, 8, 8);
  }

  lemma AlignedLater(r: Input)
    ensures Later(r, Aligned(r), 7)
  {
  }

  /** What a block can need, for an output buffer of `cap` bytes. */
  function BlockBits(cap: nat): nat { HEADER_BITS + 48 * (cap + 1) + 3 }

  lemma EnoughForStored(r: Input, out: seq<Byte>, cap: nat)
    requires |out| <= cap && r.left >= BlockBits(cap) - 3
    ensures Within(r, NextStored(r, out, cap), BlockBits(cap) - 3)
  {
    hide NextWord, NextBytes, Aligned, Later;
    var s := Aligned(r);
    AlignedLater(r);
    StillLeft(r, s, 7, 7);
    EnoughForWord(s);
    var a := NextWord(s);
    LaterTwice(r, s, a.rest, 7, 16);
    StillLeft(r, a.rest, 23, 23);
    EnoughForWord(a.rest);
    var b := NextWord(a.rest);
    LaterTwice(r, a.rest, b.rest, 23, 16);
    StillLeft(r, b.rest, 39, 39);
    if a.value + b.value == 65535 {
      EnoughForBytes(b.rest, a.value, out, cap);
      var c := NextBytes(b.rest, a.value, out, cap);
      if c.Ok? {
        LaterTwice(r, b.rest, c.rest, 39, 8 * (cap - |out|));
        LaterAlso(r, c.rest, c.rest.clean, 39 + 8 * (cap - |out|), BlockBits(cap) - 3);
      }
    }
  }

  lemma EnoughForCoded(r: Input, lit: Sizes, dist: Sizes, out: seq<Byte>, cap: nat)
    requires |out| <= cap && r.left >= 48 * (cap + 1)
    ensures Within(r, BlockOutput(r, lit, dist, out, cap), 48 * (cap + 1))
  {
    hide BlockOutput, Later;
    EnoughForOutput(r, lit, dist, out, cap);
    var a := BlockOutput(r, lit, dist, out, cap);
    if a.Ok? { LaterAlso(r, a.rest, a.rest.clean, 48 * (cap - |out| + 1), 48 * (cap + 1)); }
  }

  lemma EnoughForOwn(r: Input, out: seq<Byte>, cap: nat)
    requires |out| <= cap && r.left >= BlockBits(cap) - 3
    ensures Within(r, NextOwn(r, out, cap), BlockBits(cap) - 3)
  {
    hide HeaderCodes, BlockOutput, Later;
    EnoughForCodes(r);
    var a := HeaderCodes(r);
    if a.Ok? {
      StillLeft(r, a.rest, HEADER_BITS, HEADER_BITS);
      EnoughForCoded(a.rest, a.value.lit, a.value.dist, out, cap);
      var b := BlockOutput(a.rest, a.value.lit, a.value.dist, out, cap);
      if b.Ok? { LaterTwice(r, a.rest, b.rest, HEADER_BITS, 48 * (cap + 1)); }
    }
  }

  lemma EnoughForBlock(r: Input, out: seq<Byte>, cap: nat)
    requires |out| <= cap && r.left >= BlockBits(cap)
    ensures Within(r, NextBlock(r, out, cap), BlockBits(cap))
  {
    hide NextBits, NextStored, NextOwn, BlockOutput, StaticLit, StaticDist, Later;
    EnoughBits(r, 3);
    var a := NextBits(r, 3);
    StillLeft(r, a.rest, 3, 3);
    EnoughForStored(a.rest, out, cap);
    EnoughForCoded(a.rest, StaticLit(), StaticDist(), out, cap);
    EnoughForOwn(a.rest, out, cap);
    var kind := a.value / 2;
    var b := if kind == 0 then NextStored(a.rest, out, cap)
             else if kind == 1 then BlockOutput(a.rest, StaticLit(), StaticDist(), out, cap)
             else NextOwn(a.rest, out, cap);
    if kind <= 2 && b.Ok? {
      var m := if kind == 1 then 48 * (cap + 1) else BlockBits(cap) - 3;
      LaterTwice(r, a.rest, b.rest, 3, m);
      LaterAlso(r, b.rest, b.rest.clean, 3 + m, BlockBits(cap));
    }
  }

  // ---------------------------------------------------------------- zeros behind the input

  lemma {:induction false} ZeroBits(n: nat)
    ensures Low(0, n) == 0 && Shr(0, n) == 0
  {
    if n > 0 { ZeroBits(n - 1); }
  }

  /** Zeros are a stored block whose length fails its test. */
  lemma ZerosFail(r: Input, out: seq<Byte>, cap: nat)
    requires r.bits == 0 && r.left >= 42 && |out| <= cap
    ensures NextBlock(r, out, cap) == Fail(Failed)
  {
    hide Low, Shr;
    ZeroBits(3);
    ZeroBits(8);
    ZeroBits((r.left - 3) % 8);
  }

  lemma BitsLater(r: Input, s: Input, n: nat, k: nat)
    requires Later(r, s, n) && r.bits < Pow2(k)
    ensures r.left - s.left <= k ==> s.bits < Pow2(k - (r.left - s.left))
    ensures r.left - s.left > k ==> s.bits == 0
  {
    hide Shr, Pow2;
    var c := r.left - s.left;
    if c <= k {
      ShrBound(r.bits, c, k);
    } else {
      ShrBound(r.bits, k, k);
      NoPower();
      ShrShr(r.bits, k, c - k);
      ZeroBits(c - k);
    }
  }

  lemma NoPower()
    ensures Pow2(0) == 1
  {
  }

  /** Behind `k` bits there are only zeros, and enough of them: blocks come to an end. */
  lemma {:induction false} EnoughForBlocks(r: Input, k: nat, out: seq<Byte>, cap: nat)
    requires |out| <= cap && r.bits < Pow2(k) && r.left >= k + 2 * BlockBits(cap) + 39
    ensures var a := NextBlocks(r, out, cap); if a.Ok? then a.rest.left >= 39 else a.why != NeedsMoreInput
    decreases r.left
  {
    hide NextBlock, Later, Pow2;
    EnoughForBlock(r, out, cap);
    var a := NextBlock(r, out, cap);
    if a.Ok? {
      StillLeft(r, a.rest, BlockBits(cap), BlockBits(cap));
      BitsLater(r, a.rest, BlockBits(cap), k);
      if !a.value.last {
        if r.left - a.rest.left <= k {
          EnoughForBlocks(a.rest, k - (r.left - a.rest.left), a.value.out, cap);
        } else {
          ZerosFail(a.rest, a.value.out, cap);
        }
      }
    }
  }

  lemma {:induction false} ShrSmaller(x: nat, n: nat)
    ensures Shr(x, n) <= x
  {
    if n > 0 { ShrSmaller(x / 2, n - 1); }
  }

  lemma {:induction false} ZeroBytes(n: nat)
    ensures BytesValue(Repeated<Byte>(0, n)) == 0
  {
    if n > 0 {
      assert Repeated<Byte>(0, n)[1..] == Repeated<Byte>(0, n - 1);
      ZeroBytes(n - 1);
      LowOfNothing(8);
      Pow2Values();
      AppendNothing(0, 8);
    }
  }
}
