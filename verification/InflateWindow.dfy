/** What `tinfl_decompress` of `src/miniz.c` reads does not depend on the window that the header of a stream declares,
    nor on whether what came before was clean. */
module InflateWindow {
  import opened Bits
  import opened HuffmanCode
  import opened BitPieces
  import P = CodeLengthPacking
  import opened DeflateSymbols
  import opened DynamicHeader
  import opened FixedCode
  import opened InflateBlock
  import opened InflateHeader
  import opened InflateStream

  /** The same bits are left. */
  predicate SameLeft(r: Input, s: Input) {
    r.bits == s.bits && r.left == s.left
  }

  /** The same is read, and the same is left. */
  predicate Alike<T(==)>(a: Read<T>, b: Read<T>) {
    if a.Ok? then b.Ok? && a.value == b.value && SameLeft(a.rest, b.rest) else a == b
  }

  lemma AlikeBits(r: Input, s: Input, n: nat)
    requires SameLeft(r, s)
    ensures Alike(NextBits(r, n), NextBits(s, n))
  {
  }

  lemma AlikeSymbol(r: Input, s: Input, sizes: Sizes)
    requires SameLeft(r, s)
    ensures Alike(NextSymbol(r, sizes), NextSymbol(s, sizes))
  {
  }

  lemma AlikeItem(r: Input, s: Input, lit: Sizes, dist: Sizes)
    requires SameLeft(r, s)
    ensures Alike(NextItem(r, lit, dist), NextItem(s, lit, dist))
  {
    hide NextSymbol, NextMatch;
    AlikeSymbol(r, s, lit);
    var a, b := NextSymbol(r, lit), NextSymbol(s, lit);
    if a.Ok? && 257 <= a.value <= 287 { AlikeMatch(a.rest, b.rest, a.value, dist); }
  }

  lemma AlikeMatch(r: Input, s: Input, symbol: nat, dist: Sizes)
    requires SameLeft(r, s) && 257 <= symbol <= 287
    ensures Alike(NextMatch(r, symbol, dist), NextMatch(s, symbol, dist))
  {
    hide NextSymbol, NextBits, LengthBase, LengthBits, DistBase, DistBits;
    AlikeBits(r, s, LengthBits(symbol));
    var a, b := NextBits(r, LengthBits(symbol)), NextBits(s, LengthBits(symbol));
    if a.Ok? {
      AlikeSymbol(a.rest, b.rest, dist);
      var c, d := NextSymbol(a.rest, dist), NextSymbol(b.rest, dist);
      if c.Ok? && c.value <= 29 { AlikeBits(c.rest, d.rest, DistBits(c.value)); }
    }
  }

  lemma {:induction false} AlikeOutput(r: Input, s: Input, lit: Sizes, dist: Sizes, out: seq<Byte>, cap: nat)
    requires SameLeft(r, s) && |out| <= cap
    ensures Alike(BlockOutput(r, lit, dist, out, cap), BlockOutput(s, lit, dist, out, cap))
    decreases cap - |out|
  {
    hide NextItem, Emit;
    AlikeItem(r, s, lit, dist);
    var a, b := NextItem(r, lit, dist), NextItem(s, lit, dist);
    if a.Ok? && a.value.Of? {
      var t := a.value.token;
      if !(t.Match? && t.dist > |out|) && |out| + Written(t) <= cap {
        AlikeOutput(a.rest, b.rest, lit, dist, Emit(t, out), cap);
      }
    }
  }

  lemma {:induction false} AlikeThird(r: Input, s: Input, i: nat, sent: nat, sizes: ThirdSizes)
    requires SameLeft(r, s) && i <= sent <= SIZE_SYMBOLS
    ensures Alike(NextThird(r, i, sent, sizes), NextThird(s, i, sent, sizes))
    decreases sent - i
  {
    hide NextBits;
    AlikeBits(r, s, 3);
    var a, b := NextBits(r, 3), NextBits(s, 3);
    if i < sent && a.Ok? {
      ThreeBits(r);
      AlikeThird(a.rest, b.rest, i + 1, sent, sizes[SWIZZLE[i] := a.value]);
    }
  }

  lemma {:induction false} AlikeLengths(r: Input, s: Input, third: Sizes, out: Sizes, total: nat)
    requires SameLeft(r, s)
    ensures Alike(NextLengths(r, third, out, total), NextLengths(s, third, out, total))
    decreases total - |out|
  {
    hide NextSymbol, NextBits, P.RunOf;
    AlikeSymbol(r, s, third);
    var a, b := NextSymbol(r, third), NextSymbol(s, third);
    if |out| < total && a.Ok? {
      var x := a.value;
      if x < 16 {
        AlikeLengths(a.rest, b.rest, third, out + [x], total);
      } else if x != 16 || out != [] {
        AlikeBits(a.rest, b.rest, ExtraBits(x));
        var c, d := NextBits(a.rest, ExtraBits(x)), NextBits(b.rest, ExtraBits(x));
        if c.Ok? {
          RunIsShort(out, x, c.value, out + P.RunOf(x, c.value, out));
          AlikeLengths(c.rest, d.rest, third, out + P.RunOf(x, c.value, out), total);
        }
      }
    }
  }

  lemma AlikeCodes(r: Input, s: Input)
    requires SameLeft(r, s)
    ensures Alike(HeaderCodes(r), HeaderCodes(s))
  {
    hide NextBits, NextThird, NextLengths, Accepted, Standard;
    AlikeBits(r, s, 5);
    var a, b := NextBits(r, 5), NextBits(s, 5);
    if a.Ok? {
      AlikeBits(a.rest, b.rest, 5);
      var c, d := NextBits(a.rest, 5), NextBits(b.rest, 5);
      if c.Ok? {
        AlikeBits(c.rest, d.rest, 4);
        var e, f := NextBits(c.rest, 4), NextBits(d.rest, 4);
        if e.Ok? {
          CountBits(r);
          CountBits(a.rest);
          CountBits(c.rest);
          AlikeThird(e.rest, f.rest, 0, e.value + 4, NO_SIZES);
          var g, h := NextThird(e.rest, 0, e.value + 4, NO_SIZES), NextThird(f.rest, 0, e.value + 4, NO_SIZES);
          if g.Ok? { AlikeLengths(g.rest, h.rest, g.value, [], a.value + 257 + c.value + 1); }
        }
      }
    }
  }

  lemma {:induction false} AlikeBytes(r: Input, s: Input, n: nat, out: seq<Byte>, cap: nat)
    requires SameLeft(r, s) && |out| <= cap
    ensures Alike(NextBytes(r, n, out, cap), NextBytes(s, n, out, cap))
    decreases n
  {
    hide NextBits;
    AlikeBits(r, s, 8);
    var a, b := NextBits(r, 8), NextBits(s, 8);
    if n > 0 && |out| < cap && a.Ok? {
      EightBits(r);
      AlikeBytes(a.rest, b.rest, n - 1, out + [a.value], cap);
    }
  }

  lemma AlikeWord(r: Input, s: Input)
    requires SameLeft(r, s)
    ensures Alike(NextWord(r), NextWord(s))
  {
    hide NextBits;
    AlikeBits(r, s, 8);
    if NextBits(r, 8).Ok? { AlikeBits(NextBits(r, 8).rest, NextBits(s, 8).rest, 8); }
  }

  lemma AlikeStored(r: Input, s: Input, out: seq<Byte>, cap: nat)
    requires SameLeft(r, s) && |out| <= cap
    ensures Alike(NextStored(r, out, cap), NextStored(s, out, cap))
  {
    hide NextWord, NextBytes, Shr;
    AlikeWord(Aligned(r), Aligned(s));
    var a, b := NextWord(Aligned(r)), NextWord(Aligned(s));
    if a.Ok? {
      AlikeWord(a.rest, b.rest);
      var c, d := NextWord(a.rest), NextWord(b.rest);
      if c.Ok? { AlikeBytes(c.rest, d.rest, a.value, out, cap); }
    }
  }

  lemma AlikeOwn(r: Input, s: Input, out: seq<Byte>, cap: nat)
    requires SameLeft(r, s) && |out| <= cap
    ensures Alike(NextOwn(r, out, cap), NextOwn(s, out, cap))
  {
    hide HeaderCodes, BlockOutput;
    AlikeCodes(r, s);
    var a, b := HeaderCodes(r), HeaderCodes(s);
    if a.Ok? { AlikeOutput(a.rest, b.rest, a.value.lit, a.value.dist, out, cap); }
  }

  lemma AlikeBlock(r: Input, s: Input, out: seq<Byte>, cap: nat)
    requires SameLeft(r, s) && |out| <= cap
    ensures Alike(NextBlock(r, out, cap), NextBlock(s, out, cap))
  {
    hide NextBits, NextStored, NextOwn, BlockOutput, StaticLit, StaticDist;
    AlikeBits(r, s, 3);
    var a, b := NextBits(r, 3), NextBits(s, 3);
    if a.Ok? {
      AlikeStored(a.rest, b.rest, out, cap);
      AlikeOutput(a.rest, b.rest, StaticLit(), StaticDist(), out, cap);
      AlikeOwn(a.rest, b.rest, out, cap);
    }
  }

  /** The same bits are read as the same blocks, whatever window was declared. */
  lemma {:induction false} AlikeBlocks(r: Input, s: Input, out: seq<Byte>, cap: nat)
    requires SameLeft(r, s) && |out| <= cap
    ensures Alike(NextBlocks(r, out, cap), NextBlocks(s, out, cap))
    decreases r.left
  {
    hide NextBlock;
    AlikeBlock(r, s, out, cap);
    var a, b := NextBlock(r, out, cap), NextBlock(s, out, cap);
    if a.Ok? && !a.value.last { AlikeBlocks(a.rest, b.rest, a.value.out, cap); }
  }
}
