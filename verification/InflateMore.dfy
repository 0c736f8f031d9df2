/** More input never changes what `tinfl_decompress` of `src/miniz.c` has read or why it has stopped, unless it stopped for more
    input. */
module InflateMore {
  import opened Bits
  import opened HuffmanCode
  import opened HuffmanDecoder
  import opened HuffmanTable
  import opened BitPieces
  import P = CodeLengthPacking
  import opened LzTokens
  import opened DeflateSymbols
  import opened DynamicHeader
  import opened FixedCode
  import opened InflateBlock
  import opened InflateHeader
  import opened InflateStream

  /** The second input is the first with some bytes behind it. */
  ghost predicate Longer(r: Input, s: Input) {
    && r.left <= s.left && r.left % 8 == s.left % 8 && Low(r.bits, r.left) == Low(s.bits, r.left)
    && r.clean == s.clean && r.window == s.window
  }

  /** The same is read from both, or the same is wrong with both, or the shorter one is too short. */
  ghost predicate Persists<T>(a: Read<T>, b: Read<T>) {
    if a.Ok? then b.Ok? && a.value == b.value && Longer(a.rest, b.rest) else a.why == NeedsMoreInput || a == b
  }

  lemma {:induction false} LowCut(x: nat, y: nat, n: nat, k: nat)
    requires Low(x, n + k) == Low(y, n + k)
    ensures Low(x, n) == Low(y, n) && Low(Shr(x, n), k) == Low(Shr(y, n), k)
  {
    if n > 0 { LowCut(x / 2, y / 2, n - 1, k); }
  }

  /** The inputs stay the same distance apart. */
  lemma LongerRest(r: Input, s: Input, n: nat)
    requires Longer(r, s) && n <= r.left
    ensures Low(r.bits, n) == Low(s.bits, n)
    ensures Longer(r.(bits := Shr(r.bits, n), left := r.left - n), s.(bits := Shr(s.bits, n), left := s.left - n))
  {
    hide Low, Shr;
    LowCut(r.bits, s.bits, n, r.left - n);
    SameRemainder(r.left, s.left, n);
  }

  lemma SameRemainder(a: nat, b: nat, n: nat)
    requires a % 8 == b % 8 && n <= a <= b
    ensures (a - n) % 8 == (b - n) % 8
  {
    var d := (b - a) / 8;
    assert b == a + 8 * d;
  }

  lemma MoreBits(r: Input, s: Input, n: nat)
    requires Longer(r, s)
    ensures Persists(NextBits(r, n), NextBits(s, n))
  {
    hide Longer;
    if n <= r.left {
      LongerRest(r, s, n);
      assert r.left <= s.left by { LeftGrows(r, s); }
    }
  }

  lemma LeftGrows(r: Input, s: Input)
    requires Longer(r, s)
    ensures r.left <= s.left && r.left % 8 == s.left % 8 && r.clean == s.clean && r.window == s.window
  {
  }

  lemma MoreAligned(r: Input, s: Input)
    requires Longer(r, s)
    ensures Longer(Aligned(r), Aligned(s))
  {
    hide Longer;
    LeftGrows(r, s);
    LongerRest(r, s, r.left % 8);
  }

  // ---------------------------------------------------------------- symbols

  /** What is decoded is settled by the bits it takes. */
  lemma SameDecoded(x: nat, y: nat, sizes: Sizes, n: nat)
    requires Low(x, n) == Low(y, n) && (n >= MAX_BITS || 0 < Decoded(x, sizes).1 <= n)
    ensures Decoded(y, sizes) == Decoded(x, sizes) && Spelled(y, sizes) == Spelled(x, sizes)
  {
    hide Decoded, Low, Top, StrayLength;
    if Spelled(x, sizes) {
      var s: nat :| Spells(x, sizes, s);
      DecodedSymbol(x, sizes, s);
      SameTop(x, y, n, sizes[s]);
      DecodedSymbol(y, sizes, s);
    } else {
      NotSpelled(x, sizes);
      StaysUnspelled(x, y, sizes, n);
      NotSpelled(y, sizes);
    }
  }

  lemma SameTop(x: nat, y: nat, n: nat, d: nat)
    requires Low(x, n) == Low(y, n) && d <= n
    ensures Top(x, d) == Top(y, d)
  {
    hide Low, Top;
    LowCut(x, y, d, n - d);
    TopSameLow(x, y, d);
  }

  lemma NotSpelled(x: nat, sizes: Sizes)
    requires !Spelled(x, sizes)
    ensures Decoded(x, sizes) == (0, StrayLength(x, sizes))
  {
  }

  /** The walk stops where no longer code is left, and so there is none in front of the other input either. */
  lemma StaysUnspelled(x: nat, y: nat, sizes: Sizes, n: nat)
    requires !Spelled(x, sizes) && Low(x, n) == Low(y, n) && (n >= MAX_BITS || 0 < StrayLength(x, sizes) <= n)
    ensures !Spelled(y, sizes) && StrayLength(y, sizes) == StrayLength(x, sizes)
  {
    hide Low, Top, IsPrefix;
    var m := if n >= MAX_BITS then MAX_BITS else StrayLength(x, sizes);
    forall d: nat | d <= m ensures Top(x, d) == Top(y, d) {
      SameTop(x, y, n, d);
    }
    if m < MAX_BITS { StrayEnds(x, sizes, FAST_BITS); }
    SpelledInFront(x, y, sizes, m);
    if IsPrefix(sizes, FAST_BITS, Top(x, FAST_BITS)) { SameWalk(x, y, sizes, FAST_BITS, m); }
  }

  /** With no longer code left, what stands in front of one input stands in front of the other. */
  lemma SpelledInFront(x: nat, y: nat, sizes: Sizes, m: nat)
    requires (forall d: nat :: d <= m ==> Top(x, d) == Top(y, d)) && (m < MAX_BITS ==> !IsPrefix(sizes, m, Top(y, m)))
    ensures Spelled(y, sizes) ==> Spelled(x, sizes)
  {
    hide Top, IsPrefix;
    if s: nat :| Spells(y, sizes, s) {
      if m < sizes[s] { LongCodeGoesOn(y, sizes, s, m); }
      assert Spells(x, sizes, s);
    }
  }

  lemma LongCodeGoesOn(x: nat, sizes: Sizes, s: nat, d: nat)
    requires Spells(x, sizes, s) && d < sizes[s]
    ensures IsPrefix(sizes, d, Top(x, d))
  {
    hide Top, Shr;
    TopPrefix(x, d, sizes[s] - d);
    assert PrefixOf(sizes, s, d, Top(x, d));
  }

  lemma {:induction false} StrayEnds(x: nat, sizes: Sizes, d: nat)
    requires d <= MAX_BITS
    ensures var e := StrayFrom(x, sizes, d); e < MAX_BITS ==> !IsPrefix(sizes, e, Top(x, e))
    decreases MAX_BITS - d
  {
    hide IsPrefix, Top;
    if d < MAX_BITS && IsPrefix(sizes, d, Top(x, d)) { StrayEnds(x, sizes, d + 1); }
  }

  lemma {:induction false} SameWalk(x: nat, y: nat, sizes: Sizes, d: nat, m: nat)
    requires d <= MAX_BITS && StrayFrom(x, sizes, d) <= m && forall e: nat :: e <= m ==> Top(x, e) == Top(y, e)
    ensures StrayFrom(y, sizes, d) == StrayFrom(x, sizes, d)
    decreases MAX_BITS - d
  {
    hide IsPrefix, Top;
    if d < MAX_BITS && IsPrefix(sizes, d, Top(x, d)) { SameWalk(x, y, sizes, d + 1, m); }
  }

  lemma MoreSymbol(r: Input, s: Input, sizes: Sizes)
    requires Longer(r, s)
    ensures Persists(NextSymbol(r, sizes), NextSymbol(s, sizes))
  {
    hide Longer, Decoded, Spelled, Low, Shr;
    LeftGrows(r, s);
    var n := Decoded(r.bits, sizes).1;
    if r.left >= MAX_BITS || (n > 0 && r.left >= n) {
      LongerRest(r, s, r.left);
      SameDecoded(r.bits, s.bits, sizes, r.left);
      LongerRest(r, s, n);
      StillLonger(r.(bits := Shr(r.bits, n), left := r.left - n), s.(bits := Shr(s.bits, n), left := s.left - n), Spelled(r.bits, sizes));
    }
  }

  lemma StillLonger(r: Input, s: Input, also: bool)
    requires Longer(r, s)
    ensures Longer(r.(clean := r.clean && also), s.(clean := s.clean && also))
  {
  }

  // ---------------------------------------------------------------- blocks of codes

  lemma MoreItem(r: Input, s: Input, lit: Sizes, dist: Sizes)
    requires Longer(r, s)
    ensures Persists(NextItem(r, lit, dist), NextItem(s, lit, dist))
  {
    hide NextSymbol, NextMatch, Longer;
    MoreSymbol(r, s, lit);
    var a, b := NextSymbol(r, lit), NextSymbol(s, lit);
    if a.Ok? && 257 <= a.value <= 287 { MoreMatch(a.rest, b.rest, a.value, dist); }
  }

  lemma MoreMatch(r: Input, s: Input, symbol: nat, dist: Sizes)
    requires Longer(r, s) && 257 <= symbol <= 287
    ensures Persists(NextMatch(r, symbol, dist), NextMatch(s, symbol, dist))
  {
    hide NextSymbol, NextBits, LengthBase, LengthBits, DistBase, DistBits, Longer, Near;
    MoreBits(r, s, LengthBits(symbol));
    var a, b := NextBits(r, LengthBits(symbol)), NextBits(s, LengthBits(symbol));
    if a.Ok? {
      MoreSymbol(a.rest, b.rest, dist);
      var c, d := NextSymbol(a.rest, dist), NextSymbol(b.rest, dist);
      if c.Ok? && c.value <= 29 {
        MoreBits(c.rest, d.rest, DistBits(c.value));
        var e, f := NextBits(c.rest, DistBits(c.value)), NextBits(d.rest, DistBits(c.value));
        if e.Ok? {
          var t := Match(LengthBase(symbol) + a.value, DistBase(c.value) + e.value);
          LeftGrows(e.rest, f.rest);
          StillLonger(e.rest, f.rest, symbol <= 285 && !(symbol == 284 && a.value == 31) && Near(t, e.rest.window));
        }
      }
    }
  }

  lemma {:induction false} MoreOutput(r: Input, s: Input, lit: Sizes, dist: Sizes, out: seq<Byte>, cap: nat)
    requires Longer(r, s) && |out| <= cap
    ensures Persists(BlockOutput(r, lit, dist, out, cap), BlockOutput(s, lit, dist, out, cap))
    decreases cap - |out|
  {
    hide NextItem, Emit, Longer;
    MoreItem(r, s, lit, dist);
    var a, b := NextItem(r, lit, dist), NextItem(s, lit, dist);
    if a.Ok? && a.value.Of? {
      var t := a.value.token;
      if !(t.Match? && t.dist > |out|) && |out| + Written(t) <= cap {
        MoreOutput(a.rest, b.rest, lit, dist, Emit(t, out), cap);
      }
    }
  }

  // ---------------------------------------------------------------- headers

  lemma {:induction false} MoreThird(r: Input, s: Input, i: nat, sent: nat, sizes: ThirdSizes)
    requires Longer(r, s) && i <= sent <= SIZE_SYMBOLS
    ensures Persists(NextThird(r, i, sent, sizes), NextThird(s, i, sent, sizes))
    decreases sent - i
  {
    hide NextBits, Longer;
    MoreBits(r, s, 3);
    var a, b := NextBits(r, 3), NextBits(s, 3);
    if i < sent && a.Ok? {
      ThreeBits(r);
      MoreThird(a.rest, b.rest, i + 1, sent, sizes[SWIZZLE[i] := a.value]);
    }
  }

  lemma {:induction false} MoreLengths(r: Input, s: Input, third: Sizes, out: Sizes, total: nat)
    requires Longer(r, s)
    ensures Persists(NextLengths(r, third, out, total), NextLengths(s, third, out, total))
    decreases total - |out|
  {
    hide NextSymbol, NextBits, P.RunOf, Longer;
    MoreSymbol(r, s, third);
    var a, b := NextSymbol(r, third), NextSymbol(s, third);
    if |out| < total && a.Ok? {
      var x := a.value;
      if x < 16 {
        MoreLengths(a.rest, b.rest, third, out + [x], total);
      } else if x != 16 || out != [] {
        MoreBits(a.rest, b.rest, ExtraBits(x));
        var c, d := NextBits(a.rest, ExtraBits(x)), NextBits(b.rest, ExtraBits(x));
        if c.Ok? {
          RunIsShort(out, x, c.value, out + P.RunOf(x, c.value, out));
          MoreLengths(c.rest, d.rest, third, out + P.RunOf(x, c.value, out), total);
        }
      }
    }
  }

  lemma MoreCodes(r: Input, s: Input)
    requires Longer(r, s)
    ensures Persists(HeaderCodes(r), HeaderCodes(s))
  {
    hide NextBits, NextThird, NextLengths, Accepted, Standard, Longer;
    MoreBits(r, s, 5);
    var a, b := NextBits(r, 5), NextBits(s, 5);
    if a.Ok? {
      MoreBits(a.rest, b.rest, 5);
      var c, d := NextBits(a.rest, 5), NextBits(b.rest, 5);
      if c.Ok? {
        MoreBits(c.rest, d.rest, 4);
        var e, f := NextBits(c.rest, 4), NextBits(d.rest, 4);
        if e.Ok? {
          CountBits(r);
          CountBits(a.rest);
          CountBits(c.rest);
          MoreThird(e.rest, f.rest, 0, e.value + 4, NO_SIZES);
          var g, h := NextThird(e.rest, 0, e.value + 4, NO_SIZES), NextThird(f.rest, 0, e.value + 4, NO_SIZES);
          if g.Ok? {
            var n := a.value + 257;
            MoreLengths(g.rest, h.rest, g.value, [], n + c.value + 1);
            var k, l := NextLengths(g.rest, g.value, [], n + c.value + 1), NextLengths(h.rest, g.value, [], n + c.value + 1);
            if k.Ok? {
              PartsAreSizes(k.value, n);
              var lit: Sizes, dist: Sizes := k.value[..n], k.value[n..];
              StillLonger(k.rest, l.rest, n <= 286 && Standard(g.value) && Standard(lit) && Standard(dist));
            }
          }
        }
      }
    }
  }

  // ---------------------------------------------------------------- blocks

  lemma {:induction false} MoreBytes(r: Input, s: Input, n: nat, out: seq<Byte>, cap: nat)
    requires Longer(r, s) && |out| <= cap
    ensures Persists(NextBytes(r, n, out, cap), NextBytes(s, n, out, cap))
    decreases n
  {
    hide NextBits, Longer;
    MoreBits(r, s, 8);
    var a, b := NextBits(r, 8), NextBits(s, 8);
    if n > 0 && |out| < cap && a.Ok? {
      EightBits(r);
      MoreBytes(a.rest, b.rest, n - 1, out + [a.value], cap);
    }
  }

  lemma MoreWord(r: Input, s: Input)
    requires Longer(r, s)
    ensures Persists(NextWord(r), NextWord(s))
  {
    hide NextBits, Longer;
    MoreBits(r, s, 8);
    if NextBits(r, 8).Ok? { MoreBits(NextBits(r, 8).rest, NextBits(s, 8).rest, 8); }
  }

  lemma MoreStored(r: Input, s: Input, out: seq<Byte>, cap: nat)
    requires Longer(r, s) && |out| <= cap
    ensures Persists(NextStored(r, out, cap), NextStored(s, out, cap))
  {
    hide NextWord, NextBytes, Aligned, Longer;
    MoreAligned(r, s);
    MoreWord(Aligned(r), Aligned(s));
    var a, b := NextWord(Aligned(r)), NextWord(Aligned(s));
    if a.Ok? {
      MoreWord(a.rest, b.rest);
      var c, d := NextWord(a.rest), NextWord(b.rest);
      if c.Ok? { MoreBytes(c.rest, d.rest, a.value, out, cap); }
    }
  }

  lemma MoreOwn(r: Input, s: Input, out: seq<Byte>, cap: nat)
    requires Longer(r, s) && |out| <= cap
    ensures Persists(NextOwn(r, out, cap), NextOwn(s, out, cap))
  {
    hide HeaderCodes, BlockOutput, Longer;
    MoreCodes(r, s);
    var a, b := HeaderCodes(r), HeaderCodes(s);
    if a.Ok? { MoreOutput(a.rest, b.rest, a.value.lit, a.value.dist, out, cap); }
  }

  lemma MoreBlock(r: Input, s: Input, out: seq<Byte>, cap: nat)
    requires Longer(r, s) && |out| <= cap
    ensures Persists(NextBlock(r, out, cap), NextBlock(s, out, cap))
  {
    hide NextBits, NextStored, NextOwn, BlockOutput, StaticLit, StaticDist, Longer;
    MoreBits(r, s, 3);
    var a, b := NextBits(r, 3), NextBits(s, 3);
    if a.Ok? {
      MoreStored(a.rest, b.rest, out, cap);
      MoreOutput(a.rest, b.rest, StaticLit(), StaticDist(), out, cap);
      MoreOwn(a.rest, b.rest, out, cap);
    }
  }

  /** What blocks are read from the front of an input are read from all of it. */
  lemma {:induction false} MoreBlocks(r: Input, s: Input, out: seq<Byte>, cap: nat)
    requires Longer(r, s) && |out| <= cap
    ensures Persists(NextBlocks(r, out, cap), NextBlocks(s, out, cap))
    decreases r.left
  {
    hide NextBlock, Longer;
    MoreBlock(r, s, out, cap);
    var a, b := NextBlock(r, out, cap), NextBlock(s, out, cap);
    if a.Ok? && !a.value.last { MoreBlocks(a.rest, b.rest, a.value.out, cap); }
  }

  /** A byte string is the front of its continuations. */
  lemma {:induction false} BytesInFront(bytes: seq<Byte>, more: seq<Byte>)
    ensures Low(BytesValue(bytes), 8 * |bytes|) == Low(BytesValue(bytes + more), 8 * |bytes|)
  {
    hide Low, Append, BytesValue;
    var n := 8 * |bytes|;
    ConcatValue(bytes, more);
    BytesBound(bytes);
    AppendKeepsLow(BytesValue(bytes), n, BytesValue(more));
  }

  lemma {:induction false} ConcatValue(bytes: seq<Byte>, more: seq<Byte>)
    ensures BytesValue(bytes + more) == Append(BytesValue(bytes), 8 * |bytes|, BytesValue(more))
  {
    if bytes == [] {
      assert bytes + more == more;
    } else {
      assert (bytes + more)[1..] == bytes[1..] + more;
      ConcatValue(bytes[1..], more);
      AppendAssociates(bytes[0], 8, BytesValue(bytes[1..]), 8 * |bytes| - 8, BytesValue(more));
    }
  }
}
