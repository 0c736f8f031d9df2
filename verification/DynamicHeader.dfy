/** The header of a block with its own codes: `tdefl_start_dynamic_block` of `src/miniz.c` (section 3.2.7 of
    RFC 1951). */
module DynamicHeader {
  import opened Bits
  import opened HuffmanCode
  import opened HuffmanEncoder
  import opened Sequences
  import opened BitPieces
  import opened DeflateBlock
  import CodeCost
  import HuffmanOptimizer
  import P = CodeLengthPacking

  const SIZE_SYMBOLS := 19

  /** The order in which the lengths of the third code are sent. */
  const SWIZZLE: seq<nat> := [16, 17, 18, 0, 8, 7, 9, 6, 10, 5, 11, 4, 12, 3, 13, 2, 14, 1, 15]

  // ---------------------------------------------------------------- a header as pieces

  /** The two code-length vectors without the unused symbols at their ends, the lengths of the third code, how
      many of those are sent, and the packed vectors. */
  datatype Header = Header(lit: Sizes, dist: Sizes, third: Sizes, sent: nat, packed: seq<nat>)

  ghost predicate Good(h: Header) {
    && 257 <= |h.lit| <= 286 && 1 <= |h.dist| <= DIST_SYMBOLS && Standard(h.lit) && Standard(h.dist)
    && GoodThird(h.third, h.sent)
    && P.Encodable(h.packed) && P.Expand(h.packed, []) == P.Lengths(h.lit + h.dist) && AllPacked(h.third, h.packed)
  }

  ghost predicate GoodThird(third: Sizes, sent: nat) {
    && |third| == SIZE_SYMBOLS && Standard(third) && (forall s :: 0 <= s < SIZE_SYMBOLS ==> third[s] < 8)
    && 4 <= sent <= SIZE_SYMBOLS && forall i :: sent <= i < SIZE_SYMBOLS ==> third[SWIZZLE[i]] == 0
  }

  /** The packed vector after its first symbol. */
  ghost function Next(packed: seq<nat>): seq<nat>
    requires packed != []
  {
    if packed[0] < 16 || |packed| == 1 then packed[1..] else packed[2..]
  }

  /** Every symbol of the packed vector has a code. */
  ghost predicate AllPacked(third: Sizes, packed: seq<nat>)
    decreases |packed|
  {
    packed == [] || (Used(third, packed[0]) && AllPacked(third, Next(packed)))
  }

  /** The number of bits of the repetition count behind symbol 16, 17 or 18. */
  function ExtraBits(symbol: nat): (n: nat)
    ensures 2 <= n <= 7
  {
    if symbol == 16 then 2 else if symbol == 17 then 3 else 7
  }

  ghost function PackedPieces(third: Sizes, packed: seq<nat>): (ps: seq<Piece>)
    requires P.Encodable(packed) && AllPacked(third, packed)
    ensures AllFit(ps)
    decreases |packed|
  {
    if packed == [] then [] else OnePacked(third, packed) + PackedPieces(third, Next(packed))
  }

  /** The first symbol, with its repetition count if it has one. */
  ghost function OnePacked(third: Sizes, packed: seq<nat>): (ps: seq<Piece>)
    requires P.Encodable(packed) && packed != [] && Used(third, packed[0])
    ensures AllFit(ps)
  {
    [CodePiece(third, packed[0])] + if packed[0] < 16 then [] else [RunPiece(packed)]
  }

  ghost function RunPiece(packed: seq<nat>): (p: Piece)
    requires P.Encodable(packed) && packed != [] && packed[0] >= 16
    ensures Fits(p)
  {
    RunFits(packed[0], packed[1]);
    Piece(packed[1], ExtraBits(packed[0]))
  }

  lemma RunFits(symbol: nat, extra: nat)
    requires 16 <= symbol <= 18 && extra < P.ExtraLimit(symbol)
    ensures Fits(Piece(extra, ExtraBits(symbol)))
  {
    assert Pow2(2) == 4 && Pow2(3) == 8;
    Pow2Add(4, 3);
  }

  ghost function SizePieces(third: Sizes, n: nat): (ps: seq<Piece>)
    requires |third| == SIZE_SYMBOLS && n <= SIZE_SYMBOLS && forall s :: 0 <= s < SIZE_SYMBOLS ==> third[s] < 8
    ensures AllFit(ps) && |ps| == n
  {
    SmallFits();
    seq(n, i requires 0 <= i < n <= SIZE_SYMBOLS && |third| == SIZE_SYMBOLS => Piece(third[SWIZZLE[i]], 3))
  }

  lemma SmallFits()
    ensures forall x: nat :: x < 8 ==> Fits(Piece(x, 3))
    ensures forall x: nat :: x < 16 ==> Fits(Piece(x, 4))
    ensures forall x: nat :: x < 32 ==> Fits(Piece(x, 5))
  {
    assert Pow2(3) == 8 && Pow2(4) == 16 && Pow2(5) == 32;
  }

  ghost function HeaderPieces(h: Header): (ps: seq<Piece>)
    requires Good(h)
    ensures AllFit(ps)
  {
    SmallFits();
    [Piece(|h.lit| - 257, 5), Piece(|h.dist| - 1, 5), Piece(h.sent - 4, 4)] + SizePieces(h.third, h.sent) + PackedPieces(h.third, h.packed)
  }

  // ---------------------------------------------------------------- leaving out unused symbols

  lemma {:induction false} CountInFront(sizes: Sizes, n: nat, k: nat, len: nat)
    requires k <= n <= |sizes|
    ensures CountIn(sizes[..n], k, len) == CountIn(sizes, k, len)
  {
    if k > 0 { CountInFront(sizes, n, k - 1, len); }
  }

  lemma {:induction false} CountInRest(sizes: Sizes, n: nat, m: nat, len: nat)
    requires n <= m <= |sizes| && len >= 1 && forall i :: n <= i < |sizes| ==> sizes[i] == 0
    ensures CountIn(sizes, m, len) == CountIn(sizes, n, len)
  {
    if n < m { CountInRest(sizes, n, m - 1, len); }
  }

  lemma {:induction false} FirstOfFront(sizes: Sizes, n: nat, len: nat)
    requires n <= |sizes| && forall i :: n <= i < |sizes| ==> sizes[i] == 0
    ensures First(sizes[..n], len) == First(sizes, len) && UsedBelow(sizes[..n], len) == UsedBelow(sizes, len)
  {
    if len > 1 {
      FirstOfFront(sizes, n, len - 1);
      CountInFront(sizes, n, n, len - 1);
      CountInRest(sizes, n, |sizes|, len - 1);
    }
  }

  /** Symbols at the end that have no code do not matter to the codes of the others. */
  lemma FrontIsTable(sizes: Sizes, codes: seq<nat>, n: nat)
    requires n <= |sizes| == |codes| && forall i :: n <= i < |sizes| ==> sizes[i] == 0
    requires forall s :: 0 <= s < |sizes| ==> codes[s] == if sizes[s] == 0 then 0 else CodeWord(sizes, s)
    ensures IsTable(sizes, codes, sizes[..n]) && Standard(sizes[..n]) == Standard(sizes)
  {
    hide First, CountIn, Reverse;
    FirstOfFront(sizes, n, 16);
    forall s: nat | s < n && sizes[s] > 0 ensures codes[s] == CodeWord(sizes[..n], s) {
      FirstOfFront(sizes, n, sizes[s]);
      CountInFront(sizes, n, s, sizes[s]);
    }
  }

  /** How many lengths to send: up to the last one that is not zero, and at least `least`. */
  method CountSent(sizes: seq<nat>, most: nat, least: nat) returns (n: nat)
    requires least <= most <= |sizes| && forall i :: most <= i < |sizes| ==> sizes[i] == 0
    ensures least <= n <= most && (forall i :: n <= i < |sizes| ==> sizes[i] == 0) && (n > least ==> sizes[n - 1] != 0)
  {
    n := most;
    while n > least && sizes[n - 1] == 0
      invariant least <= n <= most && forall i :: n <= i < |sizes| ==> sizes[i] == 0
    {
      n := n - 1;
    }
  }

  // ---------------------------------------------------------------- the third code

  lemma {:induction false} UsedByCounts(third: Sizes, counts: seq<nat>, packed: seq<nat>)
    requires P.Encodable(packed) && |counts| == |third| == SIZE_SYMBOLS
    requires forall s :: 0 <= s < SIZE_SYMBOLS ==> (counts[s] > 0 ==> third[s] > 0) && counts[s] >= P.Occurrences(packed, s)
    ensures AllPacked(third, packed)
    decreases |packed|
  {
    if packed != [] {
      assert counts[packed[0]] >= P.Occurrences(packed, packed[0]) >= 1;
      UsedByCounts(third, counts, Next(packed));
    }
  }

  /** How many lengths of the third code to send: `num_bit_lengths`. */
  method CountThird(third: Sizes) returns (sent: nat)
    requires |third| == SIZE_SYMBOLS
    ensures 4 <= sent <= SIZE_SYMBOLS && forall i :: sent <= i < SIZE_SYMBOLS ==> third[SWIZZLE[i]] == 0
    ensures sent > 4 ==> third[SWIZZLE[sent - 1]] != 0
  {
    sent := SIZE_SYMBOLS;
    while sent > 0 && third[SWIZZLE[sent - 1]] == 0
      invariant sent <= SIZE_SYMBOLS && forall i :: sent <= i < SIZE_SYMBOLS ==> third[SWIZZLE[i]] == 0
    {
      sent := sent - 1;
    }
    if sent < 4 { sent := 4; }
  }

  lemma {:induction false} SumBound(s: seq<nat>, m: nat)
    requires forall i :: 0 <= i < |s| ==> s[i] <= m
    ensures CodeCost.Sum(s) <= m * |s|
  {
    if s != [] {
      SumBound(s[1..], m);
      assert m * |s| == m + m * (|s| - 1);
    }
  }

  /** The code of the packed vector's symbols. */
  method ThirdTable(counts: seq<nat>, packed: seq<nat>, ghost lengths: seq<nat>) returns (sizes: Sizes, codes: seq<nat>)
    requires |lengths| <= P.MAX_LENGTHS && P.Packs(packed, counts, lengths, |lengths|)
    ensures |sizes| == SIZE_SYMBOLS && Standard(sizes) && (forall s :: 0 <= s < SIZE_SYMBOLS ==> sizes[s] < 8)
    ensures IsTable(sizes, codes, sizes) && AllPacked(sizes, packed) && HuffmanOptimizer.IsCheapest(sizes, counts, 7)
  {
    hide CodeCost.Sum, Standard, CodeWord, HuffmanOptimizer.CheapestIfWithin, P.Expand, P.Encodable, AllPacked, P.Occurrences;
    SumBound(counts, P.MAX_LENGTHS);
    RunFits(18, 0);
    var s, c, order, best := HuffmanOptimizer.OptimizeTable(counts, 7);
    sizes, codes := s, c;
    assert HuffmanOptimizer.CheapestIfWithin(sizes, counts, 7, order, best);
    UsedByCounts(sizes, counts, packed);
  }

  method PutThird(w: BitWriter, third: Sizes, sent: nat, ghost ps: seq<Piece>)
    requires Wrote(w, ps) && GoodThird(third, sent)
    modifies w
    ensures Wrote(w, ps + SizePieces(third, sent))
  {
    hide Wrote, Standard;
    ghost var all := SizePieces(third, sent);
    assert ps + all[..0] == ps;
    for i := 0 to sent
      invariant Wrote(w, ps + all[..i])
    {
      assert all[i] == Piece(third[SWIZZLE[i]], 3);
      assert ps + all[..i] + [all[i]] == ps + all[..i + 1];
      Put(w, third[SWIZZLE[i]], 3, ps + all[..i]);
    }
    assert all[..sent] == all;
  }

  /** One round of the loop of lines 1990 to 1995. */
  method PutOnePacked(w: BitWriter, third: Sizes, codes: seq<nat>, packed: seq<nat>, i: nat, ghost ps: seq<Piece>) returns (next: nat)
    requires Wrote(w, ps) && IsTable(third, codes, third) && i < |packed| && P.Encodable(packed[i..]) && Used(third, packed[i])
    modifies w
    ensures i < next <= |packed| && packed[next..] == Next(packed[i..]) && Wrote(w, ps + OnePacked(third, packed[i..]))
  {
    hide Wrote, IsTable, CodePiece;
    ghost var left := packed[i..];
    assert left[0] == packed[i] && left[1..] == packed[i + 1..];
    var code := packed[i];
    PutCode(w, third, codes, third, code, ps);
    next := i + 1;
    if code >= 16 {
      assert left[1] == packed[i + 1] && left[2..] == packed[i + 2..];
      RunFits(code, packed[next]);
      Put(w, packed[next], ExtraBits(code), ps + [CodePiece(third, code)]);
      assert ps + [CodePiece(third, code)] + [RunPiece(left)] == ps + OnePacked(third, left);
      next := next + 1;
    } else {
      assert OnePacked(third, left) == [CodePiece(third, code)];
    }
  }

  lemma PackedTail(third: Sizes, packed: seq<nat>)
    requires P.Encodable(packed) && AllPacked(third, packed) && packed != []
    ensures Used(third, packed[0]) && P.Encodable(Next(packed)) && AllPacked(third, Next(packed))
    ensures PackedPieces(third, packed) == OnePacked(third, packed) + PackedPieces(third, Next(packed))
  {
  }

  method PutPacked(w: BitWriter, third: Sizes, codes: seq<nat>, packed: seq<nat>, ghost ps: seq<Piece>)
    requires Wrote(w, ps) && IsTable(third, codes, third) && P.Encodable(packed) && AllPacked(third, packed)
    modifies w
    ensures Wrote(w, ps + PackedPieces(third, packed))
  {
    hide Wrote, IsTable, CodePiece, P.Encodable, AllPacked, OnePacked, PackedPieces, Next;
    ghost var done := ps;
    var i := 0;
    assert packed[0..] == packed;
    while i < |packed|
      invariant i <= |packed| && Wrote(w, done) && P.Encodable(packed[i..]) && AllPacked(third, packed[i..])
      invariant done + PackedPieces(third, packed[i..]) == ps + PackedPieces(third, packed)
    {
      ghost var left := packed[i..];
      PackedTail(third, left);
      i := PutOnePacked(w, third, codes, packed, i, done);
      Associates(done, OnePacked(third, left), PackedPieces(third, Next(left)));
      done := done + OnePacked(third, left);
    }
    NothingPacked(third);
    assert packed[i..] == [] && done + [] == done;
  }

  lemma NothingPacked(third: Sizes)
    ensures P.Encodable([]) && AllPacked(third, []) && PackedPieces(third, []) == [] && BitCount([]) == 0
  {
  }

  // ---------------------------------------------------------------- the whole header

  /** The code for the counted symbols, and its lengths without the unused ones at the end. */
  method FrontTable(counts: seq<nat>, most: nat, least: nat) returns (sizes: seq<nat>, codes: seq<nat>, front: Sizes)
    requires 1 <= least <= most <= |counts| <= LIT_SYMBOLS && CodeCost.Sum(counts) <= 65535
    requires (forall s :: 0 <= s < |counts| ==> counts[s] < 65536) && forall s :: most <= s < |counts| ==> counts[s] == 0
    ensures IsTable(sizes, codes, front) && Standard(front) && least <= |front| <= most
    ensures forall s: nat :: s < |counts| && counts[s] > 0 ==> Used(front, s)
    ensures HuffmanOptimizer.IsCheapest(sizes, counts, MAX_BITS) && front == sizes[..|front|] && (|front| > least ==> front[|front| - 1] != 0)
  {
    hide CodeCost.Sum, Standard, CodeWord, HuffmanOptimizer.CheapestIfWithin, IsTable;
    Pow2Values();
    var s, c, order, best := HuffmanOptimizer.OptimizeTable(counts, MAX_BITS);
    sizes, codes := s, c;
    assert HuffmanOptimizer.CheapestIfWithin(sizes, counts, MAX_BITS, order, best);
    var n := CountSent(sizes, most, least);
    FrontIsTable(sizes, codes, n);
    front := sizes[..n];
  }

  lemma PackedIsGood(h: Header, counts: seq<nat>)
    requires 257 <= |h.lit| <= 286 && 1 <= |h.dist| <= 30 && Standard(h.lit) && Standard(h.dist) && GoodThird(h.third, h.sent)
    requires P.Packs(h.packed, counts, h.lit + h.dist, |h.lit + h.dist|) && AllPacked(h.third, h.packed)
    ensures Good(h)
  {
    hide Standard, GoodThird;
    assert (h.lit + h.dist)[..|h.lit + h.dist|] == h.lit + h.dist;
  }

  lemma CountsAre(packed: seq<nat>, counts: seq<nat>, lengths: seq<nat>)
    requires P.Packs(packed, counts, lengths, |lengths|)
    ensures counts == seq(SIZE_SYMBOLS, s requires 0 <= s < SIZE_SYMBOLS => P.Occurrences(packed, s))
  {
  }

  lemma HeaderParts(h: Header)
    requires Good(h)
    ensures GoodThird(h.third, h.sent) && P.Encodable(h.packed) && AllPacked(h.third, h.packed)
    ensures HeaderPieces(h) == [Piece(|h.lit| - 257, 5)] + [Piece(|h.dist| - 1, 5)] + [Piece(h.sent - 4, 4)]
                               + SizePieces(h.third, h.sent) + PackedPieces(h.third, h.packed)
    ensures Fits(Piece(|h.lit| - 257, 5)) && Fits(Piece(|h.dist| - 1, 5)) && Fits(Piece(h.sent - 4, 4)) && Fits(Piece(2, 2))
  {
    hide PackedPieces, SizePieces, Standard;
    SmallFits();
    assert Pow2(2) == 4;
  }

  /** Lines 1981 to 1995. */
  method PutHeader(w: BitWriter, third: Sizes, codes: seq<nat>, packed: seq<nat>, litCount: nat, distCount: nat, sent: nat,
                   ghost h: Header, ghost ps: seq<Piece>)
    requires Wrote(w, ps) && Good(h) && IsTable(third, codes, third)
    requires h.third == third && h.packed == packed && h.sent == sent && |h.lit| == litCount && |h.dist| == distCount
    modifies w
    ensures Wrote(w, ps + [Piece(2, 2)] + HeaderPieces(h))
  {
    hide Good, Wrote, IsTable, Standard, AllPacked, SizePieces, PackedPieces, HeaderPieces, Fits, P.Encodable;
    HeaderParts(h);
    HeaderSizes(h);
    ghost var p1, p2, p3 := Piece(litCount - 257, 5), Piece(distCount - 1, 5), Piece(sent - 4, 4);
    ghost var start := ps + [Piece(2, 2)];
    Put(w, 2, 2, ps);
    Put(w, litCount - 257, 5, start);
    Put(w, distCount - 1, 5, start + [p1]);
    Put(w, sent - 4, 4, start + [p1] + [p2]);
    PutThird(w, third, sent, start + [p1] + [p2] + [p3]);
    PutPacked(w, third, codes, packed, start + [p1] + [p2] + [p3] + SizePieces(third, sent));
    SixParts(start, [p1], [p2], [p3], SizePieces(third, sent), PackedPieces(third, packed));
  }

  lemma HeaderSizes(h: Header)
    requires Good(h)
    ensures 257 <= |h.lit| <= 286 && 1 <= |h.dist| <= DIST_SYMBOLS && 4 <= h.sent <= SIZE_SYMBOLS
  {
  }

  lemma SixParts<T>(a: seq<T>, b: seq<T>, c: seq<T>, d: seq<T>, e: seq<T>, f: seq<T>)
    ensures a + b + c + d + e + f == a + (b + c + d + e + f)
  {
  }

  /** `tdefl_start_dynamic_block`: the codes for the counted symbols, and the header that describes them. */
  method StartDynamicBlock(w: BitWriter, litCounts: seq<nat>, distCounts: seq<nat>, ghost ps: seq<Piece>)
      returns (litSizes: seq<nat>, litCodes: seq<nat>, distSizes: seq<nat>, distCodes: seq<nat>, ghost h: Header)
    requires Wrote(w, ps)
    requires |litCounts| == LIT_SYMBOLS && CodeCost.Sum(litCounts) <= 65535 && (forall s :: 0 <= s < LIT_SYMBOLS ==> litCounts[s] < 65536)
    requires litCounts[END_OF_BLOCK] > 0 && litCounts[286] == 0 && litCounts[287] == 0
    requires |distCounts| == DIST_SYMBOLS && CodeCost.Sum(distCounts) <= 65535 && (forall s :: 0 <= s < DIST_SYMBOLS ==> distCounts[s] < 65536)
    requires distCounts[30] == 0 && distCounts[31] == 0
    modifies w
    ensures Good(h) && Wrote(w, ps + [Piece(2, 2)] + HeaderPieces(h))
    ensures IsTable(litSizes, litCodes, h.lit) && IsTable(distSizes, distCodes, h.dist)
    ensures forall s: nat :: s < LIT_SYMBOLS && litCounts[s] > 0 ==> Used(h.lit, s)
    ensures forall s: nat :: s < DIST_SYMBOLS && distCounts[s] > 0 ==> Used(h.dist, s)
    ensures HuffmanOptimizer.IsCheapest(litSizes, litCounts, MAX_BITS) && HuffmanOptimizer.IsCheapest(distSizes, distCounts, MAX_BITS)
    ensures HuffmanOptimizer.IsCheapest(h.third, seq(SIZE_SYMBOLS, s requires 0 <= s < SIZE_SYMBOLS => P.Occurrences(h.packed, s)), 7)
  {
    hide CodeCost.Sum, HuffmanOptimizer.IsCheapest, Standard, CodeWord, HuffmanOptimizer.CheapestIfWithin, Wrote, P.Packs, HeaderPieces, IsTable, AllPacked;
    var lit, dist;
    litSizes, litCodes, lit := FrontTable(litCounts, 286, 257);
    distSizes, distCodes, dist := FrontTable(distCounts, 30, 1);
    var lengths := lit + dist;
    var packed, counts := P.Pack(lengths);
    var third, codes := ThirdTable(counts, packed, lengths);
    var sent := CountThird(third);
    h := Header(lit, dist, third, sent, packed);
    PackedIsGood(h, counts);
    CountsAre(packed, counts, lengths);
    PutHeader(w, third, codes, packed, |lit|, |dist|, sent, h, ps);
  }
}
