/** The header of a block with its own codes as `tinfl_decompress` of `src/miniz.c` reads it, from whatever input
    (section 3.2.7 of RFC 1951). */
module InflateHeader {
  import opened Bits
  import opened HuffmanCode
  import opened HuffmanDecoder
  import opened Sequences
  import opened BitPieces
  import opened DeflateBlock
  import opened DynamicHeader
  import P = CodeLengthPacking

  // ---------------------------------------------------------------- what the bits mean

  type ThirdSizes = s: Sizes | |s| == SIZE_SYMBOLS && forall i :: 0 <= i < SIZE_SYMBOLS ==> s[i] < 8
    witness [0, 0, 0, 0, 0, 0, 0, 0, 0, 0, 0, 0, 0, 0, 0, 0, 0, 0, 0]

  const NO_SIZES: ThirdSizes := [0, 0, 0, 0, 0, 0, 0, 0, 0, 0, 0, 0, 0, 0, 0, 0, 0, 0, 0]

  lemma ThreeBits(r: Input)
    requires NextBits(r, 3).Ok?
    ensures NextBits(r, 3).value < 8
  {
    assert Pow2(3) == 8;
  }

  /** The lengths of the third code from number `i` on. */
  ghost function NextThird(r: Input, i: nat, sent: nat, sizes: ThirdSizes): (t: Read<ThirdSizes>)
    requires i <= sent <= SIZE_SYMBOLS
    ensures t.Ok? ==> t.rest.left <= r.left
    decreases sent - i
  {
    if i == sent then Ok(sizes, r)
    else
      var (s, r1) :- NextBits(r, 3);
      ThreeBits(r);
      NextThird(r1, i + 1, sent, sizes[SWIZZLE[i] := s])
  }

  /** The code lengths after `out`, up to `total`. */
  ghost function NextLengths(r: Input, third: Sizes, out: Sizes, total: nat): (l: Read<Sizes>)
    ensures l.Ok? ==> |l.value| == total && l.rest.left <= r.left
    decreases total - |out|
  {
    if |out| >= total then if |out| == total then Ok(out, r) else Fail(Failed)
    else
      var (s, r1) :- NextSymbol(r, third);
      if s < 16 then NextLengths(r1, third, out + [s], total)
      else if s == 16 && out == [] then Fail(Failed)
      else
        var (e, r2) :- NextBits(r1, ExtraBits(s));
        NextLengths(r2, third, out + P.RunOf(s, e, out), total)
  }

  datatype Codes = Codes(lit: Sizes, dist: Sizes)

  lemma CountBits(r: Input)
    ensures NextBits(r, 5).Ok? ==> NextBits(r, 5).value < 32
    ensures NextBits(r, 4).Ok? ==> NextBits(r, 4).value < 16
  {
    assert Pow2(4) == 16 && Pow2(5) == 32;
  }

  /** The two codes that a header describes.  Tolerated, but not clean, are more than 286
      literal and length codes, and a single code of more than one bit. */
  ghost function HeaderCodes(r: Input): (c: Read<Codes>)
    ensures c.Ok? ==> c.rest.left <= r.left && 257 <= |c.value.lit| <= LIT_SYMBOLS && 1 <= |c.value.dist| <= DIST_SYMBOLS
                      && Accepted(c.value.lit) && Accepted(c.value.dist)
  {
    var (litSize, r1) :- NextBits(r, 5);
    var (distSize, r2) :- NextBits(r1, 5);
    var (sent, r3) :- NextBits(r2, 4);
    CountBits(r);
    CountBits(r1);
    CountBits(r2);
    var (third, r4) :- NextThird(r3, 0, sent + 4, NO_SIZES);
    if !Accepted(third) then Fail(Failed)
    else
      var n := litSize + 257;
      var (all, r5) :- NextLengths(r4, third, [], n + distSize + 1);
      var lit, dist := all[..n], all[n..];
      if Accepted(dist) && Accepted(lit)
      then Ok(Codes(lit, dist), r5.(clean := r5.clean && n <= 286 && Standard(third) && Standard(lit) && Standard(dist)))
      else Fail(Failed)
  }

  // ---------------------------------------------------------------- reading

  /** The lengths of the third code (line 1505). */
  method ReadThird(r: BitReader, sent: nat) returns (reply: Reply<ThirdSizes>)
    requires sent <= SIZE_SYMBOLS
    modifies r
    ensures Agrees(reply, r.Ahead(), NextThird(old(r.Ahead()), 0, sent, NO_SIZES))
  {
    hide NextBits;
    var sizes := NO_SIZES;
    for i := 0 to sent
      invariant NextThird(r.Ahead(), i, sent, sizes) == NextThird(old(r.Ahead()), 0, sent, NO_SIZES)
    {
      if NextBits(r.Ahead(), 3).Ok? { ThreeBits(r.Ahead()); }
      var s :- r.Get(3);
      sizes := sizes[SWIZZLE[i] := s];
    }
    return Value(sizes);
  }

  lemma SymbolInRange(r: Input, sizes: Sizes)
    requires NextSymbol(r, sizes).Ok?
    ensures NextSymbol(r, sizes).value < |sizes| || NextSymbol(r, sizes).value == 0
  {
  }

  lemma RunBound(r: Input, symbol: nat)
    requires 16 <= symbol <= 18 && NextBits(r, ExtraBits(symbol)).Ok?
    ensures NextBits(r, ExtraBits(symbol)).value < P.ExtraLimit(symbol)
  {
    assert Pow2(2) == 4 && Pow2(3) == 8;
    Pow2Add(4, 3);
    assert Pow2(7) == 128;
  }

  /** Lines 1535 to 1548: the two code-length vectors in one, in the 457 bytes there are. */
  method ReadLengths(r: BitReader, table: DecodeTable, ghost third: Sizes, total: nat) returns (reply: Reply<Sizes>)
    requires table.Decodes(third) && |third| == SIZE_SYMBOLS && total <= P.MAX_LENGTHS
    modifies r
    ensures Agrees(reply, r.Ahead(), NextLengths(old(r.Ahead()), third, [], total))
  {
    hide DecodeTable.Decodes, NextSymbol, NextBits, P.RunOf;
    var lenCodes := new nat[P.LEN_CODES](_ => 0);
    var counter := 0;
    assert lenCodes[..0] == [];
    while counter < total
      invariant fresh(lenCodes) && lenCodes.Length == P.LEN_CODES && counter <= P.LEN_CODES && (forall i :: 0 <= i < counter ==> lenCodes[i] <= MAX_BITS)
      invariant table.Decodes(third)
      invariant NextLengths(r.Ahead(), third, lenCodes[..counter], total) == NextLengths(old(r.Ahead()), third, [], total)
      decreases total - counter
    {
      ghost var before := lenCodes[..counter];
      if NextSymbol(r.Ahead(), third).Ok? { SymbolInRange(r.Ahead(), third); }
      var dist :- r.Decode(table, third);
      if dist < 16 {
        lenCodes[counter] := dist;
        counter := counter + 1;
        assert lenCodes[..counter] == before + [dist];
      } else {
        if dist == 16 && counter == 0 {
          return Stop(Failed);
        }
        if NextBits(r.Ahead(), ExtraBits(dist)).Ok? { RunBound(r.Ahead(), dist); }
        var s :- r.Get(ExtraBits(dist));
        counter := P.PlaceRun(lenCodes, counter, dist, s);
        RunIsShort(before, dist, s, lenCodes[..counter]);
      }
    }
    if total != counter {
      return Stop(Failed);
    }
    return Value(lenCodes[..counter]);
  }

  lemma RunIsShort(before: Sizes, symbol: nat, extra: nat, after: seq<nat>)
    requires (symbol == 16 ==> before != []) && after == before + P.RunOf(symbol, extra, before)
    ensures |after| > |before| && forall i :: 0 <= i < |after| ==> after[i] <= MAX_BITS
  {
  }

  lemma PartsAreSizes(lengths: Sizes, n: nat)
    requires n <= |lengths|
    ensures forall i :: 0 <= i < n ==> lengths[..n][i] <= MAX_BITS
    ensures forall i :: 0 <= i < |lengths| - n ==> lengths[n..][i] <= MAX_BITS
  {
  }

  datatype Tables = Tables(lit: DecodeTable, dist: DecodeTable)

  method BuildTable(sizes: Sizes) returns (table: DecodeTable, ok: bool)
    requires |sizes| <= MAX_SYMBOLS
    ensures fresh(table) && fresh(table.lookUp) && fresh(table.tree)
    ensures ok <==> Accepted(sizes)
    ensures ok ==> table.Decodes(sizes)
  {
    hide Accepted, DecodeTable.Decodes;
    table := new DecodeTable();
    ok := table.Build(sizes);
  }

  /** The tables of a block with its own codes (lines 1502 to 1550). */
  method ReadHeader(r: BitReader) returns (reply: Reply<Tables>)
    modifies r
    ensures match HeaderCodes(old(r.Ahead()))
            case Ok(codes, rest) =>
              && reply.Value? && r.Ahead() == rest && fresh(reply.value.lit) && fresh(reply.value.dist)
              && reply.value.lit.Decodes(codes.lit) && reply.value.dist.Decodes(codes.dist)
            case Fail(why) => reply == Stop(why)
  {
    hide Accepted, Standard, DecodeTable.Decodes, NextBits, NextThird, NextLengths;
    ghost var r0 := r.Ahead();
    CountBits(r0);
    var litSize :- r.Get(5);
    ghost var r1 := r.Ahead();
    CountBits(r1);
    var distSize :- r.Get(5);
    ghost var r2 := r.Ahead();
    CountBits(r2);
    var sent :- r.Get(4);
    var third :- ReadThird(r, sent + 4);
    var table, ok := BuildTable(third);
    if !ok {
      return Stop(Failed);
    }
    var n := litSize + 257;
    var lengths :- ReadLengths(r, table, third, n + distSize + 1);
    PartsAreSizes(lengths, n);
    var lit: Sizes, dist: Sizes := lengths[..n], lengths[n..];
    var distTable, distOk := BuildTable(dist);
    if !distOk {
      return Stop(Failed);
    }
    var litTable, litOk := BuildTable(lit);
    if !litOk {
      return Stop(Failed);
    }
    r.clean := r.clean && n <= 286 && Standard(third) && Standard(lit) && Standard(dist);
    return Value(Tables(litTable, distTable));
  }

  // ---------------------------------------------------------------- what is written is read

  /** Where a symbol of the third code stands in the order in which lengths are sent. */
  function Position(s: nat): (i: nat)
    requires s < SIZE_SYMBOLS
    ensures i < SIZE_SYMBOLS && SWIZZLE[i] == s
  {
    if s == 0 then 3 else if s >= 16 then s - 16 else if s == 8 then 4
    else if s < 8 then 19 - 2 * s else 2 * s - 12
  }

  lemma PositionIs(i: nat)
    requires i < SIZE_SYMBOLS
    ensures SWIZZLE[i] < SIZE_SYMBOLS && Position(SWIZZLE[i]) == i
  {
  }

  // ---------------------------------------------------------------- the order of the lengths

  /** Whose length is sent as number `i` (section 3.2.7 of RFC 1951): the three runs, zero, and then the lengths from 8 on,
      one up and one down. */
  function SymbolOfField(i: nat): (s: nat)
    requires i < SIZE_SYMBOLS
    ensures s < SIZE_SYMBOLS
  {
    if i < 3 then 16 + i else if i == 3 then 0 else if i % 2 == 0 then 6 + i / 2 else 9 - i / 2
  }

  /** The lengths are written in that order. */
  lemma FieldsInOrder(third: ThirdSizes, sent: nat, i: nat)
    requires i < sent <= SIZE_SYMBOLS
    ensures SizePieces(third, sent)[i] == Piece(third[SymbolOfField(i)], 3)
  {
  }

  lemma FieldsDiffer(i: nat, j: nat)
    requires i < SIZE_SYMBOLS && j < SIZE_SYMBOLS
    ensures SymbolOfField(i) == SymbolOfField(j) <==> i == j
  {
  }

  lemma FieldIs(i: nat)
    requires i < SIZE_SYMBOLS
    ensures SWIZZLE[i] == SymbolOfField(i)
  {
  }

  lemma FieldNext(r: Input, i: nat, sent: nat, sizes: ThirdSizes)
    requires i < sent <= SIZE_SYMBOLS && NextThird(r, i, sent, sizes).Ok?
    ensures NextBits(r, 3).Ok? && NextBits(r, 3).value < 8 && NextBits(r, 3).value == Low(r.bits, 3) && NextBits(r, 3).rest.bits == Shr(r.bits, 3)
    ensures NextThird(r, i, sent, sizes) == NextThird(NextBits(r, 3).rest, i + 1, sent, sizes[SymbolOfField(i) := NextBits(r, 3).value])
  {
    hide Low, Shr, SymbolOfField;
    ThreeBits(r);
    FieldIs(i);
  }

  /** They are read in that order, three bits each; the others stay as they were. */
  lemma {:induction false} FieldRead(r: Input, i: nat, sent: nat, sizes: ThirdSizes, j: nat)
    requires i <= sent <= SIZE_SYMBOLS && j < SIZE_SYMBOLS && NextThird(r, i, sent, sizes).Ok?
    ensures NextThird(r, i, sent, sizes).value[SymbolOfField(j)]
         == if i <= j < sent then Low(Shr(r.bits, 3 * (j - i)), 3) else sizes[SymbolOfField(j)]
    decreases sent - i
  {
    hide Low, Shr, SymbolOfField, NextThird, NextBits;
    if i == sent {
      AllFieldsRead(r, sent, sizes);
    } else {
      FieldNext(r, i, sent, sizes);
      FieldsDiffer(i, j);
      ShrNothing(r.bits);
      if i < j { ShrShr(r.bits, 3, 3 * (j - (i + 1))); }
      FieldRead(NextBits(r, 3).rest, i + 1, sent, sizes[SymbolOfField(i) := NextBits(r, 3).value], j);
    }
  }

  lemma AllFieldsRead(r: Input, sent: nat, sizes: ThirdSizes)
    requires sent <= SIZE_SYMBOLS
    ensures NextThird(r, sent, sent, sizes) == Ok(sizes, r)
  {
  }

  lemma ShrNothing(x: nat)
    ensures Shr(x, 0) == x
  {
  }

  /** The third code of a header: number `j` of the fields is the length of its symbol, and symbols without a field have none. */
  lemma ThirdInOrder(r: Input, sent: nat)
    requires sent <= SIZE_SYMBOLS && NextThird(r, 0, sent, NO_SIZES).Ok?
    ensures var third := NextThird(r, 0, sent, NO_SIZES).value;
            forall j: nat :: j < SIZE_SYMBOLS ==> third[SymbolOfField(j)] == if j < sent then Low(Shr(r.bits, 3 * j), 3) else 0
  {
    hide Low, Shr, SymbolOfField, NextThird;
    forall j: nat | j < SIZE_SYMBOLS
      ensures NextThird(r, 0, sent, NO_SIZES).value[SymbolOfField(j)] == if j < sent then Low(Shr(r.bits, 3 * j), 3) else 0
    {
      FieldRead(r, 0, sent, NO_SIZES, j);
    }
  }

  /** The lengths before number `i` are in their places, the others are zero. */
  ghost predicate SentUpTo(sizes: Sizes, third: Sizes, i: nat)
    requires |sizes| == |third| == SIZE_SYMBOLS
  {
    forall s: nat :: s < SIZE_SYMBOLS ==> sizes[s] == if Position(s) < i then third[s] else 0
  }

  lemma SizesFrom(third: Sizes, sent: nat, i: nat)
    requires GoodThird(third, sent) && i < sent
    ensures SizePieces(third, sent)[i..] == [Piece(third[SWIZZLE[i]], 3)] + SizePieces(third, sent)[i + 1..]
  {
  }

  lemma {:induction false} ThirdOfFront(r: Input, third: Sizes, sent: nat, i: nat, sizes: ThirdSizes, next: Input)
    requires GoodThird(third, sent) && i <= sent && SentUpTo(sizes, third, i)
    requires Front(r, SizePieces(third, sent)[i..], next)
    ensures NextThird(r, i, sent, sizes) == Ok(third, next)
    decreases sent - i
  {
    hide SizePieces, Position, NextBits, Standard, Packed, BitCount, Front;
    if i == sent {
      assert SizePieces(third, sent)[i..] == [];
      FrontIsNext(r, next);
      AllSent(third, sent, sizes);
    } else {
      PositionIs(i);
      SizesFrom(third, sent, i);
      var mid := FrontSplit(r, [Piece(third[SWIZZLE[i]], 3)], SizePieces(third, sent)[i + 1..], next);
      BitsOfFront(r, Piece(third[SWIZZLE[i]], 3), mid);
      ThirdOfFront(mid, third, sent, i + 1, sizes[SWIZZLE[i] := third[SWIZZLE[i]]], next);
    }
  }

  lemma FrontIsNext(r: Input, next: Input)
    requires Front(r, [], next)
    ensures r == next
  {
  }

  lemma AllSent(third: Sizes, sent: nat, sizes: Sizes)
    requires GoodThird(third, sent) && |sizes| == SIZE_SYMBOLS && SentUpTo(sizes, third, sent)
    ensures sizes == third
  {
    hide Standard, Position;
    forall s: nat | s < SIZE_SYMBOLS ensures sizes[s] == third[s] {
      if Position(s) >= sent { assert third[SWIZZLE[Position(s)]] == 0; }
    }
  }

  /** What the first symbol of a packed vector adds to the lengths. */
  ghost function Run(packed: seq<nat>, out: seq<nat>): seq<nat>
    requires packed != [] && P.Encodable(packed) && (packed[0] == 16 ==> out != [])
  {
    if packed[0] < 16 then [packed[0]] else P.RunOf(packed[0], packed[1], out)
  }

  lemma ExpandNext(packed: seq<nat>, out: seq<nat>, all: seq<nat>)
    requires P.Encodable(packed) && P.Expand(packed, out) == P.Lengths(all)
    ensures packed == [] ==> out == all
    ensures packed != [] ==>
              && packed[0] <= 18 && (packed[0] == 16 ==> out != []) && P.Expand(Next(packed), out + Run(packed, out)) == P.Lengths(all)
              && |out| < |all| && P.Encodable(Next(packed))
  {
    P.InflatedPacked(packed, [], out, all);
  }

  lemma FirstPacked(third: Sizes, packed: seq<nat>)
    requires P.Encodable(packed) && packed != [] && Used(third, packed[0])
    ensures packed[0] < 16 ==> OnePacked(third, packed) == [CodePiece(third, packed[0])]
    ensures packed[0] >= 16 ==> |packed| >= 2 && OnePacked(third, packed) == [CodePiece(third, packed[0])] + [Piece(packed[1], ExtraBits(packed[0]))]
  {
  }

  /** The code lengths that a packed vector stands for are read from its pieces. */
  lemma {:induction false} LengthsOfFront(r: Input, third: Sizes, packed: seq<nat>, out: Sizes, all: Sizes, next: Input)
    requires First(third, 16) <= 65536 && AllPacked(third, packed) && P.Encodable(packed) && P.Expand(packed, out) == P.Lengths(all)
    requires Front(r, PackedPieces(third, packed), next)
    ensures NextLengths(r, third, out, |all|) == Ok(all, next)
    decreases |packed|
  {
    hide First, Front, PackedPieces, OnePacked, AllPacked, P.Expand, P.Encodable, P.RunOf, NextSymbol, NextBits, CodePiece, Next;
    ExpandNext(packed, out, all);
    if packed == [] {
      NothingPacked(third);
      FrontIsNext(r, next);
    } else {
      PackedTail(third, packed);
      FirstPacked(third, packed);
      var mid := FrontSplit(r, OnePacked(third, packed), PackedPieces(third, Next(packed)), next);
      if packed[0] < 16 {
        SymbolOfFront(r, third, packed[0], mid);
      } else {
        var r1 := FrontSplit(r, [CodePiece(third, packed[0])], [Piece(packed[1], ExtraBits(packed[0]))], mid);
        SymbolOfFront(r, third, packed[0], r1);
        BitsOfFront(r1, Piece(packed[1], ExtraBits(packed[0])), mid);
        RunIsShort(out, packed[0], packed[1], out + Run(packed, out));
      }
      NextIsShorter(packed);
      LengthsOfFront(mid, third, Next(packed), out + Run(packed, out), all, next);
    }
  }

  lemma NextIsShorter(packed: seq<nat>)
    requires packed != []
    ensures |Next(packed)| < |packed|
  {
  }

  lemma HeaderSplit(h: Header)
    requires Good(h)
    ensures GoodThird(h.third, h.sent) && P.Encodable(h.packed) && AllPacked(h.third, h.packed)
    ensures HeaderPieces(h) == [Piece(|h.lit| - 257, 5)] + ([Piece(|h.dist| - 1, 5)] + ([Piece(h.sent - 4, 4)]
                               + (SizePieces(h.third, h.sent) + PackedPieces(h.third, h.packed))))
  {
    hide PackedPieces, SizePieces, Standard;
    HeaderParts(h);
    Nested([Piece(|h.lit| - 257, 5)], [Piece(|h.dist| - 1, 5)], [Piece(h.sent - 4, 4)],
           SizePieces(h.third, h.sent), PackedPieces(h.third, h.packed));
  }

  lemma Nested<T>(a: seq<T>, b: seq<T>, c: seq<T>, d: seq<T>, e: seq<T>)
    ensures a + b + c + d + e == a + (b + (c + (d + e)))
  {
  }

  /** The pieces of a header are read as the two codes it describes. */
  lemma CodesOfFront(r: Input, h: Header, next: Input)
    requires Good(h) && Front(r, HeaderPieces(h), next)
    ensures HeaderCodes(r) == Ok(Codes(h.lit, h.dist), next)
  {
    hide HeaderPieces, SizePieces, PackedPieces, Front, NextBits, NextThird, NextLengths, Accepted, Standard, AllPacked, P.Encodable, P.Expand, First;
    HeaderSplit(h);
    var a, b, c := [Piece(|h.lit| - 257, 5)], [Piece(|h.dist| - 1, 5)], [Piece(h.sent - 4, 4)];
    var d, e := SizePieces(h.third, h.sent), PackedPieces(h.third, h.packed);
    var r1 := FrontSplit(r, a, b + (c + (d + e)), next);
    var r2 := FrontSplit(r1, b, c + (d + e), next);
    var r3 := FrontSplit(r2, c, d + e, next);
    var r4 := FrontSplit(r3, d, e, next);
    BitsOfFront(r, a[0], r1);
    BitsOfFront(r1, b[0], r2);
    BitsOfFront(r2, c[0], r3);
    assert d[0..] == d;
    NothingSent(h.third);
    ThirdOfFront(r3, h.third, h.sent, 0, NO_SIZES, r4);
    StandardIsAccepted(h.third);
    StandardIsAccepted(h.lit);
    StandardIsAccepted(h.dist);
    AcceptedSum(h.third);
    LengthsOfFront(r4, h.third, h.packed, [], h.lit + h.dist, next);
    assert (h.lit + h.dist)[..|h.lit|] == h.lit && (h.lit + h.dist)[|h.lit|..] == h.dist;
  }

  lemma NothingSent(third: Sizes)
    requires |third| == SIZE_SYMBOLS
    ensures SentUpTo(NO_SIZES, third, 0)
  {
  }

  // ---------------------------------------------------------------- what is read was written

  lemma {:induction false} FrontOfThird(r: Input, i: nat, sent: nat, sizes: ThirdSizes, third: ThirdSizes)
    requires 4 <= sent && i <= sent <= SIZE_SYMBOLS && NextThird(r, i, sent, sizes).Ok? && NextThird(r, i, sent, sizes).value == third
    ensures forall j: nat :: j < SIZE_SYMBOLS && !(i <= j < sent) ==> third[SWIZZLE[j]] == sizes[SWIZZLE[j]]
    ensures Front(r, SizePieces(third, sent)[i..], NextThird(r, i, sent, sizes).rest) && NextThird(r, i, sent, sizes).rest.clean == r.clean
    decreases sent - i
  {
    hide SizePieces, NextBits, Packed, BitCount, Front, Position;
    if i == sent {
      assert SizePieces(third, sent)[i..] == [];
      FrontNothing(r);
    } else {
      ThreeBits(r);
      var s, r1 := NextBits(r, 3).value, NextBits(r, 3).rest;
      var sizes' := sizes[SWIZZLE[i] := s];
      FrontOfThird(r1, i + 1, sent, sizes', third);
      forall j: nat | j < SIZE_SYMBOLS && !(i <= j < sent) ensures third[SWIZZLE[j]] == sizes[SWIZZLE[j]] {
        PositionIs(i);
        PositionIs(j);
      }
      assert third[SWIZZLE[i]] == sizes'[SWIZZLE[i]] == s by { PositionIs(i); }
      FrontOfBits(r, 3);
      BitsBelow(r, 3);
      PieceFrom(third, sent, i);
      FrontConcat(r, [Piece(s, 3)], r1, SizePieces(third, sent)[i + 1..], NextThird(r, i, sent, sizes).rest);
    }
  }

  lemma PieceFrom(third: ThirdSizes, sent: nat, i: nat)
    requires i < sent <= SIZE_SYMBOLS
    ensures SizePieces(third, sent)[i..] == [Piece(third[SWIZZLE[i]], 3)] + SizePieces(third, sent)[i + 1..]
  {
  }

  lemma {:induction false} LengthsStayClean(r: Input, third: Sizes, out: Sizes, total: nat)
    requires NextLengths(r, third, out, total).Ok? && NextLengths(r, third, out, total).rest.clean
    ensures r.clean
    ensures |out| < total ==> NextSymbol(r, third).Ok? && NextSymbol(r, third).rest.clean
    decreases total - |out|
  {
    hide NextSymbol, NextBits, P.RunOf;
    if |out| < total {
      var s, r1 := NextSymbol(r, third).value, NextSymbol(r, third).rest;
      if s < 16 {
        LengthsStayClean(r1, third, out + [s], total);
      } else {
        var e, r2 := NextBits(r1, ExtraBits(s)).value, NextBits(r1, ExtraBits(s)).rest;
        RunIsShort(out, s, e, out + P.RunOf(s, e, out));
        LengthsStayClean(r2, third, out + P.RunOf(s, e, out), total);
        BitsBelow(r1, ExtraBits(s));
      }
      SymbolStaysClean(r, third);
    }
  }

  /** Code lengths that are read, if they are clean, are the pieces of a packed vector. */
  lemma {:induction false} FrontOfLengths(r: Input, third: Sizes, out: Sizes, total: nat) returns (packed: seq<nat>)
    requires |third| == SIZE_SYMBOLS && First(third, 16) <= 65536
    requires NextLengths(r, third, out, total).Ok? && NextLengths(r, third, out, total).rest.clean
    ensures P.Encodable(packed) && AllPacked(third, packed) && P.Expand(packed, out) == P.Lengths(NextLengths(r, third, out, total).value)
    ensures Front(r, PackedPieces(third, packed), NextLengths(r, third, out, total).rest)
    decreases total - |out|
  {
    hide First, Front, PackedPieces, OnePacked, AllPacked, P.Expand, P.Encodable, P.RunOf, NextSymbol, NextBits, CodePiece, Next;
    var last := NextLengths(r, third, out, total);
    LengthsStayClean(r, third, out, total);
    if |out| >= total {
      packed := [];
      NothingPacked(third);
      NothingToExpand(out);
      FrontNothing(r);
    } else {
      var s, r1 := NextSymbol(r, third).value, NextSymbol(r, third).rest;
      FrontOfSymbol(r, third);
      if s < 16 {
        var more := FrontOfLengths(r1, third, out + [s], total);
        packed := [s] + more;
        PackedLength(third, s, more, out);
        FrontConcat(r, [CodePiece(third, s)], r1, PackedPieces(third, more), last.rest);
      } else {
        var e, r2 := NextBits(r1, ExtraBits(s)).value, NextBits(r1, ExtraBits(s)).rest;
        RunBound(r1, s);
        RunIsShort(out, s, e, out + P.RunOf(s, e, out));
        var more := FrontOfLengths(r2, third, out + P.RunOf(s, e, out), total);
        packed := [s, e] + more;
        PackedRun(third, s, e, more, out);
        FrontOfBits(r1, ExtraBits(s));
        FrontConcat(r1, [Piece(e, ExtraBits(s))], r2, PackedPieces(third, more), last.rest);
        FrontConcat(r, [CodePiece(third, s)], r1, [Piece(e, ExtraBits(s))] + PackedPieces(third, more), last.rest);
      }
    }
  }

  lemma NothingToExpand(out: seq<nat>)
    ensures P.Expand([], out) == P.Lengths(out)
  {
  }

  lemma PackedLength(third: Sizes, s: nat, more: seq<nat>, out: seq<nat>)
    requires s < 16 && Used(third, s) && P.Encodable(more) && AllPacked(third, more)
    ensures P.Encodable([s] + more) && AllPacked(third, [s] + more) && P.Expand([s] + more, out) == P.Expand(more, out + [s])
    ensures PackedPieces(third, [s] + more) == [CodePiece(third, s)] + PackedPieces(third, more)
  {
    var packed := [s] + more;
    assert packed[1..] == more && packed[0] == s;
    assert Next(packed) == more;
  }

  lemma PackedRun(third: Sizes, s: nat, e: nat, more: seq<nat>, out: seq<nat>)
    requires 16 <= s <= 18 && e < P.ExtraLimit(s) && (s == 16 ==> out != []) && Used(third, s) && P.Encodable(more) && AllPacked(third, more)
    ensures P.Encodable([s, e] + more) && AllPacked(third, [s, e] + more)
    ensures P.Expand([s, e] + more, out) == P.Expand(more, out + P.RunOf(s, e, out))
    ensures PackedPieces(third, [s, e] + more) == [CodePiece(third, s)] + ([Piece(e, ExtraBits(s))] + PackedPieces(third, more))
  {
    hide PackedPieces, CodePiece, OnePacked;
    var packed := [s, e] + more;
    assert packed[2..] == more && packed[0] == s && packed[1] == e;
    assert Next(packed) == more;
    PackedTail(third, packed);
    FirstPacked(third, packed);
    Associates([CodePiece(third, s)], [Piece(e, ExtraBits(s))], PackedPieces(third, more));
  }

  /** A header that is read, if it is clean, is the pieces of one. */
  lemma FrontOfCodes(r: Input) returns (h: Header)
    requires HeaderCodes(r).Ok? && HeaderCodes(r).rest.clean
    ensures r.clean && Good(h) && HeaderCodes(r).value == Codes(h.lit, h.dist) && Front(r, HeaderPieces(h), HeaderCodes(r).rest)
  {
    hide HeaderPieces, SizePieces, PackedPieces, Front, NextBits, NextThird, NextLengths, Accepted, Standard, AllPacked, P.Encodable, P.Expand, First;
    var codes, next := HeaderCodes(r).value, HeaderCodes(r).rest;
    var a, r1 := NextBits(r, 5).value, NextBits(r, 5).rest;
    var b, r2 := NextBits(r1, 5).value, NextBits(r1, 5).rest;
    var c, r3 := NextBits(r2, 4).value, NextBits(r2, 4).rest;
    CountBits(r);
    CountBits(r1);
    CountBits(r2);
    var third, r4 := NextThird(r3, 0, c + 4, NO_SIZES).value, NextThird(r3, 0, c + 4, NO_SIZES).rest;
    FrontOfThird(r3, 0, c + 4, NO_SIZES, third);
    AcceptedSum(third);
    LengthsStayClean(r4, third, [], a + b + 258);
    var packed := FrontOfLengths(r4, third, [], a + b + 258);
    h := Header(codes.lit, codes.dist, third, c + 4, packed);
    var all := NextLengths(r4, third, [], a + b + 258).value;
    assert all == codes.lit + codes.dist;
    HeaderIsGood(h);
    HeaderSplit(h);
    FrontOfBits(r, 5);
    FrontOfBits(r1, 5);
    FrontOfBits(r2, 4);
    BitsBelow(r, 5);
    BitsBelow(r1, 5);
    BitsBelow(r2, 4);
    assert SizePieces(third, c + 4)[0..] == SizePieces(third, c + 4);
    var d, e := SizePieces(third, c + 4), PackedPieces(third, packed);
    FrontConcat(r3, d, r4, e, next);
    FrontConcat(r2, [Piece(c, 4)], r3, d + e, next);
    FrontConcat(r1, [Piece(b, 5)], r2, [Piece(c, 4)] + (d + e), next);
    FrontConcat(r, [Piece(a, 5)], r1, [Piece(b, 5)] + ([Piece(c, 4)] + (d + e)), next);
  }

  lemma HeaderIsGood(h: Header)
    requires 257 <= |h.lit| <= 286 && 1 <= |h.dist| <= DIST_SYMBOLS && Standard(h.lit) && Standard(h.dist)
    requires |h.third| == SIZE_SYMBOLS && Standard(h.third) && (forall s :: 0 <= s < SIZE_SYMBOLS ==> h.third[s] < 8)
    requires 4 <= h.sent <= SIZE_SYMBOLS && forall i: nat :: h.sent <= i < SIZE_SYMBOLS ==> h.third[SWIZZLE[i]] == 0
    requires P.Encodable(h.packed) && AllPacked(h.third, h.packed) && P.Expand(h.packed, []) == P.Lengths(h.lit + h.dist)
    ensures Good(h)
  {
  }
}
