/** Whole streams: what `tdefl_flush_block` of `src/miniz.c` writes for a list of blocks (section 3.2.3 of RFC 1951). */
module DeflateStream {
  import opened Bits
  import opened HuffmanCode
  import opened HuffmanEncoder
  import opened Sequences
  import opened BitPieces
  import opened LzTokens
  import opened DeflateSymbols
  import opened DeflateBlock
  import opened DynamicHeader
  import opened FixedCode
  import CodeCost

  // ---------------------------------------------------------------- a stream as pieces

  /** How a block is sent.  What the bits are that a stored block skips up to the next byte does not matter. */
  datatype Form = Raw(skipped: nat) | Fixed | Own(header: Header)

  /** The form can express the block. */
  ghost predicate Suits(b: Block, f: Form) {
    match f
    case Raw(_) => b.Stored? && |b.bytes| <= 65535
    case Fixed => b.Coded? && AllCodable(StaticLit(), StaticDist(), b.tokens)
    case Own(h) => b.Coded? && Good(h) && AllCodable(h.lit, h.dist, b.tokens)
  }

  /** Bits up to the next byte after `at` bits. */
  ghost function Padding(at: nat, skipped: nat): (ps: seq<Piece>)
    ensures AllFit(ps) && |ps| <= 1
  {
    if at % 8 == 0 then [] else [Piece(Low(skipped, 8 - at % 8), 8 - at % 8)]
  }

  lemma {:induction false} LowOfNothing(n: nat)
    ensures Low(0, n) == 0
  {
    if n > 0 { LowOfNothing(n - 1); }
  }

  ghost function BytePieces(bytes: seq<Byte>): (ps: seq<Piece>)
    ensures AllFit(ps) && |ps| == |bytes|
  {
    Pow2Values();
    seq(|bytes|, i requires 0 <= i < |bytes| => Piece(bytes[i], 8))
  }

  /** The length of a stored block, and its complement. */
  ghost function SizeFields(n: nat): (ps: seq<Piece>)
    requires n <= 65535
    ensures AllFit(ps)
  {
    Pow2Values();
    [Piece(n, 16), Piece(65535 - n, 16)]
  }

  /** The type of a block, as two bits. */
  function TypeOf(f: Form): (t: nat)
    ensures t <= 2
  {
    match f case Raw(_) => 0 case Fixed => 1 case Own(_) => 2
  }

  /** What comes after the type, `at` bits into the stream. */
  ghost function Body(b: Block, f: Form, at: nat): (ps: seq<Piece>)
    requires Suits(b, f)
    ensures AllFit(ps)
  {
    match f
    case Raw(skipped) => Padding(at, skipped) + SizeFields(|b.bytes|) + BytePieces(b.bytes)
    case Fixed => BlockPieces(StaticLit(), StaticDist(), b.tokens)
    case Own(h) => HeaderPieces(h) + BlockPieces(h.lit, h.dist, b.tokens)
  }

  /** A block, from its final bit on. */
  ghost function Whole(b: Block, f: Form, last: bool, at: nat): (ps: seq<Piece>)
    requires Suits(b, f)
    ensures AllFit(ps)
  {
    BitsFit();
    [Piece(if last then 1 else 0, 1), Piece(TypeOf(f), 2)] + Body(b, f, at + 3)
  }

  lemma BitsFit()
    ensures Fits(Piece(0, 1)) && Fits(Piece(1, 1)) && Fits(Piece(0, 2)) && Fits(Piece(1, 2)) && Fits(Piece(2, 2))
  {
    assert Pow2(1) == 2 && Pow2(2) == 4;
  }

  ghost predicate AllSuit(blocks: seq<Block>, forms: seq<Form>) {
    |forms| <= |blocks| && forall i :: 0 <= i < |forms| ==> Suits(blocks[i], forms[i])
  }

  /** The first `n` blocks one after the other, `at` bits into the stream; the final bit is set in the last one. */
  ghost function Blocks(blocks: seq<Block>, forms: seq<Form>, at: nat, n: nat): (ps: seq<Piece>)
    requires AllSuit(blocks, forms) && n <= |forms|
    ensures AllFit(ps)
  {
    if n == 0 then []
    else
      var before := Blocks(blocks, forms, at, n - 1);
      before + Whole(blocks[n - 1], forms[n - 1], n == |blocks|, at + BitCount(before))
  }

  // ---------------------------------------------------------------- writing

  /** `if (d->m_bits_in) TDEFL_PUT_BITS(0, 8 - d->m_bits_in)`. */
  method Pad(w: BitWriter, ghost ps: seq<Piece>)
    requires Wrote(w, ps)
    modifies w
    ensures Wrote(w, ps + Padding(BitCount(ps), 0))
  {
    hide Packed, AllFit;
    assert w.bitsIn == BitCount(ps) % 8;
    if w.bitsIn > 0 {
      LowOfNothing(8 - w.bitsIn);
      assert Fits(Piece(0, 8 - w.bitsIn));
      Put(w, 0, 8 - w.bitsIn, ps);
    } else {
      assert ps + [] == ps;
    }
  }

  method PutBytes(w: BitWriter, bytes: seq<Byte>, ghost ps: seq<Piece>)
    requires Wrote(w, ps)
    modifies w
    ensures Wrote(w, ps + BytePieces(bytes))
  {
    hide Wrote;
    ghost var all := BytePieces(bytes);
    assert ps + all[..0] == ps;
    for i := 0 to |bytes|
      invariant Wrote(w, ps + all[..i])
    {
      assert all[i] == Piece(bytes[i], 8) && Fits(all[i]);
      assert ps + all[..i] + [all[i]] == ps + all[..i + 1];
      Put(w, bytes[i], 8, ps + all[..i]);
    }
    assert all[..|bytes|] == all;
  }

  /** Lines 2198 to 2206, after the type. */
  method WriteStored(w: BitWriter, bytes: seq<Byte>, ghost ps: seq<Piece>)
    requires Wrote(w, ps) && |bytes| <= 65535
    modifies w
    ensures Wrote(w, ps + Body(Stored(bytes), Raw(0), BitCount(ps)))
  {
    hide Wrote, Padding, BytePieces, BitCount;
    ghost var pad, fields := Padding(BitCount(ps), 0), SizeFields(|bytes|);
    Pad(w, ps);
    assert Fits(fields[0]) && Fits(fields[1]);
    Put(w, |bytes|, 16, ps + pad);
    Put(w, 65535 - |bytes|, 16, ps + pad + [fields[0]]);
    assert ps + pad + [fields[0]] + [fields[1]] == ps + pad + fields;
    PutBytes(w, bytes, ps + pad + fields);
    FourParts(ps, pad, fields, BytePieces(bytes));
  }

  lemma FourParts<T>(a: seq<T>, b: seq<T>, c: seq<T>, d: seq<T>)
    ensures a + b + c + d == a + (b + c + d)
  {
  }

  lemma LegalIsRecorded(tokens: seq<Token>, produced: nat)
    requires Legal(tokens, produced)
    ensures forall i :: 0 <= i < |tokens| ==> Recorded(tokens[i])
    decreases |tokens|
  {
    if tokens != [] { LegalIsRecorded(tokens[1..], produced + LzTokens.Width(tokens[0])); }
  }

  lemma FixedSuits(tokens: seq<Token>)
    requires forall i :: 0 <= i < |tokens| ==> Recorded(tokens[i])
    ensures AllCodable(StaticLit(), StaticDist(), tokens)
  {
  }

  lemma TalliedSuits(tokens: seq<Token>, litCounts: seq<nat>, distCounts: seq<nat>, lit: Sizes, dist: Sizes)
    requires Tallied(tokens, litCounts, distCounts)
    requires forall s: nat :: s < LIT_SYMBOLS && litCounts[s] > 0 ==> Used(lit, s)
    requires forall s: nat :: s < DIST_SYMBOLS && distCounts[s] > 0 ==> Used(dist, s)
    ensures AllCodable(lit, dist, tokens)
  {
    hide Used, LenSym, DistSym;
    EndIsUsed(tokens);
    forall i | 0 <= i < |tokens| ensures Codable(lit, dist, tokens[i]) {
      UsesAtLeast(tokens, i);
    }
  }

  /** `tdefl_compress_block` with the fixed code. */
  method WriteFixed(w: BitWriter, tokens: seq<Token>, ghost ps: seq<Piece>)
    requires Wrote(w, ps) && AllCodable(StaticLit(), StaticDist(), tokens)
    modifies w
    ensures Wrote(w, ps + [Piece(1, 2)] + BlockPieces(StaticLit(), StaticDist(), tokens))
  {
    hide Wrote, IsTable, AllCodable, StaticLit, StaticDist, BlockPieces;
    var litCodes := StaticTable(StaticLit());
    var distCodes := StaticTable(StaticDist());
    BitsFit();
    Put(w, 1, 2, ps);
    CompressLzCodes(w, StaticLit(), litCodes, StaticDist(), distCodes, StaticLit(), StaticDist(), tokens, ps + [Piece(1, 2)]);
  }

  /** `tdefl_compress_block` with a code made for the block. */
  method WriteOwn(w: BitWriter, tokens: seq<Token>, ghost ps: seq<Piece>) returns (ghost h: Header)
    requires Wrote(w, ps) && |tokens| <= 65534 && forall i :: 0 <= i < |tokens| ==> Recorded(tokens[i])
    modifies w
    ensures Good(h) && AllCodable(h.lit, h.dist, tokens)
    ensures Wrote(w, ps + [Piece(2, 2)] + HeaderPieces(h) + BlockPieces(h.lit, h.dist, tokens))
  {
    hide Wrote, IsTable, AllCodable, BlockPieces, Good, HeaderPieces, Tallied, CodeCost.Sum, Used;
    var litCounts, distCounts := Tally(tokens);
    TalliedFits(tokens, litCounts, distCounts);
    var litSizes, litCodes, distSizes, distCodes;
    litSizes, litCodes, distSizes, distCodes, h := StartDynamicBlock(w, litCounts, distCounts, ps);
    TalliedSuits(tokens, litCounts, distCounts, h.lit, h.dist);
    CompressLzCodes(w, litSizes, litCodes, distSizes, distCodes, h.lit, h.dist, tokens, ps + [Piece(2, 2)] + HeaderPieces(h));
  }

  lemma {:induction false} AtMostSum(s: seq<nat>)
    ensures forall i :: 0 <= i < |s| ==> s[i] <= CodeCost.Sum(s)
  {
    if s != [] { AtMostSum(s[1..]); }
  }

  lemma TalliedFits(tokens: seq<Token>, lit: seq<nat>, dist: seq<nat>)
    requires Tallied(tokens, lit, dist) && |tokens| <= 65534
    ensures |lit| == LIT_SYMBOLS && CodeCost.Sum(lit) <= 65535 && (forall s :: 0 <= s < LIT_SYMBOLS ==> lit[s] < 65536)
    ensures |dist| == DIST_SYMBOLS && CodeCost.Sum(dist) <= 65535 && (forall s :: 0 <= s < DIST_SYMBOLS ==> dist[s] < 65536)
    ensures lit[END_OF_BLOCK] > 0 && lit[286] == 0 && lit[287] == 0 && dist[30] == 0 && dist[31] == 0
  {
    hide CodeCost.Sum, LitUses, DistUses;
    EndIsUsed(tokens);
    AtMostSum(lit);
    AtMostSum(dist);
  }

  /** `tdefl_flush_block` (lines 2185 to 2207): the final bit, the type, and the block in one of the three forms. */
  method WriteBlock(w: BitWriter, b: Block, last: bool, fixedCode: bool, ghost produced: nat, ghost ps: seq<Piece>) returns (ghost f: Form)
    requires Wrote(w, ps) && Sendable(b) && (b.Coded? ==> Legal(b.tokens, produced))
    modifies w
    ensures Suits(b, f) && Wrote(w, ps + Whole(b, f, last, BitCount(ps)))
  {
    hide Wrote, AllCodable, BlockPieces, Good, HeaderPieces, StaticLit, StaticDist, BitCount, Padding, Legal;
    BitsFit();
    ghost var final := Piece(if last then 1 else 0, 1);
    Put(w, if last then 1 else 0, 1, ps);
    match b
    case Stored(bytes) =>
      f := Raw(0);
      Put(w, 0, 2, ps + [final]);
      HeadCount(ps, final, Piece(0, 2));
      WriteStored(w, bytes, ps + [final] + [Piece(0, 2)]);
      WholeIs(ps, b, f, last);
    case Coded(tokens) =>
      LegalIsRecorded(tokens, produced);
      if fixedCode {
        FixedSuits(tokens);
        f := Fixed;
        WriteFixed(w, tokens, ps + [final]);
      } else {
        ghost var h := WriteOwn(w, tokens, ps + [final]);
        f := Own(h);
        Associates(ps + [final] + [Piece(2, 2)], HeaderPieces(h), BlockPieces(h.lit, h.dist, tokens));
      }
      WholeIs(ps, b, f, last);
  }

  lemma HeadCount(ps: seq<Piece>, p: Piece, q: Piece)
    requires Fits(p) && Fits(q)
    ensures BitCount(ps + [p] + [q]) == BitCount(ps) + p.width + q.width
  {
    PackedConcat(ps + [p], [q]);
    PackedConcat(ps, [p]);
  }

  lemma WholeIs(ps: seq<Piece>, b: Block, f: Form, last: bool)
    requires Suits(b, f)
    ensures var at := BitCount(ps);
            ps + Whole(b, f, last, at) == ps + [Piece(if last then 1 else 0, 1)] + [Piece(TypeOf(f), 2)] + Body(b, f, at + 3)
  {
    hide Suits, Body;
    var at := BitCount(ps);
    var p, q := Piece(if last then 1 else 0, 1), Piece(TypeOf(f), 2);
    assert [p, q] == [p] + [q];
    FourParts(ps, [p], [q], Body(b, f, at + 3));
  }

  // ---------------------------------------------------------------- how many bits these are

  lemma PaddingCount(at: nat, skipped: nat)
    ensures BitCount(Padding(at, skipped)) == if at % 8 == 0 then 0 else 8 - at % 8
  {
    if at % 8 != 0 { PackedOne(Padding(at, skipped)[0]); }
  }

  lemma {:induction false} BytesCount(bytes: seq<Byte>, n: nat)
    requires n <= |bytes|
    ensures BitCount(BytePieces(bytes)[..n]) == 8 * n
  {
    if n > 0 {
      var all := BytePieces(bytes);
      BytesCount(bytes, n - 1);
      assert all[..n] == all[..n - 1] + [all[n - 1]];
      PackedConcat(all[..n - 1], [all[n - 1]]);
      PackedOne(all[n - 1]);
    }
  }

  // ---------------------------------------------------------------- all blocks

  lemma {:induction false} FrontInflates(blocks: seq<Block>, i: nat)
    requires i <= |blocks| && Inflate(blocks).Bytes?
    ensures Inflate(blocks[..i]).Bytes?
    decreases |blocks|
  {
    hide Legal, Expand;
    if i == |blocks| {
      assert blocks[..i] == blocks;
    } else {
      var front := blocks[..|blocks| - 1];
      assert front[..i] == blocks[..i];
      FrontInflates(front, i);
    }
  }

  /** What the next block adds. */
  lemma InflateNext(blocks: seq<Block>, i: nat)
    requires i < |blocks| && Inflate(blocks).Bytes?
    ensures Inflate(blocks[..i]).Bytes?
    ensures var out, b := Inflate(blocks[..i]).bytes, blocks[i];
            && (b.Coded? ==> Legal(b.tokens, |out|))
            && Inflate(blocks[..i + 1]) == Bytes(if b.Coded? then Expand(b.tokens, out) else out + b.bytes)
  {
    hide Legal, Expand;
    FrontInflates(blocks, i);
    FrontInflates(blocks, i + 1);
    assert blocks[..i + 1][..i] == blocks[..i];
  }

  lemma {:induction false} SameBlocks(blocks: seq<Block>, forms: seq<Form>, f: Form, at: nat, n: nat)
    requires AllSuit(blocks, forms) && AllSuit(blocks, forms + [f]) && n <= |forms|
    ensures Blocks(blocks, forms + [f], at, n) == Blocks(blocks, forms, at, n)
  {
    hide Suits, Whole;
    if n > 0 { SameBlocks(blocks, forms, f, at, n - 1); }
  }

  lemma OneMoreBlock(blocks: seq<Block>, forms: seq<Form>, f: Form, at: nat)
    requires AllSuit(blocks, forms) && |forms| < |blocks| && Suits(blocks[|forms|], f)
    ensures AllSuit(blocks, forms + [f])
    ensures var i := |forms|;
            var done := Blocks(blocks, forms, at, i);
            Blocks(blocks, forms + [f], at, i + 1) == done + Whole(blocks[i], f, i + 1 == |blocks|, at + BitCount(done))
  {
    hide Suits, Whole, BitCount;
    SameBlocks(blocks, forms, f, at, |forms|);
  }

  /** The blocks of a stream; `fixedCode` says which blocks of codes are sent with the fixed code. */
  method WriteBlocks(w: BitWriter, blocks: seq<Block>, fixedCode: nat -> bool, ghost ps: seq<Piece>) returns (ghost forms: seq<Form>)
    requires Wrote(w, ps) && AllSendable(blocks) && Inflate(blocks).Bytes?
    modifies w
    ensures AllSuit(blocks, forms) && |forms| == |blocks| && Wrote(w, ps + Blocks(blocks, forms, BitCount(ps), |blocks|))
  {
    hide Wrote, Suits, Whole, BitCount, Legal, Expand, Inflate, Sendable, Blocks;
    forms := [];
    NoBlocks(blocks, [], BitCount(ps));
    ghost var at := BitCount(ps);
    assert ps + [] == ps;
    for i := 0 to |blocks|
      invariant |forms| == i && AllSuit(blocks, forms) && Wrote(w, ps + Blocks(blocks, forms, at, i))
    {
      InflateNext(blocks, i);
      ghost var done := Blocks(blocks, forms, at, i);
      PackedConcat(ps, done);
      ghost var f := WriteBlock(w, blocks[i], i + 1 == |blocks|, fixedCode(i), |Inflate(blocks[..i]).bytes|, ps + done);
      OneMoreBlock(blocks, forms, f, at);
      Associates(ps, done, Whole(blocks[i], f, i + 1 == |blocks|, at + BitCount(done)));
      forms := forms + [f];
    }
  }

  lemma NoBlocks(blocks: seq<Block>, forms: seq<Form>, at: nat)
    requires AllSuit(blocks, forms)
    ensures Blocks(blocks, forms, at, 0) == [] && BitCount([]) == 0 && Inflate(blocks[..0]) == Bytes([])
  {
  }
}
