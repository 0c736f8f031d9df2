/** Three streams byte by byte, and what they stand for: a stored block, a block with the fixed codes, and a block with codes of
    its own.  They tie the descriptions of RFC 1950 and RFC 1951 in the other modules to bytes. */
module ZlibExamples {
  import opened Bits
  import opened HuffmanCode
  import opened BitPieces
  import opened LzTokens
  import opened DeflateSymbols
  import opened DeflateBlock
  import opened DynamicHeader
  import opened FixedCode
  import opened DeflateStream
  import opened InflateStream
  import opened InflateHeader
  import opened ZlibStream
  import A = Adler32
  import P = CodeLengthPacking

  // ---------------------------------------------------------------- pieces as numbers

  /** The pieces are `n` bits, and as a number `v`. */
  ghost predicate Is(ps: seq<Piece>, n: nat, v: nat) {
    AllFit(ps) && BitCount(ps) == n && Packed(ps) == v
  }

  lemma Nothing()
    ensures Is([], 0, 0)
  {
  }

  lemma Join(p: seq<Piece>, n: nat, v: nat, pow: nat, q: seq<Piece>, m: nat, u: nat)
    requires Is(p, n, v) && Is(q, m, u) && pow == Pow2(n)
    ensures Is(p + q, n + m, v + u * pow)
  {
    hide Packed, BitCount, Pow2;
    PackedConcat(p, q);
    PackedBound(p);
    AppendValue(v, n, u);
  }

  lemma {:induction false} PackedBound(ps: seq<Piece>)
    requires AllFit(ps)
    ensures Packed(ps) < Pow2(BitCount(ps))
  {
    if ps != [] {
      PackedBound(ps[1..]);
      AppendBound(ps[0].bits, ps[0].width, Packed(ps[1..]), BitCount(ps[1..]));
    }
  }

  /** One piece in front. */
  lemma Before(bits: nat, width: nat, pow: nat, ps: seq<Piece>, n: nat, v: nat)
    requires Is(ps, n, v) && pow == Pow2(width) && width <= 16 && bits < pow
    ensures Is([Piece(bits, width)] + ps, width + n, bits + v * pow)
  {
    hide Packed, BitCount, Pow2;
    PackedOne(Piece(bits, width));
    Join([Piece(bits, width)], width, bits, pow, ps, n, v);
  }

  lemma {:induction false} BytesAre(bytes: seq<Byte>)
    ensures Is(BytePieces(bytes), 8 * |bytes|, BytesValue(bytes))
  {
    if bytes == [] {
      Nothing();
    } else {
      assert BytePieces(bytes)[1..] == BytePieces(bytes[1..]);
      BytesAre(bytes[1..]);
    }
  }

  /** The number of a byte string, from its end. */
  lemma ByteBefore(bytes: seq<Byte>, i: nat, v: nat)
    requires i < |bytes| && BytesValue(bytes[i + 1..]) == v
    ensures BytesValue(bytes[i..]) == bytes[i] + 256 * v
  {
    hide Append;
    Pow2Values();
    assert bytes[i..][1..] == bytes[i + 1..];
    AppendValue(bytes[i], 8, v);
  }

  // ---------------------------------------------------------------- streams of one block

  lemma FrameOfOne(w: Wrapping, b: Block, f: Form, adler: nat)
    requires Suits(b, f) && adler < A.WORD
    ensures Frame(w, [b], [f], adler)
         == BytePieces([w.zhdr0, w.zhdr1])
            + (Whole(b, f, true, 16) + (Padding(16 + BitCount(Whole(b, f, true, 16)), w.skipped) + BytePieces(ChecksumBytes(adler))))
  {
    hide BytePieces, Padding, ChecksumBytes, Suits, Whole;
    var body := Whole(b, f, true, 16);
    assert AllSuit([b], [f]);
    assert Blocks([b], [f], 16, 0) == [] && BitCount([]) == 0;
    assert Blocks([b], [f], 16, 1) == [] + Whole([b][0], [f][0], 1 == |[b]|, 16 + 0) == body;
  }

  /** The pieces of a stream of one block, as a number: a header, the block, `pad` zeros and the checksum. */
  lemma FrameIs(zhdr1: Byte, b: Block, f: Form, adler: nat, n: nat, v: nat, pow: nat, pad: nat, padPow: nat, tail: nat, all: nat)
    requires Suits(b, f) && adler < A.WORD
    requires Is(Whole(b, f, true, 16), n, v) && pow == Pow2(n)
    requires pad == (if n % 8 == 0 then 0 else 8 - n % 8) && padPow == Pow2(pad)
    requires tail == BytesValue(ChecksumBytes(adler)) * padPow && all == v + tail * pow
    ensures Is(Frame(Wrapping(0x78, zhdr1, 0), [b], [f], adler), 48 + n + pad, BytesValue([0x78, zhdr1]) + all * 65536)
  {
    hide BytePieces, Padding, Suits, Whole, BytesValue, Is, Pow2, Frame, ChecksumBytes;
    var w := Wrapping(0x78, zhdr1, 0);
    var body, check := Whole(b, f, true, 16), BytePieces(ChecksumBytes(adler));
    FrameOfOne(w, b, f, adler);
    BytesAre([0x78, zhdr1]);
    BytesAre(ChecksumBytes(adler));
    CountOf(body, n, v);
    PaddingBefore(16 + n, pad, padPow, check, 32, BytesValue(ChecksumBytes(adler)));
    Join(body, n, v, pow, Padding(16 + n, 0) + check, pad + 32, tail);
    Pow2Values();
    Join(BytePieces([0x78, zhdr1]), 16, BytesValue([0x78, zhdr1]), 65536, body + (Padding(16 + n, 0) + check), n + (pad + 32), all);
  }

  /** Bytes that are those pieces are a stream of the block. */
  lemma StreamOfOne(bytes: seq<Byte>, zhdr1: Byte, b: Block, f: Form, out: seq<Byte>)
    requires Suits(b, f) && Inflate([b]) == Bytes(out) && GoodHeader(0x78, zhdr1) && SumOf(out) < A.WORD
    requires Is(Frame(Wrapping(0x78, zhdr1, 0), [b], [f], SumOf(out)), 8 * |bytes|, BytesValue(bytes))
    ensures Encodes(bytes, out)
  {
    hide Suits, SumOf, BytesValue, Inflate, Is, Frame, AllStayNear, WindowSize, GoodHeader, GoodWindow, Front;
    var w := Wrapping(0x78, zhdr1, 0);
    IsWhole(bytes, Frame(w, [b], [f], SumOf(out)));
    LargestWindow();
    AlwaysNear([b]);
    assert StartsWith(bytes, w, [b], [f], Input(0, 0, true, InputOf(bytes).window));
  }

  lemma CountOf(ps: seq<Piece>, n: nat, v: nat)
    requires Is(ps, n, v)
    ensures BitCount(ps) == n
  {
  }

  lemma PaddingBefore(at: nat, pad: nat, padPow: nat, ps: seq<Piece>, n: nat, v: nat)
    requires Is(ps, n, v) && pad == (if at % 8 == 0 then 0 else 8 - at % 8) && padPow == Pow2(pad)
    ensures Is(Padding(at, 0) + ps, pad + n, v * padPow)
  {
    hide Is;
    if pad == 0 {
      assert [] + ps == ps;
    } else {
      LowOfNothing(pad);
      Before(0, pad, padPow, ps, n, v);
    }
  }

  lemma IsWhole(bytes: seq<Byte>, ps: seq<Piece>)
    requires Is(ps, 8 * |bytes|, BytesValue(bytes))
    ensures Front(InputOf(bytes), ps, Input(0, 0, true, InputOf(bytes).window))
  {
    hide Packed, BitCount, Front, BytesValue;
    WholeInput(bytes, ps);
  }

  /** One byte more of a checksum. */
  lemma SumOneMore(bytes: seq<Byte>, i: nat, s: A.Sums)
    requires i < |bytes| && A.Adler(A.Unpack(1), bytes[..i]) == s
    ensures A.Adler(A.Unpack(1), bytes[..i + 1]) == A.Update(s, bytes[i])
  {
    assert bytes[..i + 1][..i] == bytes[..i];
  }

  lemma NoBytes()
    ensures BytesValue([]) == 0
  {
  }

  /** The two bytes of a header. */
  lemma TwoBytes(bytes: seq<Byte>)
    requires |bytes| == 2
    ensures BytesValue(bytes) == bytes[0] as nat + 256 * (bytes[1] as nat)
  {
    hide BytesValue;
    NoBytes();
    assert bytes[2..] == [];
    ByteBefore(bytes, 1, 0);
    ByteBefore(bytes, 0, bytes[1]);
    assert bytes[0..] == bytes;
  }

  /** The four bytes of a checksum. */
  lemma CheckValue(a: nat)
    requires a < A.WORD
    ensures BytesValue(ChecksumBytes(a)) == a / 0x100_0000 + 256 * (a / 0x1_0000 % 256 + 256 * (a / 0x100 % 256 + 256 * (a % 256)))
  {
    hide BytesValue;
    var b := ChecksumBytes(a);
    NoBytes();
    assert b[4..] == [];
    var b1: nat, b2: nat, b3: nat := b[1], b[2], b[3];
    ByteBefore(b, 3, 0);
    ByteBefore(b, 2, b3);
    ByteBefore(b, 1, b2 + 256 * b3);
    ByteBefore(b, 0, b1 + 256 * (b2 + 256 * b3));
    assert b[0..] == b;
  }

  // ---------------------------------------------------------------- a stored block

  const STORED_STREAM: seq<Byte> := [0x78, 0x01, 0x01, 0x03, 0x00, 0xfc, 0xff, 0x61, 0x62, 0x63, 0x02, 0x4d, 0x01, 0x27]
  const STORED_TEXT: seq<Byte> := [0x61, 0x62, 0x63]

  lemma StoredSum(out: seq<Byte>)
    requires out == STORED_TEXT
    ensures SumOf(out) == 0x024d0127 < A.WORD
  {
    hide A.Adler;
    A.AdlerOfNothing();
    assert out[..0] == [];
    SumOneMore(out, 0, A.Sums(1, 0));
    SumOneMore(out, 1, A.Sums(98, 98));
    SumOneMore(out, 2, A.Sums(196, 294));
    assert out[..3] == out;
  }

  lemma StoredBytes(bytes: seq<Byte>)
    requires bytes == STORED_STREAM
    ensures BytesValue(bytes) == 0x27014d02636261fffc0003010178
  {
    hide BytesValue;
    NoBytes();
    assert bytes[14..] == [];
    ByteBefore(bytes, 13, 0x0);
    ByteBefore(bytes, 12, 0x27);
    ByteBefore(bytes, 11, 0x2701);
    ByteBefore(bytes, 10, 0x27014d);
    ByteBefore(bytes, 9, 0x27014d02);
    ByteBefore(bytes, 8, 0x27014d0263);
    ByteBefore(bytes, 7, 0x27014d026362);
    ByteBefore(bytes, 6, 0x27014d02636261);
    ByteBefore(bytes, 5, 0x27014d02636261ff);
    ByteBefore(bytes, 4, 0x27014d02636261fffc);
    ByteBefore(bytes, 3, 0x27014d02636261fffc00);
    ByteBefore(bytes, 2, 0x27014d02636261fffc0003);
    ByteBefore(bytes, 1, 0x27014d02636261fffc000301);
    ByteBefore(bytes, 0, 0x27014d02636261fffc00030101);
    assert bytes[0..] == bytes;
  }

  lemma StoredPieces(out: seq<Byte>)
    requires out == STORED_TEXT
    ensures Is(Whole(Stored(out), Raw(0), true, 16), 64, 0x636261fffc000301)
  {
    hide Is, BytesValue, BytePieces;
    NoBytes();
    assert Pow2(1) == 2 && Pow2(2) == 4 && Pow2(5) == 32;
    Pow2Values();
    assert out[3..] == [];
    ByteBefore(out, 2, 0x0);
    ByteBefore(out, 1, 0x63);
    ByteBefore(out, 0, 0x6362);
    assert out[0..] == out;
    BytesAre(out);
    var data := BytePieces(out);
    Before(65532, 16, 65536, data, 24, 0x636261);
    Before(3, 16, 65536, [Piece(65532, 16)] + data, 40, 0x636261fffc);
    assert SizeFields(3) + data == [Piece(3, 16)] + ([Piece(65532, 16)] + data);
    PaddingBefore(19, 5, 32, SizeFields(3) + data, 56, 0x636261fffc0003);
    var rest := Padding(19, 0) + (SizeFields(3) + data);
    assert Padding(19, 0) + SizeFields(3) + data == rest;
    Before(0, 2, 4, rest, 61, 0xc6c4c3fff800060);
    Before(1, 1, 2, [Piece(0, 2)] + rest, 63, 0x31b130fffe000180);
    assert [Piece(1, 1), Piece(0, 2)] + rest == [Piece(1, 1)] + ([Piece(0, 2)] + rest);
  }

  /** Three bytes, stored. */
  lemma StoredStream()
    ensures Encodes(STORED_STREAM, STORED_TEXT)
  {
    hide Is, BytesValue, Frame, Whole, SumOf, ChecksumBytes, Inflate, Pow2, Encodes;
    var bytes, out := STORED_STREAM, STORED_TEXT;
    StoredSum(out);
    StoredBytes(bytes);
    CheckValue(0x024d0127);
    TwoBytes([0x78, 0x01]);
    StoredPieces(out);
    OneStored(out);
    Pow2OfSixtyFour();
    FrameIs(0x01, Stored(out), Raw(0), SumOf(out), 64, 0x636261fffc000301, 0x1_0000_0000_0000_0000, 0, 1, 0x27014d02, 0x27014d02636261fffc000301);
    StreamOfOne(bytes, 0x01, Stored(out), Raw(0), out);
  }

  lemma OneStored(out: seq<Byte>)
    ensures Inflate([Stored(out)]) == Bytes(out)
  {
    assert [Stored(out)][..0] == [];
    assert [] + out == out;
  }

  lemma Pow2OfSixtyFour()
    ensures Pow2(64) == 0x1_0000_0000_0000_0000 && Pow2(0) == 1
  {
    Pow2Values();
    Pow2Add(32, 32);
  }

  // ---------------------------------------------------------------- blocks with codes

  /** The tokens can be sent with these codes, as `n` bits. */
  ghost predicate Sent(lit: Sizes, dist: Sizes, tokens: seq<Token>, n: nat, v: nat) {
    AllCodable(lit, dist, tokens) && Is(BlockPieces(lit, dist, tokens), n, v)
  }

  lemma EndOfTokens(lit: Sizes, dist: Sizes, code: nat, size: nat)
    requires Used(lit, END_OF_BLOCK) && CodePiece(lit, END_OF_BLOCK) == Piece(code, size)
    ensures Sent(lit, dist, [], size, code)
  {
    hide CodePiece;
    PackedOne(Piece(code, size));
  }

  lemma TokenBefore(lit: Sizes, dist: Sizes, t: Token, rest: seq<Token>)
    requires AllCodable(lit, dist, rest) && Codable(lit, dist, t)
    ensures AllCodable(lit, dist, [t] + rest)
    ensures BlockPieces(lit, dist, [t] + rest) == TokenPieces(lit, dist, t) + BlockPieces(lit, dist, rest)
  {
    hide TokenPieces, Codable;
    assert ([t] + rest)[1..] == rest;
  }

  lemma LiteralBefore(lit: Sizes, dist: Sizes, b: Byte, rest: seq<Token>, code: nat, size: nat, pow: nat, n: nat, v: nat, r: nat)
    requires Sent(lit, dist, rest, n, v)
    requires Used(lit, b) && CodePiece(lit, b) == Piece(code, size) && pow == Pow2(size) && r == code + v * pow
    ensures Sent(lit, dist, [Literal(b)] + rest, size + n, r)
  {
    hide Is, CodePiece, AllCodable, BlockPieces, Pow2, Used;
    TokenBefore(lit, dist, Literal(b), rest);
    PieceFits(lit, b);
    Before(code, size, pow, BlockPieces(lit, dist, rest), n, v);
  }

  lemma PieceFits(sizes: Sizes, s: nat)
    requires Used(sizes, s)
    ensures CodePiece(sizes, s).width <= 16 && CodePiece(sizes, s).bits < Pow2(CodePiece(sizes, s).width)
  {
  }

  /** A match of four pieces. */
  lemma MatchBefore(lit: Sizes, dist: Sizes, t: Token, a: Piece, b: Piece, c: Piece, d: Piece, rest: seq<Token>, n: nat, v: nat,
                    vd: nat, vc: nat, vb: nat, va: nat)
    requires Sent(lit, dist, rest, n, v) && Codable(lit, dist, t) && TokenPieces(lit, dist, t) == [a, b, c, d]
    requires Fits(a) && Fits(b) && Fits(c) && Fits(d)
    requires vd == d.bits + v * Pow2(d.width) && vc == c.bits + vd * Pow2(c.width)
    requires vb == b.bits + vc * Pow2(b.width) && va == a.bits + vb * Pow2(a.width)
    ensures Sent(lit, dist, [t] + rest, a.width + (b.width + (c.width + (d.width + n))), va)
  {
    hide Is, TokenPieces, AllCodable, Codable, BlockPieces, Pow2;
    TokenBefore(lit, dist, t, rest);
    var ps := BlockPieces(lit, dist, rest);
    Before(d.bits, d.width, Pow2(d.width), ps, n, v);
    Before(c.bits, c.width, Pow2(c.width), [d] + ps, d.width + n, vd);
    Before(b.bits, b.width, Pow2(b.width), [c] + ([d] + ps), c.width + (d.width + n), vc);
    Before(a.bits, a.width, Pow2(a.width), [b] + ([c] + ([d] + ps)), b.width + (c.width + (d.width + n)), vb);
    assert [a, b, c, d] + ps == [a] + ([b] + ([c] + ([d] + ps)));
  }

  /** What one token adds to the output. */
  lemma Step(t: Token, rest: seq<Token>, out: seq<Byte>)
    requires (t.Match? ==> LegalMatch(t.len, t.dist, |out|)) && Legal(rest, |out| + Width(t))
    ensures Legal([t] + rest, |out|) && Expand([t] + rest, out) == Expand(rest, Produce(t, out))
  {
    hide Produce;
    assert ([t] + rest)[1..] == rest;
  }

  lemma NoTokens(out: seq<Byte>)
    ensures Legal([], |out|) && Expand([], out) == out
  {
  }

  lemma OneCoded(tokens: seq<Token>, out: seq<Byte>)
    requires Legal(tokens, 0) && Expand(tokens, []) == out
    ensures Inflate([Coded(tokens)]) == Bytes(out)
  {
    assert [Coded(tokens)][..0] == [];
  }

  /** The powers of two up to 2 to the 8. */
  lemma SmallPowers()
    ensures Pow2(0) == 1 && Pow2(1) == 2 && Pow2(2) == 4 && Pow2(3) == 8 && Pow2(4) == 16 && Pow2(5) == 32 && Pow2(6) == 64
    ensures Pow2(7) == 128 && Pow2(8) == 256
  {
    Powers();
  }

  // ---------------------------------------------------------------- a block with the fixed codes

  const FIXED_STREAM: seq<Byte> := [0x78, 0x9c, 0x4b, 0x84, 0x03, 0x00, 0x14, 0xe1, 0x03, 0xcb]
  const FIXED_TEXT: seq<Byte> := [0x61, 0x61, 0x61, 0x61, 0x61, 0x61, 0x61, 0x61, 0x61, 0x61]

  lemma FixedSum(out: seq<Byte>)
    requires out == FIXED_TEXT
    ensures SumOf(out) == 0x14e103cb < A.WORD
  {
    hide A.Adler;
    A.AdlerOfNothing();
    assert out[..0] == [];
    SumOneMore(out, 0, A.Sums(1, 0));
    SumOneMore(out, 1, A.Sums(98, 98));
    SumOneMore(out, 2, A.Sums(195, 293));
    SumOneMore(out, 3, A.Sums(292, 585));
    SumOneMore(out, 4, A.Sums(389, 974));
    SumOneMore(out, 5, A.Sums(486, 1460));
    SumOneMore(out, 6, A.Sums(583, 2043));
    SumOneMore(out, 7, A.Sums(680, 2723));
    SumOneMore(out, 8, A.Sums(777, 3500));
    SumOneMore(out, 9, A.Sums(874, 4374));
    assert out[..10] == out;
  }

  lemma FixedBytes(bytes: seq<Byte>)
    requires bytes == FIXED_STREAM
    ensures BytesValue(bytes) == 0xcb03e1140003844b9c78
  {
    hide BytesValue;
    NoBytes();
    assert bytes[10..] == [];
    ByteBefore(bytes, 9, 0x0);
    ByteBefore(bytes, 8, 0xcb);
    ByteBefore(bytes, 7, 0xcb03);
    ByteBefore(bytes, 6, 0xcb03e1);
    ByteBefore(bytes, 5, 0xcb03e114);
    ByteBefore(bytes, 4, 0xcb03e11400);
    ByteBefore(bytes, 3, 0xcb03e1140003);
    ByteBefore(bytes, 2, 0xcb03e114000384);
    ByteBefore(bytes, 1, 0xcb03e1140003844b);
    ByteBefore(bytes, 0, 0xcb03e1140003844b9c);
    assert bytes[0..] == bytes;
  }

  lemma FixedCodePieces()
    ensures CodePiece(StaticLit(), 97) == Piece(137, 8) && CodePiece(StaticLit(), 263) == Piece(112, 7)
    ensures CodePiece(StaticLit(), END_OF_BLOCK) == Piece(0, 7) && CodePiece(StaticDist(), 0) == Piece(0, 5)
    ensures Used(StaticLit(), 97) && Used(StaticLit(), 263) && Used(StaticLit(), END_OF_BLOCK) && Used(StaticDist(), 0)
  {
    hide Code, StaticLit, StaticDist, Reverse;
    FixedCodes(97);
    FixedCodes(263);
    FixedCodes(256);
    FixedCodes(0);
    FixedReverses();
  }

  lemma FixedReverses()
    ensures Reverse(0x91, 8) == 137 && Reverse(7, 7) == 112 && Reverse(0, 7) == 0 && Reverse(0, 5) == 0
  {
    SmallPowers();
  }

  lemma NineFromOneBack()
    ensures Codable(StaticLit(), StaticDist(), Match(9, 1))
    ensures TokenPieces(StaticLit(), StaticDist(), Match(9, 1)) == [Piece(112, 7), Piece(0, 0), Piece(0, 5), Piece(0, 0)]
  {
    hide CodePiece, StaticLit, StaticDist;
    FixedCodePieces();
    SmallPowers();
    assert LenSym(6) == 263 && LenExtra(6) == 0 && DistSym(0) == 0 && DistExtra(0) == 0;
  }

  lemma FixedPieces(tokens: seq<Token>)
    requires tokens == [Literal(97), Match(9, 1)]
    ensures Sent(StaticLit(), StaticDist(), tokens, 27, 28809)
  {
    hide Sent, CodePiece, StaticLit, StaticDist, TokenPieces, Codable;
    var l, d := StaticLit(), StaticDist();
    FixedCodePieces();
    NineFromOneBack();
    SmallPowers();
    EndOfTokens(l, d, 0, 7);
    MatchBefore(l, d, Match(9, 1), Piece(112, 7), Piece(0, 0), Piece(0, 5), Piece(0, 0), [], 7, 0, 0, 0, 0, 112);
    LiteralBefore(l, d, 97, [Match(9, 1)] + [], 137, 8, 256, 19, 112, 28809);
    assert tokens == [Literal(97)] + ([Match(9, 1)] + []);
  }

  lemma FixedWhole(tokens: seq<Token>)
    requires Sent(StaticLit(), StaticDist(), tokens, 27, 28809)
    ensures AllCodable(StaticLit(), StaticDist(), tokens) && Is(Whole(Coded(tokens), Fixed, true, 16), 30, 0x3844b)
  {
    hide Is, BlockPieces, AllCodable, StaticLit, StaticDist;
    SmallPowers();
    var body := BlockPieces(StaticLit(), StaticDist(), tokens);
    Before(1, 2, 4, body, 27, 28809);
    Before(1, 1, 2, [Piece(1, 2)] + body, 29, 115237);
    assert [Piece(1, 1), Piece(1, 2)] + body == [Piece(1, 1)] + ([Piece(1, 2)] + body);
  }

  lemma TenTimes(tokens: seq<Token>, out: seq<Byte>)
    requires tokens == [Literal(97), Match(9, 1)] && out == FIXED_TEXT
    ensures Inflate([Coded(tokens)]) == Bytes(out)
  {
    hide Expand, Legal, CopyBack, Inflate;
    NoTokens(out);
    assert out[..1] == [97] && [] + [97] == out[..1] && out[..10] == out;
    CopyOfMatch(out, 1, 9, 1);
    Step(Match(9, 1), [], out[..1]);
    Step(Literal(97), [Match(9, 1)] + [], []);
    assert tokens == [Literal(97)] + ([Match(9, 1)] + []);
    OneCoded(tokens, out);
  }

  /** Ten times the same letter. */
  lemma FixedStream()
    ensures Encodes(FIXED_STREAM, FIXED_TEXT)
  {
    hide Is, BytesValue, Frame, Whole, SumOf, ChecksumBytes, Inflate, Pow2, Encodes, AllCodable, Sent, StaticLit, StaticDist;
    var bytes, out := FIXED_STREAM, FIXED_TEXT;
    var tokens := [Literal(97), Match(9, 1)];
    FixedSum(out);
    FixedBytes(bytes);
    CheckValue(0x14e103cb);
    TwoBytes([0x78, 0x9c]);
    FixedPieces(tokens);
    FixedWhole(tokens);
    TenTimes(tokens, out);
    Pow2OfThirty();
    FrameIs(0x9c, Coded(tokens), Fixed, SumOf(out), 30, 0x3844b, 0x40000000, 2, 4, 0x32c0f8450, 0xcb03e1140003844b);
    StreamOfOne(bytes, 0x9c, Coded(tokens), Fixed, out);
  }

  lemma Pow2OfThirty()
    ensures Pow2(30) == 0x40000000 && Pow2(2) == 4
  {
    SmallPowers();
    Pow2Add(8, 7);
    Pow2Add(15, 15);
  }

  // ---------------------------------------------------------------- a block with its own codes

  /** Three bits for the letters from a to e and for the end, two for the lengths 11 and 12. */
  function LetterSizes(): (s: Sizes)
    ensures |s| == 266
  {
    seq(266, i => if 97 <= i <= 101 || i == 256 then 3 else if i == 265 then 2 else 0)
  }

  function NearSizes(): (s: Sizes)
    ensures |s| == 5
  {
    [1, 0, 0, 0, 1]
  }

  function PackingSizes(): (s: Sizes)
    ensures |s| == SIZE_SYMBOLS
  {
    [0, 3, 4, 2, 0, 0, 0, 0, 0, 0, 0, 0, 0, 0, 0, 0, 4, 2, 2]
  }

  lemma {:induction false} CountLetters(n: nat, len: nat)
    requires n <= 266 && len > 0
    ensures CountIn(LetterSizes(), n, len)
         == if len == 3 then (if n <= 97 then 0 else if n <= 102 then n - 97 else if n <= 256 then 5 else 6)
            else if len == 2 && n == 266 then 1 else 0
  {
    if n > 0 { CountLetters(n - 1, len); }
  }

  lemma {:induction false} CountNear(n: nat, len: nat)
    requires n <= 5 && len > 0
    ensures CountIn(NearSizes(), n, len) == if len != 1 || n == 0 then 0 else if n <= 4 then 1 else 2
  {
    if n > 0 { CountNear(n - 1, len); }
  }

  lemma {:induction false} CountPacking(n: nat, len: nat)
    requires n <= 19 && len > 0
    ensures CountIn(PackingSizes(), n, len)
         == if len == 2 then (if n <= 3 then 0 else if n <= 17 then 1 else n - 16)
            else if len == 3 then (if n <= 1 then 0 else 1)
            else if len == 4 then (if n <= 2 then 0 else if n <= 16 then 1 else 2)
            else 0
  {
    if n > 0 { CountPacking(n - 1, len); }
  }

  lemma LettersFull()
    ensures First(LetterSizes(), 2) == 0 && First(LetterSizes(), 3) == 2 && First(LetterSizes(), 16) == 65536
  {
    hide CountIn, LetterSizes;
    var s := LetterSizes();
    forall m: nat | m > 0 ensures Count(s, m) == if m == 3 then 6 else if m == 2 then 1 else 0 {
      CountLetters(266, m);
    }
    assert First(s, 1) == 0 && First(s, 2) == 0 && First(s, 3) == 2 && First(s, 4) == 16;
    FirstLater(s, 4, 16, 16);
    assert Pow2(12) == 4096;
  }

  lemma NearFull()
    ensures First(NearSizes(), 1) == 0 && First(NearSizes(), 16) == 65536
  {
    hide CountIn, NearSizes;
    var s := NearSizes();
    forall m: nat | m > 0 ensures Count(s, m) == if m == 1 then 2 else 0 {
      CountNear(5, m);
    }
    assert First(s, 1) == 0 && First(s, 2) == 4;
    FirstLater(s, 2, 16, 4);
    assert Pow2(14) == 16384;
  }

  lemma PackingFull()
    ensures First(PackingSizes(), 2) == 0 && First(PackingSizes(), 3) == 6 && First(PackingSizes(), 4) == 14 && First(PackingSizes(), 16) == 65536
  {
    hide CountIn, PackingSizes;
    var s := PackingSizes();
    forall m: nat | m > 0 ensures Count(s, m) == if m == 2 then 3 else if m == 3 then 1 else if m == 4 then 2 else 0 {
      CountPacking(19, m);
    }
    assert First(s, 1) == 0 && First(s, 2) == 0 && First(s, 3) == 6 && First(s, 4) == 14 && First(s, 5) == 32;
    FirstLater(s, 5, 16, 32);
    assert Pow2(11) == 2048;
  }

  /** A code of a few bits is turned round. */
  lemma ReverseTwo(c: nat)
    requires c < 4
    ensures Reverse(c, 2) == 2 * (c % 2) + c / 2 && (c < 2 ==> Reverse(c, 1) == c)
  {
    assert Pow2(1) == 2 && Pow2(0) == 1;
  }

  lemma ReverseOne(c: nat, n: nat)
    requires n > 0
    ensures Reverse(c, n) == (if c % 2 == 1 then Pow2(n - 1) else 0) + Reverse(c / 2, n - 1)
  {
  }

  lemma ReverseThree(c: nat)
    requires c < 8
    ensures Reverse(c, 3) == 4 * (c % 2) + 2 * (c / 2 % 2) + c / 4
  {
    hide Reverse;
    ReverseOne(c, 3);
    ReverseTwo(c / 2);
    assert Pow2(2) == 4;
  }

  lemma ReverseFour(c: nat)
    requires c < 16
    ensures Reverse(c, 4) == 8 * (c % 2) + Reverse(c / 2, 3)
  {
    hide Reverse;
    ReverseOne(c, 4);
    assert Pow2(3) == 8;
  }

  lemma LetterPieces()
    ensures forall b :: 97 <= b <= 101 ==> Used(LetterSizes(), b)
    ensures Used(LetterSizes(), 256) && Used(LetterSizes(), 265)
    ensures CodePiece(LetterSizes(), 97) == Piece(2, 3)
    ensures CodePiece(LetterSizes(), 98) == Piece(6, 3)
    ensures CodePiece(LetterSizes(), 99) == Piece(1, 3)
    ensures CodePiece(LetterSizes(), 100) == Piece(5, 3)
    ensures CodePiece(LetterSizes(), 101) == Piece(3, 3)
    ensures CodePiece(LetterSizes(), 256) == Piece(7, 3) && CodePiece(LetterSizes(), 265) == Piece(0, 2)
    ensures Used(NearSizes(), 4) && CodePiece(NearSizes(), 4) == Piece(1, 1)
  {
    hide CountIn, First, Reverse;
    LettersFull();
    NearFull();
    ReverseThree(2);
    ReverseThree(3);
    ReverseThree(4);
    ReverseThree(5);
    ReverseThree(6);
    ReverseThree(7);
    ReverseTwo(0);
    ReverseTwo(1);
    CountLetters(97, 3);
    CountLetters(98, 3);
    CountLetters(99, 3);
    CountLetters(100, 3);
    CountLetters(101, 3);
    CountLetters(256, 3);
    CountLetters(265, 2);
    CountNear(4, 1);
  }

  lemma LengthCodes()
    ensures Used(PackingSizes(), 1) && CodePiece(PackingSizes(), 1) == Piece(3, 3)
    ensures Used(PackingSizes(), 2) && CodePiece(PackingSizes(), 2) == Piece(7, 4)
    ensures Used(PackingSizes(), 3) && CodePiece(PackingSizes(), 3) == Piece(0, 2)
  {
    hide CountIn, First, Reverse;
    PackingFull();
    ReverseThree(6);
    ReverseFour(14);
    ReverseThree(7);
    ReverseTwo(0);
    CountPacking(1, 3);
    CountPacking(2, 4);
    CountPacking(3, 2);
  }

  lemma RunCodes()
    ensures Used(PackingSizes(), 16) && CodePiece(PackingSizes(), 16) == Piece(15, 4)
    ensures Used(PackingSizes(), 17) && CodePiece(PackingSizes(), 17) == Piece(2, 2)
    ensures Used(PackingSizes(), 18) && CodePiece(PackingSizes(), 18) == Piece(1, 2)
  {
    hide CountIn, First, Reverse;
    PackingFull();
    ReverseFour(15);
    ReverseThree(7);
    ReverseTwo(1);
    ReverseTwo(2);
    CountPacking(16, 4);
    CountPacking(17, 2);
    CountPacking(18, 2);
  }

  const PACKED: seq<nat> := [18, 86, 3, 16, 1, 18, 127, 18, 5, 3, 17, 5, 2, 1, 17, 0, 1]

  /** What the packed vector stands for: the lengths of both codes. */
  lemma LastLengths(all: seq<nat>)
    requires all == LetterSizes() + NearSizes()
    ensures Behind(PackingSizes(), [3, 17, 5, 2, 1, 17, 0, 1], all, 256, 22, 0x189bd8)
  {
    hide Behind, CodePiece, PackingSizes, LetterSizes, Used;
    var t := PackingSizes();
    LengthCodes();
    RunCodes();
    SmallPowers();
    LettersBehind(all);
    NothingBehind(t, all);
    LengthBefore(t, 1, [], all, 270, 3, 3, 8, 0, 0x0, 0x3);
    var p10 := [1] + [];
    RunBefore(t, 17, 0, p10, all, 267, 2, 2, 4, 8, 3, 0x3, 0x18, 0x62);
    var p9 := [17, 0] + p10;
    LengthBefore(t, 1, p9, all, 266, 3, 3, 8, 8, 0x62, 0x313);
    var p8 := [1] + p9;
    LengthBefore(t, 2, p8, all, 265, 7, 4, 16, 11, 0x313, 0x3137);
    var p7 := [2] + p8;
    RunBefore(t, 17, 5, p7, all, 257, 2, 2, 4, 8, 15, 0x3137, 0x189bd, 0x626f6);
    var p6 := [17, 5] + p7;
    LengthBefore(t, 3, p6, all, 256, 0, 2, 4, 20, 0x626f6, 0x189bd8);
    var p5 := [3] + p6;
    assert p5 == [3, 17, 5, 2, 1, 17, 0, 1];
  }

  lemma PackedLengths(all: seq<nat>)
    requires all == LetterSizes() + NearSizes()
    ensures Behind(PackingSizes(), PACKED, all, 0, 57, 0xc4dec057faf959)
  {
    hide Behind, CodePiece, PackingSizes, LetterSizes, Used;
    var t := PackingSizes();
    LengthCodes();
    RunCodes();
    SmallPowers();
    LettersBehind(all);
    LastLengths(all);
    var p5 := [3, 17, 5, 2, 1, 17, 0, 1];
    RunBefore(t, 18, 5, p5, all, 240, 1, 2, 4, 128, 22, 0x189bd8, 0xc4dec05, 0x3137b015);
    var p4 := [18, 5] + p5;
    RunBefore(t, 18, 127, p4, all, 102, 1, 2, 4, 128, 31, 0x3137b015, 0x189bd80aff, 0x626f602bfd);
    var p3 := [18, 127] + p4;
    RunBefore(t, 16, 1, p3, all, 98, 15, 4, 16, 4, 40, 0x626f602bfd, 0x189bd80aff5, 0x189bd80aff5f);
    var p2 := [16, 1] + p3;
    LengthBefore(t, 3, p2, all, 97, 0, 2, 4, 46, 0x189bd80aff5f, 0x626f602bfd7c);
    var p1 := [3] + p2;
    RunBefore(t, 18, 86, p1, all, 0, 1, 2, 4, 128, 48, 0x626f602bfd7c, 0x3137b015febe56, 0xc4dec057faf959);
    var p0 := [18, 86] + p1;
    assert PACKED == p0;
  }

  /** The packed vector stands for what is behind the first `k` lengths, and is `n` bits. */
  ghost predicate Behind(third: Sizes, packed: seq<nat>, all: seq<nat>, k: nat, n: nat, v: nat) {
    && P.Encodable(packed) && AllPacked(third, packed) && Is(PackedPieces(third, packed), n, v)
    && k <= |all| && P.Expand(packed, all[..k]) == P.Lengths(all)
  }

  lemma NothingBehind(third: Sizes, all: seq<nat>)
    ensures Behind(third, [], all, |all|, 0, 0)
  {
    Nothing();
    assert all[..|all|] == all;
  }

  lemma LettersBehind(all: seq<nat>)
    requires all == LetterSizes() + NearSizes()
    ensures |all| == 271
    ensures forall i :: 0 <= i < 271 ==>
              all[i] == if 97 <= i <= 101 || i == 256 then 3 else if i == 265 then 2 else if i == 266 || i == 270 then 1 else 0
  {
  }

  lemma LengthBefore(third: Sizes, s: nat, more: seq<nat>, all: seq<nat>, k: nat, code: nat, size: nat, pow: nat, n: nat, v: nat, r: nat)
    requires s < 16 && Used(third, s) && Behind(third, more, all, k + 1, n, v) && all[k] == s
    requires CodePiece(third, s) == Piece(code, size) && pow == Pow2(size) && r == code + v * pow
    ensures Behind(third, [s] + more, all, k, size + n, r)
  {
    hide Is, CodePiece, AllPacked, PackedPieces, Pow2, Used, P.Encodable, P.Expand;
    PackedLength(third, s, more, all[..k]);
    assert all[..k] + [s] == all[..k + 1];
    PieceFits(third, s);
    Before(code, size, pow, PackedPieces(third, more), n, v);
  }

  lemma RunBefore(third: Sizes, s: nat, e: nat, more: seq<nat>, all: seq<nat>, k: nat, code: nat, size: nat, pow: nat, times: nat, n: nat, v: nat,
                  run: nat, r: nat)
    requires 16 <= s <= 18 && e < P.ExtraLimit(s) && Used(third, s) && Behind(third, more, all, k + (e + P.Base(s)), n, v)
    requires (s == 16 ==> k > 0) && forall i :: k <= i < k + (e + P.Base(s)) ==> all[i] == if s == 16 then all[k - 1] else 0
    requires CodePiece(third, s) == Piece(code, size) && pow == Pow2(size) && times == Pow2(ExtraBits(s))
    requires run == e + v * times && r == code + run * pow
    ensures Behind(third, [s, e] + more, all, k, size + (ExtraBits(s) + n), r)
  {
    hide Is, CodePiece, AllPacked, PackedPieces, Pow2, Used, P.Encodable, P.Expand, P.Base, P.ExtraLimit, ExtraBits;
    PackedRun(third, s, e, more, all[..k]);
    assert all[..k] + P.RunOf(s, e, all[..k]) == all[..k + (e + P.Base(s))];
    PieceFits(third, s);
    RunFits(s, e);
    Before(e, ExtraBits(s), times, PackedPieces(third, more), n, v);
    Before(code, size, pow, [Piece(e, ExtraBits(s))] + PackedPieces(third, more), ExtraBits(s) + n, run);
  }

  lemma FieldBefore(third: ThirdSizes, sent: nat, i: nat, n: nat, v: nat, r: nat)
    requires i < sent <= SIZE_SYMBOLS && Is(SizePieces(third, sent)[i + 1..], n, v) && r == third[SymbolOfField(i)] + 8 * v
    ensures Is(SizePieces(third, sent)[i..], 3 + n, r)
  {
    hide Is, SizePieces;
    SmallPowers();
    FieldIs(i);
    PieceFrom(third, sent, i);
    Before(third[SymbolOfField(i)], 3, 8, SizePieces(third, sent)[i + 1..], n, v);
  }

  lemma LastFields()
    ensures Is(SizePieces(PackingSizes(), 18)[9..], 27, 0x3102000)
  {
    hide Is, SizePieces;
    var t := PackingSizes();
    Nothing();
    assert SizePieces(t, 18)[18..] == [];
    FieldBefore(t, 18, 17, 0, 0x0, 0x3);
    FieldBefore(t, 18, 16, 3, 0x3, 0x18);
    FieldBefore(t, 18, 15, 6, 0x18, 0xc4);
    FieldBefore(t, 18, 14, 9, 0xc4, 0x620);
    FieldBefore(t, 18, 13, 12, 0x620, 0x3102);
    FieldBefore(t, 18, 12, 15, 0x3102, 0x18810);
    FieldBefore(t, 18, 11, 18, 0x18810, 0xc4080);
    FieldBefore(t, 18, 10, 21, 0xc4080, 0x620400);
    FieldBefore(t, 18, 9, 24, 0x620400, 0x3102000);
  }

  lemma PackingFields()
    ensures Is(SizePieces(PackingSizes(), 18), 54, 0x18810000000094)
  {
    hide Is, SizePieces;
    var t := PackingSizes();
    LastFields();
    FieldBefore(t, 18, 8, 27, 0x3102000, 0x18810000);
    FieldBefore(t, 18, 7, 30, 0x18810000, 0xc4080000);
    FieldBefore(t, 18, 6, 33, 0xc4080000, 0x620400000);
    FieldBefore(t, 18, 5, 36, 0x620400000, 0x3102000000);
    FieldBefore(t, 18, 4, 39, 0x3102000000, 0x18810000000);
    FieldBefore(t, 18, 3, 42, 0x18810000000, 0xc4080000000);
    FieldBefore(t, 18, 2, 45, 0xc4080000000, 0x620400000002);
    FieldBefore(t, 18, 1, 48, 0x620400000002, 0x3102000000012);
    FieldBefore(t, 18, 0, 51, 0x3102000000012, 0x18810000000094);
    assert SizePieces(t, 18)[0..] == SizePieces(t, 18);
  }

  function LetterHeader(): Header {
    Header(LetterSizes(), NearSizes(), PackingSizes(), 18, PACKED)
  }

  lemma LetterHeaderIsGood()
    ensures Good(LetterHeader())
  {
    hide First, UsedBelow, P.Expand, P.Encodable, AllPacked, Is, LetterSizes, PackedPieces;
    LettersFull();
    NearFull();
    PackingFull();
    PackedLengths(LetterSizes() + NearSizes());
    assert (LetterSizes() + NearSizes())[..0] == [];
  }

  lemma LetterHeaderPieces()
    requires Good(LetterHeader())
    ensures Is(HeaderPieces(LetterHeader()), 125, 0xc4dec057faf95962040000000253889)
  {
    hide Is, SizePieces, PackedPieces, HeaderPieces, Good, PackingSizes, LetterSizes;
    var h := LetterHeader();
    HeaderSplit(h);
    SmallPowers();
    PackingFields();
    PackedIs();
    LargePowers();
    var fields, packed := SizePieces(h.third, h.sent), PackedPieces(h.third, h.packed);
    Join(fields, 54, 0x18810000000094, 0x40000000000000, packed, 57, 0xc4dec057faf959);
    Before(14, 4, 16, fields + packed, 111, 0x3137b015febe5658810000000094);
    Before(4, 5, 32, [Piece(14, 4)] + (fields + packed), 115, 0x3137b015febe5658810000000094e);
    Before(9, 5, 32, [Piece(4, 5)] + ([Piece(14, 4)] + (fields + packed)), 120, 0x626f602bfd7cacb1020000000129c4);
  }

  lemma PackedIs()
    ensures P.Encodable(PACKED) && AllPacked(PackingSizes(), PACKED) && Is(PackedPieces(PackingSizes(), PACKED), 57, 0xc4dec057faf959)
  {
    hide P.Encodable, AllPacked, PackingSizes, Is, PackedPieces;
    PackedLengths(LetterSizes() + NearSizes());
  }

  lemma TwelveFromSixBack()
    ensures Codable(LetterSizes(), NearSizes(), Match(12, 6))
    ensures TokenPieces(LetterSizes(), NearSizes(), Match(12, 6)) == [Piece(0, 2), Piece(1, 1), Piece(1, 1), Piece(1, 1)]
  {
    hide CodePiece, LetterSizes;
    LetterPieces();
    SmallPowers();
    assert LenSym(9) == 265 && LenExtra(9) == 1 && DistSym(5) == 4 && DistExtra(5) == 1;
  }

  function Letters(): seq<Token> {
    [Literal(97)] + ([Literal(98)] + ([Literal(99)] + ([Literal(100)] + ([Literal(101)] + ([Literal(97)] + ([Match(12, 6)] + []))))))
  }

  lemma LettersSent()
    ensures Sent(LetterSizes(), NearSizes(), Letters(), 26, 0x3f13a72)
  {
    hide Sent, CodePiece, LetterSizes, TokenPieces, Codable;
    var l, d := LetterSizes(), NearSizes();
    LetterPieces();
    TwelveFromSixBack();
    SmallPowers();
    EndOfTokens(l, d, 7, 3);
    MatchBefore(l, d, Match(12, 6), Piece(0, 2), Piece(1, 1), Piece(1, 1), Piece(1, 1), [], 3, 7, 15, 31, 63, 252);
    var t6 := [Match(12, 6)] + [];
    LiteralBefore(l, d, 97, t6, 2, 3, 8, 8, 0xfc, 0x7e2);
    var t4 := [Literal(97)] + t6;
    LiteralBefore(l, d, 101, t4, 3, 3, 8, 11, 0x7e2, 0x3f13);
    var t3 := [Literal(101)] + t4;
    LiteralBefore(l, d, 100, t3, 5, 3, 8, 14, 0x3f13, 0x1f89d);
    var t2 := [Literal(100)] + t3;
    LiteralBefore(l, d, 99, t2, 1, 3, 8, 17, 0x1f89d, 0xfc4e9);
    var t1 := [Literal(99)] + t2;
    LiteralBefore(l, d, 98, t1, 6, 3, 8, 20, 0xfc4e9, 0x7e274e);
    var t0 := [Literal(98)] + t1;
    LiteralBefore(l, d, 97, t0, 2, 3, 8, 23, 0x7e274e, 0x3f13a72);
  }

  lemma LettersWhole()
    requires Good(LetterHeader()) && Sent(LetterSizes(), NearSizes(), Letters(), 26, 0x3f13a72)
    ensures Suits(Coded(Letters()), Own(LetterHeader()))
    ensures Is(Whole(Coded(Letters()), Own(LetterHeader()), true, 16), 154, 0x3f13a72626f602bfd7cacb1020000000129c44d)
  {
    hide Is, BlockPieces, AllCodable, LetterSizes, PackingSizes, Letters, HeaderPieces, Good;
    SmallPowers();
    LargePowers();
    LetterHeaderPieces();
    var head, body := HeaderPieces(LetterHeader()), BlockPieces(LetterSizes(), NearSizes(), Letters());
    Join(head, 125, 0xc4dec057faf95962040000000253889, 0x20000000000000000000000000000000, body, 26, 0x3f13a72);
    Before(2, 2, 4, head + body, 151, 0x7e274e4c4dec057faf95962040000000253889);
    Before(1, 1, 2, [Piece(2, 2)] + (head + body), 153, 0x1f89d393137b015febe5658810000000094e226);
    assert [Piece(1, 1), Piece(2, 2)] + (head + body) == [Piece(1, 1)] + ([Piece(2, 2)] + (head + body));
  }

  lemma LargePowers()
    ensures Pow2(54) == 0x40000000000000 && Pow2(125) == 0x20000000000000000000000000000000 && Pow2(154) == 0x400000000000000000000000000000000000000
  {
    hide Pow2;
    Pow2Values();
    SmallPowers();
    Pow2Add(32, 16);
    Pow2Add(48, 6);
    Pow2Add(32, 32);
    Pow2Add(64, 32);
    Pow2Add(8, 5);
    Pow2Add(16, 13);
    Pow2Add(16, 10);
    Pow2Add(32, 26);
    Pow2Add(96, 29);
    Pow2Add(96, 58);
  }

  const OWN_STREAM: seq<Byte> :=
    [0x78, 0x9c, 0x4d, 0xc4, 0x29, 0x01, 0x00, 0x00, 0x00, 0x02, 0xb1, 0xac, 0x7c,
     0xfd, 0x2b, 0x60, 0x6f, 0x62, 0x72, 0x3a, 0xf1, 0x03, 0x41, 0xeb, 0x06, 0xf1]
  const OWN_TEXT: seq<Byte> := [0x61, 0x62, 0x63, 0x64, 0x65, 0x61, 0x61, 0x62, 0x63, 0x64, 0x65, 0x61, 0x61, 0x62, 0x63, 0x64, 0x65, 0x61]

  lemma OwnSum(out: seq<Byte>)
    requires out == OWN_TEXT
    ensures SumOf(out) == 0x41eb06f1 < A.WORD
  {
    hide A.Adler;
    A.AdlerOfNothing();
    assert out[..0] == [];
    SumOneMore(out, 0, A.Sums(1, 0));
    SumOneMore(out, 1, A.Sums(98, 98));
    SumOneMore(out, 2, A.Sums(196, 294));
    SumOneMore(out, 3, A.Sums(295, 589));
    SumOneMore(out, 4, A.Sums(395, 984));
    SumOneMore(out, 5, A.Sums(496, 1480));
    SumOneMore(out, 6, A.Sums(593, 2073));
    SumOneMore(out, 7, A.Sums(690, 2763));
    SumOneMore(out, 8, A.Sums(788, 3551));
    SumOneMore(out, 9, A.Sums(887, 4438));
    SumOneMore(out, 10, A.Sums(987, 5425));
    SumOneMore(out, 11, A.Sums(1088, 6513));
    SumOneMore(out, 12, A.Sums(1185, 7698));
    SumOneMore(out, 13, A.Sums(1282, 8980));
    SumOneMore(out, 14, A.Sums(1380, 10360));
    SumOneMore(out, 15, A.Sums(1479, 11839));
    SumOneMore(out, 16, A.Sums(1579, 13418));
    SumOneMore(out, 17, A.Sums(1680, 15098));
    assert out[..18] == out;
  }

  lemma OwnBytesFrom20(bytes: seq<Byte>)
    requires bytes == OWN_STREAM
    ensures BytesValue(bytes[20..]) == 0xf106eb4103f1
  {
    hide BytesValue;
    NoBytes();
    assert bytes[26..] == [];
    ByteBefore(bytes, 25, 0x0);
    ByteBefore(bytes, 24, 0xf1);
    ByteBefore(bytes, 23, 0xf106);
    ByteBefore(bytes, 22, 0xf106eb);
    ByteBefore(bytes, 21, 0xf106eb41);
    ByteBefore(bytes, 20, 0xf106eb4103);
  }

  lemma OwnBytesFrom15(bytes: seq<Byte>)
    requires bytes == OWN_STREAM
    ensures BytesValue(bytes[15..]) == 0xf106eb4103f13a72626f60
  {
    hide BytesValue;
    OwnBytesFrom20(bytes);
    ByteBefore(bytes, 19, 0xf106eb4103f1);
    ByteBefore(bytes, 18, 0xf106eb4103f13a);
    ByteBefore(bytes, 17, 0xf106eb4103f13a72);
    ByteBefore(bytes, 16, 0xf106eb4103f13a7262);
    ByteBefore(bytes, 15, 0xf106eb4103f13a72626f);
  }

  lemma OwnBytesFrom10(bytes: seq<Byte>)
    requires bytes == OWN_STREAM
    ensures BytesValue(bytes[10..]) == 0xf106eb4103f13a72626f602bfd7cacb1
  {
    hide BytesValue;
    OwnBytesFrom15(bytes);
    ByteBefore(bytes, 14, 0xf106eb4103f13a72626f60);
    ByteBefore(bytes, 13, 0xf106eb4103f13a72626f602b);
    ByteBefore(bytes, 12, 0xf106eb4103f13a72626f602bfd);
    ByteBefore(bytes, 11, 0xf106eb4103f13a72626f602bfd7c);
    ByteBefore(bytes, 10, 0xf106eb4103f13a72626f602bfd7cac);
  }

  lemma OwnBytesFrom5(bytes: seq<Byte>)
    requires bytes == OWN_STREAM
    ensures BytesValue(bytes[5..]) == 0xf106eb4103f13a72626f602bfd7cacb10200000001
  {
    hide BytesValue;
    OwnBytesFrom10(bytes);
    ByteBefore(bytes, 9, 0xf106eb4103f13a72626f602bfd7cacb1);
    ByteBefore(bytes, 8, 0xf106eb4103f13a72626f602bfd7cacb102);
    ByteBefore(bytes, 7, 0xf106eb4103f13a72626f602bfd7cacb10200);
    ByteBefore(bytes, 6, 0xf106eb4103f13a72626f602bfd7cacb1020000);
    ByteBefore(bytes, 5, 0xf106eb4103f13a72626f602bfd7cacb102000000);
  }

  lemma OwnBytesFrom0(bytes: seq<Byte>)
    requires bytes == OWN_STREAM
    ensures BytesValue(bytes[0..]) == 0xf106eb4103f13a72626f602bfd7cacb1020000000129c44d9c78
  {
    hide BytesValue;
    OwnBytesFrom5(bytes);
    ByteBefore(bytes, 4, 0xf106eb4103f13a72626f602bfd7cacb10200000001);
    ByteBefore(bytes, 3, 0xf106eb4103f13a72626f602bfd7cacb1020000000129);
    ByteBefore(bytes, 2, 0xf106eb4103f13a72626f602bfd7cacb1020000000129c4);
    ByteBefore(bytes, 1, 0xf106eb4103f13a72626f602bfd7cacb1020000000129c44d);
    ByteBefore(bytes, 0, 0xf106eb4103f13a72626f602bfd7cacb1020000000129c44d9c);
  }

  lemma OwnBytes(bytes: seq<Byte>)
    requires bytes == OWN_STREAM
    ensures BytesValue(bytes) == 0xf106eb4103f13a72626f602bfd7cacb1020000000129c44d9c78
  {
    hide BytesValue;
    OwnBytesFrom0(bytes);
    assert bytes[0..] == bytes;
  }

  lemma ThreeTimes(out: seq<Byte>)
    requires out == OWN_TEXT
    ensures Inflate([Coded(Letters())]) == Bytes(out)
  {
    hide Expand, Legal, CopyBack, Inflate;
    NoTokens(out);
    assert out[..18] == out && out[..6] == [97, 98, 99, 100, 101, 97];
    CopyOfMatch(out, 6, 12, 6);
    var t6 := [Match(12, 6)] + [];
    Step(Match(12, 6), [], out[..6]);
    Step(Literal(97), t6, [97, 98, 99, 100, 101]);
    assert [97, 98, 99, 100, 101] + [97] == [97, 98, 99, 100, 101, 97];
    var t5 := [Literal(97)] + t6;
    Step(Literal(101), t5, [97, 98, 99, 100]);
    assert [97, 98, 99, 100] + [101] == [97, 98, 99, 100, 101];
    var t4 := [Literal(101)] + t5;
    Step(Literal(100), t4, [97, 98, 99]);
    assert [97, 98, 99] + [100] == [97, 98, 99, 100];
    var t3 := [Literal(100)] + t4;
    Step(Literal(99), t3, [97, 98]);
    assert [97, 98] + [99] == [97, 98, 99];
    var t2 := [Literal(99)] + t3;
    Step(Literal(98), t2, [97]);
    assert [97] + [98] == [97, 98];
    var t1 := [Literal(98)] + t2;
    Step(Literal(97), t1, []);
    assert [] + [97] == [97];
    OneCoded(Letters(), out);
  }

  /** Three times six letters, with a code of its own for them. */
  lemma OwnStream()
    ensures Encodes(OWN_STREAM, OWN_TEXT)
  {
    hide Is, BytesValue, Frame, Whole, SumOf, ChecksumBytes, Inflate, Pow2, Encodes, Good, AllCodable, Sent, LetterHeader,
         Letters, LetterSizes, Suits;
    var bytes, out := OWN_STREAM, OWN_TEXT;
    OwnSum(out);
    OwnBytes(bytes);
    CheckValue(0x41eb06f1);
    TwoBytes([0x78, 0x9c]);
    LetterHeaderIsGood();
    LettersSent();
    LettersWhole();
    ThreeTimes(out);
    LargePowers();
    SmallPowers();
    FrameIs(0x9c, Coded(Letters()), Own(LetterHeader()), SumOf(out), 154, 0x3f13a72626f602bfd7cacb1020000000129c44d, 0x400000000000000000000000000000000000000,
            6, 64, 0x3c41bad040, 0xf106eb4103f13a72626f602bfd7cacb1020000000129c44d);
    StreamOfOne(bytes, 0x9c, Coded(Letters()), Own(LetterHeader()), out);
  }
}
