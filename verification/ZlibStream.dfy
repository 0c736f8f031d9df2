/** Compressing a buffer and decompressing it again: `tdefl_compress` with a final flush and `tinfl_decompress`, both of
    `src/miniz.c`, in the frame of RFC 1950 with its header and its Adler-32. */
module ZlibStream {
  import opened Bits
  import opened HuffmanEncoder
  import opened Sequences
  import opened BitPieces
  import opened LzTokens
  import opened DeflateStream
  import opened InflateBlock
  import opened InflateStream
  import opened InflateWindow
  import opened InflateMore
  import opened InflateEnough
  import A = Adler32
  import opened LzParser
  import LzDictionary

  /** The four bytes of a checksum, the highest first. */
  function ChecksumBytes(a: nat): (b: seq<Byte>)
    requires a < A.WORD
    ensures |b| == 4
  {
    [a / 0x100_0000, a / 0x1_0000 % 256, a / 0x100 % 256, a % 256]
  }

  /** What may differ between streams of the same blocks: the two header bytes, and the bits that are skipped. */
  datatype Wrapping = Wrapping(zhdr0: Byte, zhdr1: Byte, skipped: nat)

  /** The tests on the two header bytes, for an output buffer that does not wrap (lines 1451 to 1452). */
  predicate GoodHeader(zhdr0: nat, zhdr1: nat) {
    (zhdr0 * 256 + zhdr1) % 31 == 0 && zhdr1 / 32 % 2 == 0 && zhdr0 % 16 == 8
  }

  /** Behind the first byte 0x78 these are the four bytes with each compression level, no dictionary, and the check bits that go
      with them. */
  lemma UsualHeaders(zhdr1: Byte)
    ensures GoodHeader(0x78, zhdr1) <==> zhdr1 == 0x01 || zhdr1 == 0x5e || zhdr1 == 0x9c || zhdr1 == 0xda
  {
    var level, dictionary, check := zhdr1 / 64, zhdr1 / 32 % 2, zhdr1 % 32;
    assert zhdr1 == 64 * level + 32 * dictionary + check;
    assert 0x78 * 256 == 31 * 990 + 30;
  }

  /** For every first byte with method 8, and every compression level, there are check bits with which the header is taken. */
  lemma EveryLevel(zhdr0: Byte, level: nat) returns (zhdr1: Byte)
    requires zhdr0 % 16 == 8 && level < 4
    ensures zhdr1 / 64 == level && zhdr1 / 32 % 2 == 0 && GoodHeader(zhdr0, zhdr1)
  {
    var without := zhdr0 * 256 + level * 64;
    var check := 30 - (without + 30) % 31;
    zhdr1 := level * 64 + check;
    CheckBits(without, check);
    LevelBits(level, check);
  }

  lemma CheckBits(without: nat, check: nat)
    requires check == 30 - (without + 30) % 31
    ensures check <= 30 && (without + check) % 31 == 0
  {
    var q, r := (without + 30) / 31, (without + 30) % 31;
    assert without + check == 31 * q;
  }

  lemma LevelBits(level: nat, check: nat)
    requires check < 32
    ensures (level * 64 + check) / 64 == level && (level * 64 + check) / 32 % 2 == 0
  {
    assert (level * 64 + check) / 32 == 2 * level;
  }

  /** CINFO is at most 7 (section 2.2 of RFC 1950); without a window that wraps the code does not ask for that. */
  predicate GoodWindow(zhdr0: nat) {
    zhdr0 / 16 <= 7
  }

  /** The window that the header declares. */
  function WindowSize(zhdr0: nat): nat {
    Pow2(8 + zhdr0 / 16)
  }

  /** Header, blocks, padding and checksum. */
  ghost function Frame(w: Wrapping, blocks: seq<Block>, forms: seq<Form>, adler: nat): (ps: seq<Piece>)
    requires AllSuit(blocks, forms) && |forms| == |blocks| && adler < A.WORD
    ensures AllFit(ps)
  {
    var body := Blocks(blocks, forms, 16, |blocks|);
    BytePieces([w.zhdr0, w.zhdr1]) + body + Padding(16 + BitCount(body), w.skipped) + BytePieces(ChecksumBytes(adler))
  }

  /** The checksum of a whole output. */
  ghost function SumOf(out: seq<Byte>): nat {
    A.Pack(A.Adler(A.Unpack(1), out))
  }

  function InputOf(bytes: seq<Byte>): Input {
    Input(BytesValue(bytes), 8 * |bytes|, true, if bytes == [] then 0 else WindowSize(bytes[0]))
  }

  /** The bytes start with a stream of these blocks: a header with a window that the standard knows, blocks whose
      distances stay inside that window, and the checksum of what they inflate to. */
  ghost predicate StartsWith(bytes: seq<Byte>, w: Wrapping, blocks: seq<Block>, forms: seq<Form>, next: Input) {
    && blocks != [] && AllSuit(blocks, forms) && |forms| == |blocks| && Inflate(blocks).Bytes?
    && GoodHeader(w.zhdr0, w.zhdr1) && GoodWindow(w.zhdr0) && AllStayNear(blocks, WindowSize(w.zhdr0))
    && SumOf(Inflate(blocks).bytes) < A.WORD
    && Front(InputOf(bytes), Frame(w, blocks, forms, SumOf(Inflate(blocks).bytes)), next)
  }

  /** The bytes start with a stream, as RFC 1950 and RFC 1951 describe it, whose contents are `out`. */
  ghost predicate Encodes(bytes: seq<Byte>, out: seq<Byte>) {
    exists w: Wrapping, blocks: seq<Block>, forms: seq<Form>, next: Input ::
      StartsWith(bytes, w, blocks, forms, next) && Inflate(blocks) == Bytes(out)
  }

  lemma ByteCount(bytes: seq<Byte>)
    ensures BitCount(BytePieces(bytes)) == 8 * |bytes|
  {
    BytesCount(bytes, |bytes|);
    assert BytePieces(bytes)[..|bytes|] == BytePieces(bytes);
  }

  lemma {:induction false} FourCount(a: seq<Piece>, b: seq<Piece>, c: seq<Piece>, d: seq<Piece>)
    ensures BitCount(a + b + c + d) == BitCount(a) + BitCount(b) + BitCount(c) + BitCount(d)
  {
    PackedConcat(a + b + c, d);
    PackedConcat(a + b, c);
    PackedConcat(a, b);
  }

  lemma WholeBytesInAll(n: nat)
    ensures (16 + n + (if (16 + n) % 8 == 0 then 0 else 8 - (16 + n) % 8) + 32) % 8 == 0
  {
  }

  /** The stream ends with a whole byte. */
  lemma FrameCount(w: Wrapping, blocks: seq<Block>, forms: seq<Form>, adler: nat)
    requires AllSuit(blocks, forms) && |forms| == |blocks| && adler < A.WORD
    ensures BitCount(Frame(w, blocks, forms, adler)) % 8 == 0
  {
    hide BitCount, BytePieces, Padding, Blocks, AllSuit, ChecksumBytes;
    var head, body := BytePieces([w.zhdr0, w.zhdr1]), Blocks(blocks, forms, 16, |blocks|);
    var pad, tail := Padding(16 + BitCount(body), w.skipped), BytePieces(ChecksumBytes(adler));
    ByteCount([w.zhdr0, w.zhdr1]);
    ByteCount(ChecksumBytes(adler));
    PaddingCount(16 + BitCount(body), w.skipped);
    FourCount(head, body, pad, tail);
    WholeBytesInAll(BitCount(body));
  }

  /** The checksum that is kept up from call to call. */
  method ChecksumOfChunks(chunks: seq<Chunk>, last: seq<Byte>) returns (adler: nat)
    ensures adler == SumOf(Joined(chunks) + last) < A.WORD
  {
    hide A.Adler;
    adler := 1;
    A.AdlerOfNothing();
    for i := 0 to |chunks|
      invariant adler == SumOf(Joined(chunks[..i])) < A.WORD
    {
      assert chunks[..i + 1][..i] == chunks[..i];
      A.SumContinues(Joined(chunks[..i]), chunks[i].bytes);
      adler := A.Checksum(adler, chunks[i].bytes);
    }
    assert chunks[..|chunks|] == chunks;
    A.SumContinues(Joined(chunks), last);
    adler := A.Checksum(adler, last);
  }

  /** Compresses what is put in, in any number of calls with any flushes between them: the parser's blocks, in the forms
      that `fixedCode` chooses.  The bytes are a stream of that, and nothing comes after it. */
  method Compress(chunks: seq<Chunk>, last: seq<Byte>, expands: seq<Token> -> bool, fixedCode: nat -> bool, greedy: bool,
                  rleMatches: bool, forceRaw: bool, filterMatches: bool, probes: nat, chains: seq<nat>)
      returns (bytes: seq<Byte>)
    requires probes <= 4095 && |chains| == LzDictionary.HASH_SIZE
    requires forall i :: 0 <= i < LzDictionary.HASH_SIZE ==> chains[i] < 65536
    ensures exists w: Wrapping, blocks: seq<Block>, forms: seq<Form> ::
              StartsWith(bytes, w, blocks, forms, Input(0, 0, true, DICT_SIZE)) && Inflate(blocks) == Bytes(Joined(chunks) + last)
  {
    hide WindowSize, GoodWindow, AllStayNear, Wrote, Inflate, AllSendable, Blocks, BitCount, BytePieces, Padding, AllSuit, Packed, A.Adler, Append;
    var parsed := LzParser.CompressBuffer(chunks, last, expands, greedy, rleMatches, forceRaw, filterMatches, probes, chains);
    ghost var blocks, z := parsed, Wrapping(0x78, 0x01, 0);
    var adler := ChecksumOfChunks(chunks, last);
    var w := new BitWriter();
    WroteNothing(w);
    ghost var head := BytePieces([0x78, 0x01]);
    ByteCount([0x78, 0x01]);
    PutBytes(w, [0x78, 0x01], []);
    assert [] + head == head;
    ghost var forms := WriteBlocks(w, parsed, fixedCode, head);
    ghost var body := Blocks(blocks, forms, 16, |blocks|);
    PackedConcat(head, body);
    Pad(w, head + body);
    PutBytes(w, ChecksumBytes(adler), head + body + Padding(16 + BitCount(body), 0));
    FrameCount(z, blocks, forms, adler);
    WholeBytes(w, Frame(z, blocks, forms, adler));
    bytes := w.output;
    WholeInput(bytes, Frame(z, blocks, forms, adler));
    DeclaredWindow(bytes, z, blocks, forms, adler, Input(0, 0, true, InputOf(bytes).window));
    LargestWindow();
    AlwaysNear(blocks);
    assert StartsWith(bytes, z, blocks, forms, Input(0, 0, true, DICT_SIZE));
  }

  lemma WholeInput(bytes: seq<Byte>, ps: seq<Piece>)
    requires AllFit(ps) && BytesValue(bytes) == Packed(ps) && 8 * |bytes| == BitCount(ps)
    ensures Front(InputOf(bytes), ps, Input(0, 0, true, InputOf(bytes).window))
  {
    BytesBound(bytes);
    AppendNothing(Packed(ps), BitCount(ps));
  }

  lemma LargestWindow()
    ensures GoodWindow(0x78) && WindowSize(0x78) == DICT_SIZE
  {
    Pow2Values();
  }

  /** No distance is beyond the largest window. */
  lemma AlwaysNear(blocks: seq<Block>)
    requires Inflate(blocks).Bytes?
    ensures AllStayNear(blocks, DICT_SIZE)
  {
    hide Inflate, Legal, AllNear;
    forall i | 0 <= i < |blocks| ensures StaysNear(blocks[i], DICT_SIZE) {
      InflateNext(blocks, i);
      if blocks[i].Coded? { LegalIsNear(blocks[i].tokens, |Inflate(blocks[..i]).bytes|); }
    }
  }

  lemma {:induction false} LegalIsNear(tokens: seq<Token>, produced: nat)
    requires Legal(tokens, produced)
    ensures AllNear(tokens, DICT_SIZE)
    decreases |tokens|
  {
    if tokens != [] {
      LegalIsNear(tokens[1..], produced + Width(tokens[0]));
      assert forall i :: 1 <= i < |tokens| ==> tokens[i] == tokens[1..][i - 1];
    }
  }

  // ---------------------------------------------------------------- reading

  /** `(z << 8) | s`. */
  function NextByte(z: nat, s: nat): nat { z * 256 + s }

  /** The checksum at the end, its highest byte first. */
  ghost function NextSum(r: Input): Read<nat> {
    var (a, r1) :- NextBits(r, 8);
    var (b, r2) :- NextBits(r1, 8);
    var (c, r3) :- NextBits(r2, 8);
    var (d, r4) :- NextBits(r3, 8);
    Ok(NextByte(NextByte(NextByte(NextByte(0, a), b), c), d), r4)
  }

  /** A whole stream, into an output buffer of `cap` bytes. */
  ghost function NextStream(r: Input, cap: nat): (o: Read<seq<Byte>>)
    ensures o.Ok? ==> |o.value| <= cap
  {
    var (zhdr0, r1) :- NextBits(r, 8);
    var (zhdr1, r2) :- NextBits(r1, 8);
    if !GoodHeader(zhdr0, zhdr1) then Fail(Failed)
    else
      var (out, r3) :- NextBlocks(r2, [], cap);
      var (sum, r4) :- NextSum(Aligned(r3));
      if sum == SumOf(out) then Ok(out, r4.(clean := r4.clean && GoodWindow(zhdr0))) else Fail(AdlerMismatch)
  }

  method ReadSum(r: BitReader) returns (sum: Reply<nat>)
    modifies r
    ensures Agrees(sum, r.Ahead(), NextSum(old(r.Ahead())))
  {
    hide NextBits;
    var a :- r.Get(8);
    var b :- r.Get(8);
    var c :- r.Get(8);
    var d :- r.Get(8);
    return Value(NextByte(NextByte(NextByte(NextByte(0, a), b), c), d));
  }

  /** `tinfl_decompress` on whatever bytes, with `TINFL_FLAG_PARSE_ZLIB_HEADER`, `TINFL_FLAG_HAS_MORE_INPUT` and
      `TINFL_FLAG_USING_NON_WRAPPING_OUTPUT_BUF`.  `clean` says whether the stream kept to the standards. */
  method Decompress(bytes: seq<Byte>, buf: array<Byte>) returns (cur: Reply<nat>, ghost clean: bool)
    modifies buf
    ensures match NextStream(InputOf(bytes), buf.Length)
            case Ok(out, rest) => cur == Value(|out|) && buf[..|out|] == out && clean == rest.clean
            case Fail(why) => cur == Stop(why)
    ensures cur.Value? ==> cur.value <= buf.Length && (clean <==> Encodes(bytes, buf[..cur.value]))
    ensures cur.Stop? ==> forall out :: Encodes(bytes, out) ==> |out| > buf.Length
  {
    hide NextBits, NextBlocks, NextSum, A.Adler, Encodes, GoodWindow, WindowSize;
    clean := true;
    forall out { AcceptsExactly(bytes, out, buf.Length); }
    var r := new BitReader(bytes, InputOf(bytes).window);
    var zhdr0 := r.Get(8);
    if zhdr0.Stop? { return Stop(zhdr0.why), clean; }
    var zhdr1 := r.Get(8);
    if zhdr1.Stop? { return Stop(zhdr1.why), clean; }
    if !GoodHeader(zhdr0.value, zhdr1.value) { return Stop(Failed), clean; }
    cur := ReadBlocks(r, buf);
    if cur.Stop? { return; }
    r.Align();
    var zAdler := ReadSum(r);
    if zAdler.Stop? { return Stop(zAdler.why), clean; }
    var check := A.Checksum(1, buf[..cur.value]);
    if zAdler.value != check { return Stop(AdlerMismatch), clean; }
    r.clean := r.clean && GoodWindow(zhdr0.value);
    clean := r.clean;
  }

  // ---------------------------------------------------------------- exactly the streams of the standards

  lemma FrameSplit(w: Wrapping, blocks: seq<Block>, forms: seq<Form>, adler: nat)
    requires AllSuit(blocks, forms) && |forms| == |blocks| && adler < A.WORD
    ensures var body, s := Blocks(blocks, forms, 16, |blocks|), ChecksumBytes(adler);
            Frame(w, blocks, forms, adler)
              == [Piece(w.zhdr0, 8)] + ([Piece(w.zhdr1, 8)] + (body + (Padding(16 + BitCount(body), w.skipped)
                 + ([Piece(s[0], 8)] + ([Piece(s[1], 8)] + ([Piece(s[2], 8)] + [Piece(s[3], 8)]))))))
  {
    hide Blocks, Padding, BitCount, AllSuit, BytePieces, ChecksumBytes;
    var body, s := Blocks(blocks, forms, 16, |blocks|), ChecksumBytes(adler);
    TwoPieces(w.zhdr0, w.zhdr1);
    FourBytePieces(s);
    Regrouped([Piece(w.zhdr0, 8)], [Piece(w.zhdr1, 8)], body, Padding(16 + BitCount(body), w.skipped), BytePieces(s));
  }

  lemma TwoPieces(a: Byte, b: Byte)
    ensures BytePieces([a, b]) == [Piece(a, 8)] + [Piece(b, 8)]
  {
  }

  lemma FourBytePieces(s: seq<Byte>)
    requires |s| == 4
    ensures BytePieces(s) == [Piece(s[0], 8)] + ([Piece(s[1], 8)] + ([Piece(s[2], 8)] + [Piece(s[3], 8)]))
  {
  }

  lemma Regrouped<T>(a: seq<T>, b: seq<T>, c: seq<T>, d: seq<T>, e: seq<T>)
    ensures a + b + c + d + e == a + (b + (c + (d + e)))
  {
  }

  lemma FromBytes(a: nat)
    requires a < A.WORD
    ensures var b := ChecksumBytes(a); NextByte(NextByte(NextByte(NextByte(0, b[0]), b[1]), b[2]), b[3]) == a
  {
    Quotients(a);
  }

  lemma ToBytes(a: nat, b: nat, c: nat, d: nat)
    requires a < 256 && b < 256 && c < 256 && d < 256
    ensures var sum := NextByte(NextByte(NextByte(NextByte(0, a), b), c), d);
            sum < A.WORD && ChecksumBytes(sum) == [a, b, c, d]
  {
    var x := NextByte(a, b);
    var y := NextByte(x, c);
    var sum := NextByte(y, d);
    Quotients(sum);
    assert sum / 256 == y && y / 256 == x && x / 256 == a;
    assert sum % 256 == d && y % 256 == c && x % 256 == b;
  }

  lemma Quotients(a: nat)
    ensures a / 0x1_0000 == a / 256 / 256 && a / 0x100_0000 == a / 256 / 256 / 256
  {
  }

  lemma SumOfFront(r: Input, adler: nat, next: Input)
    requires adler < A.WORD
    requires var s := ChecksumBytes(adler);
             Front(r, [Piece(s[0], 8)] + ([Piece(s[1], 8)] + ([Piece(s[2], 8)] + [Piece(s[3], 8)])), next)
    ensures NextSum(r) == Ok(adler, next)
  {
    hide Front, NextBits;
    var s := ChecksumBytes(adler);
    FromBytes(adler);
    hide ChecksumBytes, NextByte;
    var a, b, c, d := [Piece(s[0], 8)], [Piece(s[1], 8)], [Piece(s[2], 8)], [Piece(s[3], 8)];
    var r1 := FrontSplit(r, a, b + (c + d), next);
    var r2 := FrontSplit(r1, b, c + d, next);
    var r3 := FrontSplit(r2, c, d, next);
    BitsOfFront(r, a[0], r1);
    BitsOfFront(r1, b[0], r2);
    BitsOfFront(r2, c[0], r3);
    BitsOfFront(r3, d[0], next);
  }

  lemma FrontOfSum(r: Input)
    requires NextSum(r).Ok?
    ensures NextSum(r).value < A.WORD && NextSum(r).rest.clean == r.clean
    ensures var s := ChecksumBytes(NextSum(r).value);
            Front(r, [Piece(s[0], 8)] + ([Piece(s[1], 8)] + ([Piece(s[2], 8)] + [Piece(s[3], 8)])), NextSum(r).rest)
  {
    hide Front, NextBits, ChecksumBytes, NextByte;
    var a, r1 := NextBits(r, 8).value, NextBits(r, 8).rest;
    var b, r2 := NextBits(r1, 8).value, NextBits(r1, 8).rest;
    var c, r3 := NextBits(r2, 8).value, NextBits(r2, 8).rest;
    var d, r4 := NextBits(r3, 8).value, NextBits(r3, 8).rest;
    EightBits(r);
    EightBits(r1);
    EightBits(r2);
    EightBits(r3);
    ToBytes(a, b, c, d);
    FrontOfBits(r, 8);
    FrontOfBits(r1, 8);
    FrontOfBits(r2, 8);
    FrontOfBits(r3, 8);
    BitsBelow(r, 8);
    BitsBelow(r1, 8);
    BitsBelow(r2, 8);
    BitsBelow(r3, 8);
    FrontConcat(r2, [Piece(c, 8)], r3, [Piece(d, 8)], r4);
    FrontConcat(r1, [Piece(b, 8)], r2, [Piece(c, 8)] + [Piece(d, 8)], r4);
    FrontConcat(r, [Piece(a, 8)], r1, [Piece(b, 8)] + ([Piece(c, 8)] + [Piece(d, 8)]), r4);
  }

  /** The blocks, the skipped bits and the checksum behind the header are read as what they are. */
  lemma BodyOfFront(r2: Input, w: Wrapping, blocks: seq<Block>, forms: seq<Form>, adler: nat, cap: nat, next: Input)
    requires blocks != [] && AllSuit(blocks, forms) && |forms| == |blocks| && Inflate(blocks).Bytes? && |Inflate(blocks).bytes| <= cap
    requires adler < A.WORD && EndsWithByte(r2, 16) && AllStayNear(blocks, r2.window)
    requires var body, s := Blocks(blocks, forms, 16, |blocks|), ChecksumBytes(adler);
             Front(r2, body + (Padding(16 + BitCount(body), w.skipped)
                   + ([Piece(s[0], 8)] + ([Piece(s[1], 8)] + ([Piece(s[2], 8)] + [Piece(s[3], 8)])))), next)
    ensures NextBlocks(r2, [], cap).Ok? && NextBlocks(r2, [], cap).value == Inflate(blocks).bytes
    ensures NextSum(Aligned(NextBlocks(r2, [], cap).rest)) == Ok(adler, next)
  {
    hide Front, NextBlocks, NextSum, Blocks, Padding, BitCount, Inflate, AllSuit, SumOf, ChecksumBytes, AllStayNear;
    var body, s := Blocks(blocks, forms, 16, |blocks|), ChecksumBytes(adler);
    var pad := Padding(16 + BitCount(body), w.skipped);
    var tail := [Piece(s[0], 8)] + ([Piece(s[1], 8)] + ([Piece(s[2], 8)] + [Piece(s[3], 8)]));
    var r3 := FrontSplit(r2, body, pad + tail, next);
    var r4 := FrontSplit(r3, pad, tail, next);
    assert blocks[..|blocks|] == blocks;
    BlocksOfFront(r2, blocks, forms, 16, |blocks|, cap, r3);
    FrontLeft(r2, body, r3);
    assert EndsWithByte(r3, 16 + BitCount(body));
    PaddingIsSkipped(r3, 16 + BitCount(body), w.skipped, r4);
    SumOfFront(r4, adler, next);
  }

  lemma HeaderOfFront(r: Input, zhdr0: Byte, zhdr1: Byte, rest: seq<Piece>, next: Input) returns (r2: Input)
    requires Front(r, [Piece(zhdr0, 8)] + ([Piece(zhdr1, 8)] + rest), next)
    ensures Front(r2, rest, next) && r2.left == r.left - 16 && r2.window == r.window
    ensures NextBits(r, 8).Ok? && NextBits(r, 8).value == zhdr0 && NextBits(NextBits(r, 8).rest, 8) == Ok(zhdr1, r2)
  {
    hide Front, NextBits;
    var r1 := FrontSplit(r, [Piece(zhdr0, 8)], [Piece(zhdr1, 8)] + rest, next);
    r2 := FrontSplit(r1, [Piece(zhdr1, 8)], rest, next);
    BitsOfFront(r, Piece(zhdr0, 8), r1);
    BitsOfFront(r1, Piece(zhdr1, 8), r2);
    SameWindow(r, [Piece(zhdr0, 8)], r1);
    SameWindow(r1, [Piece(zhdr1, 8)], r2);
  }

  lemma ByteOfFront(bytes: seq<Byte>, window: nat)
    requires bytes != []
    ensures NextBits(Input(BytesValue(bytes), 8 * |bytes|, true, window), 8)
         == Ok(bytes[0], Input(BytesValue(bytes[1..]), 8 * |bytes[1..]|, true, window))
  {
    hide Append;
    var r, next := Input(BytesValue(bytes), 8 * |bytes|, true, window), Input(BytesValue(bytes[1..]), 8 * |bytes[1..]|, true, window);
    Pow2Values();
    PackedOne(Piece(bytes[0], 8));
    assert Front(r, [Piece(bytes[0], 8)], next);
    BitsOfFront(r, Piece(bytes[0], 8), next);
  }

  lemma FirstByte(bytes: seq<Byte>)
    requires NextBits(InputOf(bytes), 8).Ok?
    ensures bytes != [] && NextBits(InputOf(bytes), 8).value == bytes[0]
  {
    ByteOfFront(bytes, InputOf(bytes).window);
  }

  /** The window that the input starts with is that of the first byte of the stream. */
  lemma DeclaredWindow(bytes: seq<Byte>, w: Wrapping, blocks: seq<Block>, forms: seq<Form>, adler: nat, next: Input)
    requires AllSuit(blocks, forms) && |forms| == |blocks| && adler < A.WORD
    requires Front(InputOf(bytes), Frame(w, blocks, forms, adler), next)
    ensures InputOf(bytes).window == WindowSize(w.zhdr0)
  {
    hide Front, NextBits, Blocks, Padding, BitCount, AllSuit, ChecksumBytes, Frame, WindowSize;
    FrameSplit(w, blocks, forms, adler);
    var body, s := Blocks(blocks, forms, 16, |blocks|), ChecksumBytes(adler);
    var rest := body + (Padding(16 + BitCount(body), w.skipped)
                + ([Piece(s[0], 8)] + ([Piece(s[1], 8)] + ([Piece(s[2], 8)] + [Piece(s[3], 8)]))));
    var r2 := HeaderOfFront(InputOf(bytes), w.zhdr0, w.zhdr1, rest, next);
    FirstByte(bytes);
  }

  /** A stream is read as its contents, if there is room for them and the checksum is right; only the checksum tells a wrong one. */
  lemma StreamOfFrame(bytes: seq<Byte>, w: Wrapping, blocks: seq<Block>, forms: seq<Form>, adler: nat, cap: nat, next: Input)
    requires blocks != [] && AllSuit(blocks, forms) && |forms| == |blocks| && Inflate(blocks).Bytes? && |Inflate(blocks).bytes| <= cap
    requires GoodHeader(w.zhdr0, w.zhdr1) && GoodWindow(w.zhdr0) && AllStayNear(blocks, WindowSize(w.zhdr0))
    requires adler < A.WORD && Front(InputOf(bytes), Frame(w, blocks, forms, adler), next)
    ensures NextStream(InputOf(bytes), cap) == if adler == SumOf(Inflate(blocks).bytes) then Ok(Inflate(blocks).bytes, next) else Fail(AdlerMismatch)
    ensures next.clean
  {
    hide Front, NextBits, NextBlocks, NextSum, Blocks, Padding, BitCount, Inflate, AllSuit, SumOf, ChecksumBytes, Frame,
         GoodHeader, GoodWindow, WindowSize, AllStayNear;
    var r := InputOf(bytes);
    var body, s := Blocks(blocks, forms, 16, |blocks|), ChecksumBytes(adler);
    FrameSplit(w, blocks, forms, adler);
    FrontLeft(r, Frame(w, blocks, forms, adler), next);
    SameWindow(r, Frame(w, blocks, forms, adler), next);
    DeclaredWindow(bytes, w, blocks, forms, adler, next);
    var rest := body + (Padding(16 + BitCount(body), w.skipped)
                + ([Piece(s[0], 8)] + ([Piece(s[1], 8)] + ([Piece(s[2], 8)] + [Piece(s[3], 8)]))));
    var r2 := HeaderOfFront(r, w.zhdr0, w.zhdr1, rest, next);
    assert EndsWithByte(r2, 16);
    BodyOfFront(r2, w, blocks, forms, adler, cap, next);
  }

  lemma StreamOfFront(bytes: seq<Byte>, w: Wrapping, blocks: seq<Block>, forms: seq<Form>, cap: nat, next: Input)
    requires StartsWith(bytes, w, blocks, forms, next) && |Inflate(blocks).bytes| <= cap
    ensures NextStream(InputOf(bytes), cap) == Ok(Inflate(blocks).bytes, next) && next.clean
  {
    hide Front, NextStream, Inflate, AllSuit, SumOf, Frame, GoodHeader, GoodWindow, WindowSize, AllStayNear;
    StreamOfFrame(bytes, w, blocks, forms, SumOf(Inflate(blocks).bytes), cap, next);
  }

  lemma FrameInFront(w: Wrapping, blocks: seq<Block>, forms: seq<Form>, adler: nat,
                     r: Input, r1: Input, r2: Input, r3: Input, r4: Input, next: Input)
    requires AllSuit(blocks, forms) && |forms| == |blocks| && adler < A.WORD
    requires Front(r, [Piece(w.zhdr0, 8)], r1) && Front(r1, [Piece(w.zhdr1, 8)], r2)
    requires var body, s := Blocks(blocks, forms, 16, |blocks|), ChecksumBytes(adler);
             && Front(r2, body, r3) && Front(r3, Padding(16 + BitCount(body), w.skipped), r4)
             && Front(r4, [Piece(s[0], 8)] + ([Piece(s[1], 8)] + ([Piece(s[2], 8)] + [Piece(s[3], 8)])), next)
    ensures Front(r, Frame(w, blocks, forms, adler), next)
  {
    hide Front, Blocks, Padding, BitCount, AllSuit, ChecksumBytes, Frame;
    FrameSplit(w, blocks, forms, adler);
    var body, s := Blocks(blocks, forms, 16, |blocks|), ChecksumBytes(adler);
    var pad := Padding(16 + BitCount(body), w.skipped);
    var tail := [Piece(s[0], 8)] + ([Piece(s[1], 8)] + ([Piece(s[2], 8)] + [Piece(s[3], 8)]));
    FrontConcat(r3, pad, r4, tail, next);
    FrontConcat(r2, body, r3, pad + tail, next);
    FrontConcat(r1, [Piece(w.zhdr1, 8)], r2, body + (pad + tail), next);
    FrontConcat(r, [Piece(w.zhdr0, 8)], r1, [Piece(w.zhdr1, 8)] + (body + (pad + tail)), next);
  }

  lemma StreamEncodes(bytes: seq<Byte>, w: Wrapping, blocks: seq<Block>, forms: seq<Form>, out: seq<Byte>, next: Input)
    requires blocks != [] && AllSuit(blocks, forms) && |forms| == |blocks| && Inflate(blocks) == Bytes(out)
    requires GoodHeader(w.zhdr0, w.zhdr1) && GoodWindow(w.zhdr0) && AllStayNear(blocks, WindowSize(w.zhdr0)) && SumOf(out) < A.WORD
    requires Front(InputOf(bytes), Frame(w, blocks, forms, SumOf(out)), next)
    ensures Encodes(bytes, out)
  {
    hide Front, AllSuit, Inflate, SumOf, Frame, GoodHeader, GoodWindow, AllStayNear, WindowSize;
    assert StartsWith(bytes, w, blocks, forms, next);
  }

  lemma HeaderInFront(r: Input)
    requires NextBits(r, 8).Ok? && NextBits(NextBits(r, 8).rest, 8).Ok?
    ensures var h0, h1 := NextBits(r, 8), NextBits(NextBits(r, 8).rest, 8);
            && h0.value < 256 && h1.value < 256 && h1.rest.left == r.left - 16 && h1.rest.window == r.window
            && Front(r, [Piece(h0.value, 8)], h0.rest) && Front(h0.rest, [Piece(h1.value, 8)], h1.rest)
  {
    hide Front, NextBits;
    EightBits(r);
    EightBits(NextBits(r, 8).rest);
    FrontOfBits(r, 8);
    FrontOfBits(NextBits(r, 8).rest, 8);
    BitsBelow(r, 8);
    BitsBelow(NextBits(r, 8).rest, 8);
  }

  /** The blocks, the skipped bits and the checksum behind the header. */
  lemma BodyInFront(r2: Input, cap: nat) returns (blocks: seq<Block>, forms: seq<Form>, skipped: nat)
    requires (16 + r2.left) % 8 == 0 && NextBlocks(r2, [], cap).Ok?
    requires NextSum(Aligned(NextBlocks(r2, [], cap).rest)).Ok? && NextSum(Aligned(NextBlocks(r2, [], cap).rest)).rest.clean
    ensures blocks != [] && AllSuit(blocks, forms) && |forms| == |blocks| && Inflate(blocks) == Bytes(NextBlocks(r2, [], cap).value)
    ensures AllStayNear(blocks, r2.window)
    ensures var body, r3 := Blocks(blocks, forms, 16, |blocks|), NextBlocks(r2, [], cap).rest;
            Front(r2, body, r3) && Front(r3, Padding(16 + BitCount(body), skipped), Aligned(r3))
  {
    hide Front, NextBlocks, NextSum, Blocks, Padding, BitCount, Inflate, AllSuit;
    var r3 := NextBlocks(r2, [], cap).rest;
    FrontOfSum(Aligned(r3));
    NothingDone();
    FrontNothing(r2);
    assert EndsWithByte(r2, 16);
    blocks, forms := FrontOfBlocks(r2, [], [], 16, r2, cap);
    var body := Blocks(blocks, forms, 16, |blocks|);
    FrontLeft(r2, body, r3);
    assert EndsWithByte(r3, 16 + BitCount(body));
    skipped := PaddingInFront(r3, 16 + BitCount(body));
  }

  /** What is read as a stream, if it is clean, is one. */
  lemma FrontOfStream(bytes: seq<Byte>, cap: nat)
    requires NextStream(InputOf(bytes), cap).Ok? && NextStream(InputOf(bytes), cap).rest.clean
    ensures Encodes(bytes, NextStream(InputOf(bytes), cap).value)
  {
    hide Front, NextBits, NextBlocks, NextSum, Blocks, Padding, BitCount, Inflate, AllSuit, SumOf, ChecksumBytes, Frame, GoodHeader, Encodes, GoodWindow,
         WindowSize, AllStayNear;
    var r := InputOf(bytes);
    HeaderInFront(r);
    FirstByte(bytes);
    var zhdr0: Byte, r1 := NextBits(r, 8).value, NextBits(r, 8).rest;
    var zhdr1: Byte, r2 := NextBits(r1, 8).value, NextBits(r1, 8).rest;
    var out, r3 := NextBlocks(r2, [], cap).value, NextBlocks(r2, [], cap).rest;
    var blocks, forms, skipped := BodyInFront(r2, cap);
    FrontOfSum(Aligned(r3));
    var w := Wrapping(zhdr0, zhdr1, skipped);
    var next := NextStream(r, cap).rest;
    FrameInFront(w, blocks, forms, SumOf(out), r, r1, r2, r3, Aligned(r3), next);
    StreamEncodes(bytes, w, blocks, forms, out, next);
  }

  lemma NothingDone()
    ensures AllSuit([], []) && AllSuit(Open([]), []) && Inflate([]) == Bytes([]) && Blocks(Open([]), [], 16, 0) == []
  {
  }

  /** Of all byte strings, the inflater takes exactly those that start with a stream whose contents fit the output
      buffer, and gives those contents; what it takes beyond them is not clean. */
  lemma AcceptsExactly(bytes: seq<Byte>, out: seq<Byte>, cap: nat)
    ensures var o := NextStream(InputOf(bytes), cap);
            o.Ok? && o.value == out && o.rest.clean <==> Encodes(bytes, out) && |out| <= cap
  {
    hide NextStream, StartsWith, Inflate;
    var o := NextStream(InputOf(bytes), cap);
    if o.Ok? && o.value == out && o.rest.clean {
      FrontOfStream(bytes, cap);
    }
    if Encodes(bytes, out) && |out| <= cap {
      var w: Wrapping, blocks: seq<Block>, forms: seq<Form>, next: Input :|
        StartsWith(bytes, w, blocks, forms, next) && Inflate(blocks) == Bytes(out);
      StreamOfFront(bytes, w, blocks, forms, cap, next);
    }
  }

  /** More room in the output buffer does not change the result. */
  lemma MoreRoom(r: Input, cap: nat, more: nat)
    requires cap <= more && NextStream(r, cap).Ok?
    ensures NextStream(r, more) == NextStream(r, cap)
  {
    hide NextBits, NextBlocks, NextSum, SumOf, GoodHeader;
    MoreRoomForBlocks(NextBits(NextBits(r, 8).rest, 8).rest, [], cap, more);
  }

  /** Of two headers that pass the tests it does not matter which one a stream has. */
  lemma HeaderIgnored(bytes: seq<Byte>, other: seq<Byte>, cap: nat)
    requires |bytes| >= 2 && GoodHeader(bytes[0], bytes[1]) && |other| >= 2 && GoodHeader(other[0], other[1]) && bytes[2..] == other[2..]
    ensures Alike(NextStream(InputOf(bytes), cap), NextStream(InputOf(other), cap))
  {
    hide NextBits, NextBlocks, NextSum, SumOf, GoodHeader, GoodWindow, WindowSize, Shr, BytesValue;
    BehindHeader(bytes);
    BehindHeader(other);
    var r, s := NextBits(NextBits(InputOf(bytes), 8).rest, 8).rest, NextBits(NextBits(InputOf(other), 8).rest, 8).rest;
    AlikeBlocks(r, s, [], cap);
    var a, b := NextBlocks(r, [], cap), NextBlocks(s, [], cap);
    if a.Ok? { AlikeSum(Aligned(a.rest), Aligned(b.rest)); }
  }

  lemma BehindHeader(bytes: seq<Byte>)
    requires |bytes| >= 2
    ensures var h0 := NextBits(InputOf(bytes), 8);
            && h0.Ok? && h0.value == bytes[0] && NextBits(h0.rest, 8).Ok? && NextBits(h0.rest, 8).value == bytes[1]
            && SameLeft(NextBits(h0.rest, 8).rest, Input(BytesValue(bytes[2..]), 8 * (|bytes| - 2), true, 0))
  {
    hide NextBits, BytesValue, WindowSize;
    ByteOfFront(bytes, InputOf(bytes).window);
    ByteOfFront(bytes[1..], InputOf(bytes).window);
    assert bytes[1..][1..] == bytes[2..];
  }

  lemma AlikeSum(r: Input, s: Input)
    requires SameLeft(r, s)
    ensures Alike(NextSum(r), NextSum(s))
  {
    hide NextBits;
    AlikeBits(r, s, 8);
    var a, b := NextBits(r, 8), NextBits(s, 8);
    if a.Ok? {
      AlikeBits(a.rest, b.rest, 8);
      var c, d := NextBits(a.rest, 8), NextBits(b.rest, 8);
      if c.Ok? {
        AlikeBits(c.rest, d.rest, 8);
        if NextBits(c.rest, 8).Ok? { AlikeBits(NextBits(c.rest, 8).rest, NextBits(d.rest, 8).rest, 8); }
      }
    }
  }

  /** Every stream is taken as well with a header that declares a window of 64 KB, although it is none then. */
  lemma LargeWindowIsTaken(bytes: seq<Byte>, out: seq<Byte>, cap: nat, any: seq<Byte>)
    requires Encodes(bytes, out) && |out| <= cap
    ensures |bytes| >= 2 && NextStream(InputOf([0x88, 28] + bytes[2..]), cap).Ok?
    ensures NextStream(InputOf([0x88, 28] + bytes[2..]), cap).value == out && !Encodes([0x88, 28] + bytes[2..], any)
  {
    hide NextStream, Encodes;
    AcceptsExactly(bytes, out, cap);
    TakenHeader(bytes, cap);
    var other := [0x88, 28] + bytes[2..];
    assert other[0] == 0x88 && other[1] == 28 && other[2..] == bytes[2..];
    HeaderIgnored(bytes, other, cap);
    AcceptsExactly(other, any, |any|);
    if NextStream(InputOf(other), |any|).Ok? { TakenHeader(other, |any|); }
  }

  lemma TakenHeader(bytes: seq<Byte>, cap: nat)
    requires NextStream(InputOf(bytes), cap).Ok?
    ensures |bytes| >= 2 && GoodHeader(bytes[0], bytes[1]) && (NextStream(InputOf(bytes), cap).rest.clean ==> GoodWindow(bytes[0]))
  {
    hide NextBits, NextBlocks, NextSum, SumOf, GoodHeader, GoodWindow, BytesValue, WindowSize;
    HeaderInFront(InputOf(bytes));
    BehindHeader(bytes);
  }

  /** What is compressed, with any setting and in whatever pieces, decompresses to itself, into any buffer with room
      for it. */
  method RoundTrip(chunks: seq<Chunk>, last: seq<Byte>, expands: seq<Token> -> bool, fixedCode: nat -> bool, greedy: bool,
                   rleMatches: bool, forceRaw: bool, filterMatches: bool, probes: nat, chains: seq<nat>, room: nat)
      returns (back: seq<Byte>, ok: bool)
    requires probes <= 4095 && |chains| == LzDictionary.HASH_SIZE
    requires forall i :: 0 <= i < LzDictionary.HASH_SIZE ==> chains[i] < 65536
    ensures ok <==> |Joined(chunks) + last| <= room
    ensures ok ==> back == Joined(chunks) + last
  {
    hide StartsWith, Inflate, NextStream;
    ghost var src := Joined(chunks) + last;
    var bytes := Compress(chunks, last, expands, fixedCode, greedy, rleMatches, forceRaw, filterMatches, probes, chains);
    assert Encodes(bytes, src);
    AcceptsExactly(bytes, src, room);
    AcceptsExactly(bytes, src, |src|);
    var buf := new Byte[room](_ => 0);
    var cur, clean := Decompress(bytes, buf);
    ok := cur.Value?;
    if ok && |src| > room { MoreRoom(InputOf(bytes), room, |src|); }
    back := if ok then buf[..cur.value] else [];
    OneContents(bytes, src, back);
  }

  /** No byte string is a stream of two different contents. */
  lemma OneContents(bytes: seq<Byte>, out: seq<Byte>, other: seq<Byte>)
    ensures Encodes(bytes, out) && Encodes(bytes, other) ==> out == other
  {
    hide NextStream, Encodes;
    AcceptsExactly(bytes, out, |out| + |other|);
    AcceptsExactly(bytes, other, |out| + |other|);
  }

  // ---------------------------------------------------------------- input in parts

  lemma MoreSum(r: Input, s: Input)
    requires Longer(r, s)
    ensures Persists(NextSum(r), NextSum(s))
  {
    hide NextBits, Longer;
    MoreBits(r, s, 8);
    var a, b := NextBits(r, 8), NextBits(s, 8);
    if a.Ok? {
      MoreBits(a.rest, b.rest, 8);
      var c, d := NextBits(a.rest, 8), NextBits(b.rest, 8);
      if c.Ok? {
        MoreBits(c.rest, d.rest, 8);
        var e, f := NextBits(c.rest, 8), NextBits(d.rest, 8);
        if e.Ok? { MoreBits(e.rest, f.rest, 8); }
      }
    }
  }

  lemma MoreStream(r: Input, s: Input, cap: nat)
    requires Longer(r, s)
    ensures Persists(NextStream(r, cap), NextStream(s, cap))
  {
    hide NextBits, NextBlocks, NextSum, SumOf, GoodHeader, GoodWindow, Longer, Aligned;
    MoreBits(r, s, 8);
    var a, b := NextBits(r, 8), NextBits(s, 8);
    if a.Ok? {
      MoreBits(a.rest, b.rest, 8);
      var c, d := NextBits(a.rest, 8), NextBits(b.rest, 8);
      if c.Ok? {
        MoreBlocks(c.rest, d.rest, [], cap);
        var e, f := NextBlocks(c.rest, [], cap), NextBlocks(d.rest, [], cap);
        if e.Ok? {
          MoreAligned(e.rest, f.rest);
          MoreSum(Aligned(e.rest), Aligned(f.rest));
          var g, h := NextSum(Aligned(e.rest)), NextSum(Aligned(f.rest));
          if g.Ok? { StillLonger(g.rest, h.rest, GoodWindow(a.value)); }
        }
      }
    }
  }

  /** More bytes behind those that were read never change what was read, nor an error: only a request for more input is open. */
  lemma MoreInput(bytes: seq<Byte>, more: seq<Byte>, cap: nat)
    ensures var a, b := NextStream(InputOf(bytes), cap), NextStream(InputOf(bytes + more), cap);
            match a
            case Ok(out, rest) => b.Ok? && b.value == out && b.rest.clean == rest.clean
            case Fail(why) => why == NeedsMoreInput || b == a
  {
    hide NextStream, InputOf, Longer;
    if bytes == [] {
      NothingRead(cap);
    } else {
      InFront(bytes, more);
      MoreStream(InputOf(bytes), InputOf(bytes + more), cap);
      SameClean(NextStream(InputOf(bytes), cap), NextStream(InputOf(bytes + more), cap));
    }
  }

  lemma SameClean(a: Read<seq<Byte>>, b: Read<seq<Byte>>)
    requires Persists(a, b)
    ensures a.Ok? ==> b.Ok? && b.rest.clean == a.rest.clean
  {
  }

  lemma InFront(bytes: seq<Byte>, more: seq<Byte>)
    requires bytes != []
    ensures Longer(InputOf(bytes), InputOf(bytes + more))
  {
    hide Low, BytesValue, WindowSize;
    BytesInFront(bytes, more);
    assert (bytes + more)[0] == bytes[0];
    LengthRemainder(|bytes|, |more|);
  }

  lemma LengthRemainder(m: nat, n: nat)
    ensures 8 * m % 8 == 8 * (m + n) % 8
  {
  }

  lemma NothingRead(cap: nat)
    ensures NextStream(InputOf([]), cap) == Fail(NeedsMoreInput)
  {
  }

  /** In front of the end of a stream the inflater asks for more input, and for nothing else; with all of it, whatever stands
      behind, it is done. */
  lemma StreamInParts(bytes: seq<Byte>, more: seq<Byte>, out: seq<Byte>, cap: nat)
    requires Encodes(bytes + more, out) && |out| <= cap
    ensures var a := NextStream(InputOf(bytes), cap);
            if Encodes(bytes, out) then a.Ok? && a.value == out else a == Fail(NeedsMoreInput)
  {
    hide NextStream, Encodes, InputOf;
    AcceptsExactly(bytes + more, out, cap);
    AcceptsExactly(bytes, out, cap);
    MoreInput(bytes, more, cap);
  }

  lemma EnoughForSum(r: Input)
    requires r.left >= 32
    ensures NextSum(r).Ok?
  {
    hide NextBits, Later;
    EnoughBits(r, 8);
    var a := NextBits(r, 8).rest;
    StillLeft(r, a, 8, 8);
    EnoughBits(a, 8);
    var b := NextBits(a, 8).rest;
    StillLeft(a, b, 8, 8);
    EnoughBits(b, 8);
    var c := NextBits(b, 8).rest;
    StillLeft(b, c, 8, 8);
    EnoughBits(c, 8);
  }

  lemma EnoughForStream(r: Input, k: nat, cap: nat)
    requires r.bits < Pow2(k) && r.left >= 16 + k + 2 * BlockBits(cap) + 39
    ensures NextStream(r, cap) != Fail(NeedsMoreInput)
  {
    hide NextBits, NextBlocks, NextSum, SumOf, GoodHeader, GoodWindow, Aligned, Later, Pow2;
    EnoughBits(r, 8);
    var a := NextBits(r, 8).rest;
    StillLeft(r, a, 8, 8);
    EnoughBits(a, 8);
    var b := NextBits(a, 8).rest;
    StillLeft(a, b, 8, 8);
    SmallerLater(r, a, 8);
    SmallerLater(a, b, 8);
    EnoughForBlocks(b, k, [], cap);
    var c := NextBlocks(b, [], cap);
    if c.Ok? {
      AlignedLater(c.rest);
      StillLeft(c.rest, Aligned(c.rest), 7, 7);
      EnoughForSum(Aligned(c.rest));
    }
  }

  lemma SmallerLater(r: Input, s: Input, n: nat)
    requires Later(r, s, n)
    ensures s.bits <= r.bits
  {
    ShrSmaller(r.bits, r.left - s.left);
  }

  /** The inflater does not ask for ever: enough zeros behind any input, and it has an answer. */
  lemma AsksFinitely(bytes: seq<Byte>, cap: nat) returns (more: seq<Byte>)
    ensures NextStream(InputOf(bytes + more), cap) != Fail(NeedsMoreInput)
  {
    hide NextStream, BytesValue, Pow2, Append;
    var n := 2 * BlockBits(cap) + 55;
    more := Repeated<Byte>(0, n);
    ZeroBytes(n);
    ConcatValue(bytes, more);
    BytesBound(bytes);
    AppendNothing(BytesValue(bytes), 8 * |bytes|);
    EnoughForStream(InputOf(bytes + more), 8 * |bytes|, cap);
  }

  /** The same contents, or the same error. */
  ghost predicate SameAnswer(a: Read<seq<Byte>>, b: Read<seq<Byte>>) {
    if a.Ok? then b.Ok? && b.value == a.value && b.rest.clean == a.rest.clean else b == a
  }

  /** It asks for more input exactly when the answer depends on what comes. */
  lemma AsksExactly(bytes: seq<Byte>, cap: nat)
    ensures NextStream(InputOf(bytes), cap) == Fail(NeedsMoreInput)
       <==> exists more: seq<Byte> :: !SameAnswer(NextStream(InputOf(bytes), cap), NextStream(InputOf(bytes + more), cap))
  {
    hide NextStream, InputOf;
    if NextStream(InputOf(bytes), cap) == Fail(NeedsMoreInput) {
      var more := AsksFinitely(bytes, cap);
      assert !SameAnswer(NextStream(InputOf(bytes), cap), NextStream(InputOf(bytes + more), cap));
    } else {
      forall more: seq<Byte> ensures SameAnswer(NextStream(InputOf(bytes), cap), NextStream(InputOf(bytes + more), cap)) {
        MoreInput(bytes, more, cap);
      }
    }
  }
}
