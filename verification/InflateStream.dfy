/** Whole streams as the outer loop of `tinfl_decompress` of `src/miniz.c` reads them, from whatever input and into an
    output buffer that does not wrap (section 3.2.3 of RFC 1951). */
module InflateStream {
  import opened Bits
  import opened HuffmanCode
  import opened HuffmanDecoder
  import opened BitPieces
  import opened LzTokens
  import opened DeflateBlock
  import opened DeflateStream
  import opened DynamicHeader
  import opened FixedCode
  import opened InflateBlock
  import opened InflateHeader

  // ---------------------------------------------------------------- what the bits mean

  lemma EightBits(r: Input)
    requires NextBits(r, 8).Ok?
    ensures NextBits(r, 8).value < 256
  {
    Pow2Values();
  }

  /** `n` bytes go to the output. */
  ghost function NextBytes(r: Input, n: nat, out: seq<Byte>, cap: nat): (o: Read<seq<Byte>>)
    requires |out| <= cap
    ensures o.Ok? ==> |o.value| <= cap && o.rest.left <= r.left
    decreases n
  {
    if n == 0 then Ok(out, r)
    else if |out| == cap then Fail(HasMoreOutput)
    else
      var (b, r1) :- NextBits(r, 8);
      EightBits(r);
      NextBytes(r1, n - 1, out + [b], cap)
  }

  /** Two bytes, the lower one first. */
  ghost function NextWord(r: Input): (w: Read<nat>)
    ensures w.Ok? ==> w.rest.left <= r.left
  {
    var (low, r1) :- NextBits(r, 8);
    var (high, r2) :- NextBits(r1, 8);
    Ok(low + 256 * high, r2)
  }

  /** A stored block: its length, the complement of that, and the bytes. */
  ghost function NextStored(r: Input, out: seq<Byte>, cap: nat): (o: Read<seq<Byte>>)
    requires |out| <= cap
    ensures o.Ok? ==> |o.value| <= cap && o.rest.left <= r.left
  {
    var (size, r1) :- NextWord(Aligned(r));
    var (complement, r2) :- NextWord(r1);
    if size + complement != 65535 then Fail(Failed) else NextBytes(r2, size, out, cap)
  }

  /** A block with a code of its own. */
  ghost function NextOwn(r: Input, out: seq<Byte>, cap: nat): (o: Read<seq<Byte>>)
    requires |out| <= cap
    ensures o.Ok? ==> |o.value| <= cap && o.rest.left <= r.left
  {
    var (codes, r1) :- HeaderCodes(r);
    BlockOutput(r1, codes.lit, codes.dist, out, cap)
  }

  datatype Progress = Progress(out: seq<Byte>, last: bool)

  /** One block, after `out`. */
  ghost function NextBlock(r: Input, out: seq<Byte>, cap: nat): (p: Read<Progress>)
    requires |out| <= cap
    ensures p.Ok? ==> |p.value.out| <= cap && p.rest.left < r.left
  {
    var (head, r1) :- NextBits(r, 3);
    var last, kind := head % 2 == 1, head / 2;
    if kind == 0 then
      var (o, r2) :- NextStored(r1, out, cap);
      Ok(Progress(o, last), r2)
    else if kind == 1 then
      var (o, r2) :- BlockOutput(r1, StaticLit(), StaticDist(), out, cap);
      Ok(Progress(o, last), r2)
    else if kind == 2 then
      var (o, r2) :- NextOwn(r1, out, cap);
      Ok(Progress(o, last), r2)
    else
      Fail(Failed)
  }

  /** All blocks up to the one with the final bit. */
  ghost function NextBlocks(r: Input, out: seq<Byte>, cap: nat): (o: Read<seq<Byte>>)
    requires |out| <= cap
    ensures o.Ok? ==> |o.value| <= cap && o.rest.left < r.left
    decreases r.left
  {
    var (p, r1) :- NextBlock(r, out, cap);
    if p.last then Ok(p.out, r1) else NextBlocks(r1, p.out, cap)
  }

  // ---------------------------------------------------------------- reading

  method ReadWord(r: BitReader) returns (w: Reply<nat>)
    modifies r
    ensures Agrees(w, r.Ahead(), NextWord(old(r.Ahead())))
  {
    hide NextBits;
    var low :- r.Get(8);
    var high :- r.Get(8);
    return Value(low + 256 * high);
  }

  /** The bytes of a stored block (lines 1465 to 1488). */
  method ReadBytes(r: BitReader, n: nat, buf: array<Byte>, start: nat) returns (cur: Reply<nat>)
    requires start <= buf.Length
    modifies r, buf
    ensures Holds(cur, buf[..], r.Ahead(), NextBytes(old(r.Ahead()), n, old(buf[..start]), buf.Length))
  {
    hide NextBits;
    for i := 0 to n
      invariant start + i <= buf.Length
      invariant NextBytes(r.Ahead(), n - i, buf[..start + i], buf.Length) == NextBytes(old(r.Ahead()), n, old(buf[..start]), buf.Length)
    {
      if start + i == buf.Length {
        return Stop(HasMoreOutput);
      }
      if NextBits(r.Ahead(), 8).Ok? { EightBits(r.Ahead()); }
      ghost var before := buf[..start + i];
      var c :- r.Get(8);
      buf[start + i] := c;
      assert buf[..start + i + 1] == before + [c];
    }
    assert buf[..][..start + n] == buf[..start + n];
    return Value(start + n);
  }

  /** A stored block (lines 1462 to 1489). */
  method ReadStored(r: BitReader, buf: array<Byte>, start: nat) returns (cur: Reply<nat>)
    requires start <= buf.Length
    modifies r, buf
    ensures Holds(cur, buf[..], r.Ahead(), NextStored(old(r.Ahead()), old(buf[..start]), buf.Length))
  {
    hide NextWord, NextBytes, Aligned;
    r.Align();
    var counter :- ReadWord(r);
    var complement :- ReadWord(r);
    if counter + complement != 65535 {
      return Stop(Failed);
    }
    cur := ReadBytes(r, counter, buf, start);
  }

  /** A block in the fixed code (lines 1496 to 1501). */
  method ReadFixed(r: BitReader, buf: array<Byte>, start: nat) returns (cur: Reply<nat>)
    requires start <= buf.Length
    modifies r, buf
    ensures Holds(cur, buf[..], r.Ahead(), BlockOutput(old(r.Ahead()), StaticLit(), StaticDist(), old(buf[..start]), buf.Length))
  {
    hide BlockOutput, StaticLit, StaticDist, DecodeTable.Decodes, Accepted, Holds;
    StaticAccepted();
    var litTable, litOk := BuildTable(StaticLit());
    var distTable, distOk := BuildTable(StaticDist());
    cur := ReadBlock(r, litTable, distTable, StaticLit(), StaticDist(), buf, start);
  }

  method ReadOwn(r: BitReader, buf: array<Byte>, start: nat) returns (cur: Reply<nat>)
    requires start <= buf.Length
    modifies r, buf
    ensures Holds(cur, buf[..], r.Ahead(), NextOwn(old(r.Ahead()), old(buf[..start]), buf.Length))
  {
    hide BlockOutput, HeaderCodes, DecodeTable.Decodes;
    ghost var codes := HeaderCodes(r.Ahead());
    var tables := ReadHeader(r);
    if tables.Stop? {
      return Stop(tables.why);
    }
    cur := ReadBlock(r, tables.value.lit, tables.value.dist, codes.value.lit, codes.value.dist, buf, start);
  }

  /** One round of the loop of lines 1457 to 1670. */
  method ReadOneBlock(r: BitReader, buf: array<Byte>, start: nat) returns (cur: Reply<nat>, last: bool)
    requires start <= buf.Length
    modifies r, buf
    ensures match NextBlock(old(r.Ahead()), old(buf[..start]), buf.Length)
            case Ok(p, rest) => cur == Value(|p.out|) && buf[..|p.out|] == p.out && r.Ahead() == rest && last == p.last
            case Fail(why) => cur == Stop(why)
  {
    hide NextBits, NextStored, NextOwn, BlockOutput, StaticLit, StaticDist;
    last := false;
    var head := r.Get(3);
    if head.Stop? {
      return Stop(head.why), false;
    }
    last := head.value % 2 == 1;
    var kind := head.value / 2;
    if kind == 0 {
      cur := ReadStored(r, buf, start);
    } else if kind == 1 {
      cur := ReadFixed(r, buf, start);
    } else if kind == 2 {
      cur := ReadOwn(r, buf, start);
    } else {
      cur := Stop(Failed);
    }
  }

  /** The outer loop. */
  method ReadBlocks(r: BitReader, buf: array<Byte>) returns (cur: Reply<nat>)
    modifies r, buf
    ensures Holds(cur, buf[..], r.Ahead(), NextBlocks(old(r.Ahead()), [], buf.Length))
  {
    hide NextBlock;
    var at: nat := 0;
    assert buf[..0] == [];
    while true
      invariant at <= buf.Length
      invariant NextBlocks(r.Ahead(), buf[..at], buf.Length) == NextBlocks(old(r.Ahead()), [], buf.Length)
      decreases r.left
    {
      var next, last := ReadOneBlock(r, buf, at);
      if next.Stop? {
        return next;
      }
      at := next.value;
      if last {
        assert buf[..][..at] == buf[..at];
        return Value(at);
      }
    }
  }

  // ---------------------------------------------------------------- what is written is read

  /** The input ends with a byte, `at` bits behind the start. */
  ghost predicate EndsWithByte(r: Input, at: nat) {
    (at + r.left) % 8 == 0
  }

  lemma FrontLeft(r: Input, ps: seq<Piece>, next: Input)
    requires Front(r, ps, next)
    ensures r.left == BitCount(ps) + next.left
  {
  }

  lemma RestOfByte(at: nat, left: nat)
    requires (at + left) % 8 == 0
    ensures left % 8 == if at % 8 == 0 then 0 else 8 - at % 8
  {
  }

  lemma ShrNothing(x: nat)
    ensures Shr(x, 0) == x
  {
  }

  lemma PaddingIsSkipped(r: Input, at: nat, skipped: nat, next: Input)
    requires EndsWithByte(r, at) && Front(r, Padding(at, skipped), next)
    ensures Aligned(r) == next
  {
    hide Front, Low, Shr;
    RestOfByte(at, r.left);
    if at % 8 == 0 {
      ShrNothing(r.bits);
      FrontIsNext(r, next);
    } else {
      BitsOfFront(r, Padding(at, skipped)[0], next);
    }
  }

  lemma {:induction false} BytesOfFront(r: Input, bytes: seq<Byte>, i: nat, out: seq<Byte>, cap: nat, next: Input)
    requires i <= |bytes| && |out| + (|bytes| - i) <= cap && Front(r, BytePieces(bytes)[i..], next)
    ensures NextBytes(r, |bytes| - i, out, cap) == Ok(out + bytes[i..], next)
    decreases |bytes| - i
  {
    hide NextBits, Front, BytePieces;
    if i == |bytes| {
      assert BytePieces(bytes)[i..] == [];
      FrontIsNext(r, next);
      assert out + bytes[i..] == out;
    } else {
      ByteFrom(bytes, i);
      var mid := FrontSplit(r, [Piece(bytes[i], 8)], BytePieces(bytes)[i + 1..], next);
      BitsOfFront(r, Piece(bytes[i], 8), mid);
      BytesOfFront(mid, bytes, i + 1, out + [bytes[i]], cap, next);
      assert out + [bytes[i]] + bytes[i + 1..] == out + bytes[i..];
    }
  }

  lemma ByteFrom(bytes: seq<Byte>, i: nat)
    requires i < |bytes|
    ensures BytePieces(bytes)[i..] == [Piece(bytes[i], 8)] + BytePieces(bytes)[i + 1..]
  {
  }

  lemma WordOfFront(r: Input, n: nat, next: Input)
    requires n <= 65535 && Front(r, [Piece(n, 16)], next)
    ensures NextWord(r) == Ok(n, next)
  {
    hide NextBits, Front, SameBits, Low, Shr, Pow2;
    WordFits(n);
    OneAsTwo(n, 8, 8);
    LowEight(n);
    var p, q := Piece(Low(n, 8), 8), Piece(Shr(n, 8), 8);
    FrontSame(r, [Piece(n, 16)], [p, q], next);
    assert [p, q] == [p] + [q];
    var mid := FrontSplit(r, [p], [q], next);
    BitsOfFront(r, p, mid);
    BitsOfFront(mid, q, next);
  }

  lemma WordFits(n: nat)
    requires n <= 65535
    ensures Fits(Piece(n, 16))
  {
    Pow2Values();
  }

  lemma StoredSplit(bytes: seq<Byte>, skipped: nat, at: nat)
    requires |bytes| <= 65535
    ensures Body(Stored(bytes), Raw(skipped), at)
         == Padding(at, skipped) + ([Piece(|bytes|, 16)] + ([Piece(65535 - |bytes|, 16)] + BytePieces(bytes)))
  {
    hide Padding, BytePieces;
  }

  lemma StoredOfFront(r: Input, bytes: seq<Byte>, skipped: nat, at: nat, out: seq<Byte>, cap: nat, next: Input)
    requires |bytes| <= 65535 && |out| + |bytes| <= cap && EndsWithByte(r, at)
    requires Front(r, Body(Stored(bytes), Raw(skipped), at), next)
    ensures NextStored(r, out, cap) == Ok(out + bytes, next)
  {
    hide NextBytes, NextWord, Front, BytePieces, Padding, Aligned;
    StoredSplit(bytes, skipped, at);
    var n, all := |bytes|, BytePieces(bytes);
    var r1 := FrontSplit(r, Padding(at, skipped), [Piece(n, 16)] + ([Piece(65535 - n, 16)] + all), next);
    var r2 := FrontSplit(r1, [Piece(n, 16)], [Piece(65535 - n, 16)] + all, next);
    var r3 := FrontSplit(r2, [Piece(65535 - n, 16)], all, next);
    PaddingIsSkipped(r, at, skipped, r1);
    WordOfFront(r1, n, r2);
    WordOfFront(r2, 65535 - n, r3);
    assert all[0..] == all && bytes[0..] == bytes;
    BytesOfFront(r3, bytes, 0, out, cap, next);
  }

  /** What the first three bits say. */
  lemma HeadOfFront(r: Input, final: nat, kind: nat, next: Input)
    requires final < 2 && kind < 3 && Front(r, [Piece(final, 1), Piece(kind, 2)], next)
    ensures NextBits(r, 3) == Ok(final + 2 * kind, next)
  {
    hide NextBits, Front, SameBits, Append;
    HeadBits(final, kind);
    TwoAsOne(Piece(final, 1), Piece(kind, 2));
    FrontSame(r, [Piece(final, 1), Piece(kind, 2)], [Piece(final + 2 * kind, 3)], next);
    BitsOfFront(r, Piece(final + 2 * kind, 3), next);
  }

  lemma HeadBits(final: nat, kind: nat)
    requires final < 2 && kind < 4
    ensures Append(final, 1, kind) == final + 2 * kind
    ensures Fits(Piece(final, 1)) && Fits(Piece(kind, 2))
  {
    assert Append(final / 2, 0, kind) == kind;
    assert Pow2(1) == 2 && Pow2(2) == 4;
  }

  /** All distances of the block are inside the declared window. */
  ghost predicate StaysNear(b: Block, window: nat) {
    b.Coded? ==> AllNear(b.tokens, window)
  }

  ghost predicate AllStayNear(blocks: seq<Block>, window: nat) {
    forall i :: 0 <= i < |blocks| ==> StaysNear(blocks[i], window)
  }

  /** The output after a block. */
  ghost function After(b: Block, out: seq<Byte>): seq<Byte>
    requires b.Coded? ==> Legal(b.tokens, |out|)
  {
    if b.Coded? then Expand(b.tokens, out) else out + b.bytes
  }

  lemma GoodCodes(h: Header)
    requires Good(h)
    ensures Decodable(h.lit, h.dist)
  {
    hide First, UsedBelow;
    StandardIsAccepted(h.lit);
    StandardIsAccepted(h.dist);
    AcceptedSum(h.lit);
    AcceptedSum(h.dist);
  }

  lemma OwnOfFront(r: Input, h: Header, tokens: seq<Token>, out: seq<Byte>, cap: nat, next: Input)
    requires Good(h) && AllCodable(h.lit, h.dist, tokens) && Legal(tokens, |out|) && |out| + Size(tokens) <= cap
    requires AllNear(tokens, r.window) && Front(r, HeaderPieces(h) + BlockPieces(h.lit, h.dist, tokens), next)
    ensures NextOwn(r, out, cap) == Ok(Expand(tokens, out), next)
  {
    hide Good, AllCodable, Front, HeaderPieces, BlockPieces, HeaderCodes, BlockOutput, Legal, Decodable, AllNear;
    var mid := FrontSplit(r, HeaderPieces(h), BlockPieces(h.lit, h.dist, tokens), next);
    SameWindow(r, HeaderPieces(h), mid);
    CodesOfFront(r, h, mid);
    GoodCodes(h);
    OutputOfFront(mid, h.lit, h.dist, tokens, out, cap, next);
  }

  /** The pieces of a block are read as that block. */
  lemma BlockOfFront(r: Input, b: Block, f: Form, last: bool, at: nat, out: seq<Byte>, cap: nat, next: Input)
    requires Suits(b, f) && (b.Coded? ==> Legal(b.tokens, |out|)) && |After(b, out)| <= cap && EndsWithByte(r, at)
    requires StaysNear(b, r.window) && Front(r, Whole(b, f, last, at), next)
    ensures NextBlock(r, out, cap) == Ok(Progress(After(b, out), last), next)
  {
    hide Front, NextBits, NextStored, NextOwn, BlockOutput, Legal, Expand, StaticLit, StaticDist, AllCodable, Good, BitCount,
         HeaderPieces, BlockPieces, Padding, BytePieces, SizeFields, Decodable, AllNear;
    BitsFit();
    var final := if last then 1 else 0;
    var head := [Piece(final, 1), Piece(TypeOf(f), 2)];
    var mid := FrontSplit(r, head, Body(b, f, at + 3), next);
    HeadOfFront(r, final, TypeOf(f), mid);
    SameWindow(r, head, mid);
    assert EndsWithByte(mid, at + 3);
    match f
    case Raw(skipped) => StoredOfFront(mid, b.bytes, skipped, at + 3, out, cap, next);
    case Fixed =>
      StaticIsDecodable();
      OutputOfFront(mid, StaticLit(), StaticDist(), b.tokens, out, cap, next);
    case Own(h) => OwnOfFront(mid, h, b.tokens, out, cap, next);
  }

  lemma StaticIsDecodable()
    ensures Decodable(StaticLit(), StaticDist())
  {
    hide First;
    StaticAccepted();
  }

  /** The pieces of `n` blocks are read as those blocks. */
  lemma {:induction false} BlocksOfFront(r: Input, blocks: seq<Block>, forms: seq<Form>, at: nat, n: nat, cap: nat, next: Input)
    requires 0 < n <= |forms| && AllSuit(blocks, forms) && Inflate(blocks).Bytes? && EndsWithByte(r, at)
    requires Inflate(blocks[..n]).Bytes? && |Inflate(blocks[..n]).bytes| <= cap
    requires AllStayNear(blocks, r.window) && Front(r, Blocks(blocks, forms, at, n), next)
    ensures NextBlocks(r, [], cap)
         == if n == |blocks| then Ok(Inflate(blocks[..n]).bytes, next) else NextBlocks(next, Inflate(blocks[..n]).bytes, cap)
    decreases n
  {
    hide Front, NextBlock, Suits, Whole, BitCount, Inflate, Legal, Expand, StaysNear;
    var i := n - 1;
    InflateNext(blocks, i);
    NoBlocks(blocks, forms, at);
    var done, b, f := Blocks(blocks, forms, at, i), blocks[i], forms[i];
    var w := Whole(b, f, n == |blocks|, at + BitCount(done));
    assert Blocks(blocks, forms, at, n) == done + w;
    var mid := FrontSplit(r, done, w, next);
    var out := Inflate(blocks[..i]).bytes;
    FrontLeft(r, done, mid);
    SameWindow(r, done, mid);
    if i > 0 {
      BlocksOfFront(r, blocks, forms, at, i, cap, mid);
    } else {
      FrontIsNext(r, mid);
    }
    BlockOfFront(mid, b, f, n == |blocks|, at + BitCount(done), out, cap, next);
  }

  // ---------------------------------------------------------------- what is read was written

  lemma PaddingInFront(r: Input, at: nat) returns (skipped: nat)
    requires EndsWithByte(r, at)
    ensures Front(r, Padding(at, skipped), Aligned(r))
  {
    hide Front, Low, Shr;
    RestOfByte(at, r.left);
    if at % 8 == 0 {
      skipped := 0;
      ShrNothing(r.bits);
      FrontNothing(r);
    } else {
      skipped := r.bits;
      FrontOfBits(r, 8 - at % 8);
    }
  }

  lemma {:induction false} FrontOfBytes(r: Input, n: nat, out: seq<Byte>, cap: nat) returns (bytes: seq<Byte>)
    requires |out| <= cap && NextBytes(r, n, out, cap).Ok?
    ensures |bytes| == n && NextBytes(r, n, out, cap).value == out + bytes
    ensures Front(r, BytePieces(bytes), NextBytes(r, n, out, cap).rest)
    decreases n
  {
    hide NextBits, Front, BytePieces;
    if n == 0 {
      bytes := [];
      assert BytePieces([]) == [] && out + [] == out;
      FrontNothing(r);
    } else {
      EightBits(r);
      var b: Byte, r1 := NextBits(r, 8).value, NextBits(r, 8).rest;
      var more := FrontOfBytes(r1, n - 1, out + [b], cap);
      bytes := [b] + more;
      assert out + [b] + more == out + bytes;
      ByteInFront(b, more);
      FrontOfBits(r, 8);
      FrontConcat(r, [Piece(b, 8)], r1, BytePieces(more), NextBytes(r, n, out, cap).rest);
    }
  }

  lemma ByteInFront(b: Byte, more: seq<Byte>)
    ensures BytePieces([b] + more) == [Piece(b, 8)] + BytePieces(more)
  {
  }

  lemma FrontOfWord(r: Input)
    requires NextWord(r).Ok?
    ensures NextWord(r).value <= 65535 && Front(r, [Piece(NextWord(r).value, 16)], NextWord(r).rest)
  {
    hide NextBits, Front, SameBits, Low, Shr, Pow2, Append;
    var low, r1 := NextBits(r, 8).value, NextBits(r, 8).rest;
    var high, r2 := NextBits(r1, 8).value, NextBits(r1, 8).rest;
    EightBits(r);
    EightBits(r1);
    FrontOfBits(r, 8);
    FrontOfBits(r1, 8);
    FrontConcat(r, [Piece(low, 8)], r1, [Piece(high, 8)], r2);
    TwoBytes(low, high);
    TwoAsOne(Piece(low, 8), Piece(high, 8));
    assert [Piece(low, 8)] + [Piece(high, 8)] == [Piece(low, 8), Piece(high, 8)];
    FrontSame(r, [Piece(low, 8), Piece(high, 8)], [Piece(low + 256 * high, 16)], r2);
  }

  lemma TwoBytes(low: nat, high: nat)
    requires low < 256 && high < 256
    ensures Fits(Piece(low, 8)) && Fits(Piece(high, 8)) && Append(low, 8, high) == low + 256 * high
  {
    Pow2Values();
    AppendValue(low, 8, high);
  }

  lemma FrontOfStored(r: Input, at: nat, out: seq<Byte>, cap: nat) returns (bytes: seq<Byte>, skipped: nat)
    requires |out| <= cap && EndsWithByte(r, at) && NextStored(r, out, cap).Ok?
    ensures |bytes| <= 65535 && NextStored(r, out, cap).value == out + bytes
    ensures Front(r, Body(Stored(bytes), Raw(skipped), at), NextStored(r, out, cap).rest)
  {
    hide NextBytes, NextWord, Front, BytePieces, Padding, Aligned;
    var r1 := Aligned(r);
    var size, r2 := NextWord(r1).value, NextWord(r1).rest;
    var complement, r3 := NextWord(r2).value, NextWord(r2).rest;
    var next := NextStored(r, out, cap).rest;
    skipped := PaddingInFront(r, at);
    FrontOfWord(r1);
    FrontOfWord(r2);
    bytes := FrontOfBytes(r3, size, out, cap);
    StoredSplit(bytes, skipped, at);
    FrontConcat(r2, [Piece(complement, 16)], r3, BytePieces(bytes), next);
    FrontConcat(r1, [Piece(size, 16)], r2, [Piece(complement, 16)] + BytePieces(bytes), next);
    FrontConcat(r, Padding(at, skipped), r1, [Piece(size, 16)] + ([Piece(complement, 16)] + BytePieces(bytes)), next);
  }

  lemma FrontOfHead(r: Input)
    requires NextBits(r, 3).Ok?
    ensures var head := NextBits(r, 3).value;
            head < 8 && Front(r, [Piece(head % 2, 1), Piece(head / 2, 2)], NextBits(r, 3).rest)
  {
    hide NextBits, Front, SameBits, Append;
    var head := NextBits(r, 3).value;
    ThreeBits(r);
    HeadBits(head % 2, head / 2);
    TwoAsOne(Piece(head % 2, 1), Piece(head / 2, 2));
    FrontOfBits(r, 3);
    FrontSame(r, [Piece(head % 2, 1), Piece(head / 2, 2)], [Piece(head, 3)], NextBits(r, 3).rest);
  }

  lemma FrontOfOwn(r: Input, out: seq<Byte>, cap: nat) returns (h: Header, tokens: seq<Token>)
    requires |out| <= cap && NextOwn(r, out, cap).Ok? && NextOwn(r, out, cap).rest.clean
    ensures Good(h) && AllCodable(h.lit, h.dist, tokens) && Legal(tokens, |out|) && AllNear(tokens, r.window)
    ensures NextOwn(r, out, cap).value == Expand(tokens, out)
    ensures Front(r, HeaderPieces(h) + BlockPieces(h.lit, h.dist, tokens), NextOwn(r, out, cap).rest)
  {
    hide Good, AllCodable, Front, HeaderPieces, BlockPieces, HeaderCodes, BlockOutput, Legal, Decodable, First, UsedBelow, AllNear;
    var codes, r1 := HeaderCodes(r).value, HeaderCodes(r).rest;
    AcceptedCodes(codes);
    OutputStaysClean(r1, codes.lit, codes.dist, out, cap);
    h := FrontOfCodes(r);
    SameWindow(r, HeaderPieces(h), r1);
    tokens := FrontOfOutput(r1, codes.lit, codes.dist, out, cap);
    FrontConcat(r, HeaderPieces(h), r1, BlockPieces(h.lit, h.dist, tokens), NextOwn(r, out, cap).rest);
  }

  lemma AcceptedCodes(codes: Codes)
    requires Accepted(codes.lit) && Accepted(codes.dist)
    ensures Decodable(codes.lit, codes.dist)
  {
    hide First, UsedBelow;
    AcceptedSum(codes.lit);
    AcceptedSum(codes.dist);
  }

  /** What is read as a block, if it is clean, is the pieces of one. */
  lemma FrontOfBlock(r: Input, at: nat, out: seq<Byte>, cap: nat) returns (b: Block, f: Form)
    requires |out| <= cap && EndsWithByte(r, at) && NextBlock(r, out, cap).Ok? && NextBlock(r, out, cap).rest.clean
    ensures Suits(b, f) && (b.Coded? ==> Legal(b.tokens, |out|)) && NextBlock(r, out, cap).value.out == After(b, out)
    ensures StaysNear(b, r.window)
    ensures Front(r, Whole(b, f, NextBlock(r, out, cap).value.last, at), NextBlock(r, out, cap).rest)
  {
    hide Front, NextBits, NextStored, NextOwn, BlockOutput, Legal, Expand, StaticLit, StaticDist, AllCodable, Good, BitCount,
         HeaderPieces, BlockPieces, Padding, BytePieces, SizeFields, Decodable, AllNear;
    var head, r1 := NextBits(r, 3).value, NextBits(r, 3).rest;
    var next, last := NextBlock(r, out, cap).rest, NextBlock(r, out, cap).value.last;
    FrontOfHead(r);
    SameWindow(r, [Piece(head % 2, 1), Piece(head / 2, 2)], r1);
    assert EndsWithByte(r1, at + 3);
    if head / 2 == 0 {
      var bytes, skipped := FrontOfStored(r1, at + 3, out, cap);
      b, f := Stored(bytes), Raw(skipped);
    } else if head / 2 == 1 {
      StaticIsDecodable();
      var tokens := FrontOfOutput(r1, StaticLit(), StaticDist(), out, cap);
      b, f := Coded(tokens), Fixed;
    } else {
      var h, tokens := FrontOfOwn(r1, out, cap);
      b, f := Coded(tokens), Own(h);
    }
    FrontConcat(r, [Piece(if last then 1 else 0, 1), Piece(TypeOf(f), 2)], r1, Body(b, f, at + 3), next);
  }

  lemma BlockStaysClean(r: Input, out: seq<Byte>, cap: nat)
    requires |out| <= cap && NextBlock(r, out, cap).Ok? && NextBlock(r, out, cap).rest.clean
    ensures r.clean
  {
    hide BitCount, Front, NextBlock, Whole, Suits, Legal, Expand;
    assert EndsWithByte(r, 7 * r.left);
    var b, f := FrontOfBlock(r, 7 * r.left, out, cap);
    SameWindow(r, Whole(b, f, NextBlock(r, out, cap).value.last, 7 * r.left), NextBlock(r, out, cap).rest);
  }

  lemma {:induction false} BlocksStayClean(r: Input, out: seq<Byte>, cap: nat)
    requires |out| <= cap && NextBlocks(r, out, cap).Ok? && NextBlocks(r, out, cap).rest.clean
    ensures r.clean && NextBlock(r, out, cap).Ok? && NextBlock(r, out, cap).rest.clean
    decreases r.left
  {
    hide NextBlock;
    var p := NextBlock(r, out, cap);
    if !p.value.last { BlocksStayClean(p.rest, p.value.out, cap); }
    BlockStaysClean(r, out, cap);
  }

  /** A list of blocks with another one behind it, so that none of them is the last. */
  ghost function Open(blocks: seq<Block>): seq<Block> {
    blocks + [Stored([])]
  }

  lemma InflateOneMore(blocks: seq<Block>, b: Block)
    requires Inflate(blocks).Bytes? && (b.Coded? ==> Legal(b.tokens, |Inflate(blocks).bytes|))
    ensures Inflate(blocks + [b]) == Bytes(After(b, Inflate(blocks).bytes))
  {
    hide Legal, Expand;
    assert (blocks + [b])[..|blocks|] == blocks;
  }

  /** After the blocks that were read so far, one more. */
  lemma OneMoreInFront(r: Input, done: seq<Block>, forms: seq<Form>, at: nat, mid: Input, b: Block, f: Form, last: bool, next: Input)
    requires AllSuit(done, forms) && |forms| == |done| && Suits(b, f)
    requires AllSuit(Open(done), forms) && Front(r, Blocks(Open(done), forms, at, |done|), mid)
    requires Front(mid, Whole(b, f, last, at + BitCount(Blocks(Open(done), forms, at, |done|))), next)
    ensures var all := done + [b];
            && AllSuit(all, forms + [f]) && AllSuit(Open(all), forms + [f])
            && Front(r, Blocks(if last then all else Open(all), forms + [f], at, |all|), next)
  {
    hide Suits, Whole, BitCount, Front;
    var all, n := done + [b], |done|;
    var longer := if last then all else Open(all);
    forall i | 0 <= i <= n ensures Suits(all[i], (forms + [f])[i]) && Suits(longer[i], (forms + [f])[i]) && Suits(Open(all)[i], (forms + [f])[i]) {
      assert i < n ==> all[i] == done[i] && (forms + [f])[i] == forms[i];
      assert longer[i] == all[i] && Open(all)[i] == all[i];
    }
    var w := Whole(b, f, last, at + BitCount(Blocks(Open(done), forms, at, n)));
    FrontConcat(r, Blocks(Open(done), forms, at, n), mid, w, next);
    assert AllSuit(longer, forms);
    SameForms(longer, Open(done), forms, f, at, n);
    assert Blocks(longer, forms + [f], at, n + 1) == Blocks(Open(done), forms, at, n) + w;
  }

  lemma {:induction false} SameForms(longer: seq<Block>, open: seq<Block>, forms: seq<Form>, f: Form, at: nat, n: nat)
    requires AllSuit(longer, forms + [f]) && AllSuit(open, forms) && n <= |forms| < |longer| && |forms| < |open|
    requires forall i :: 0 <= i < |forms| ==> longer[i] == open[i]
    ensures Blocks(longer, forms + [f], at, n) == Blocks(open, forms, at, n)
    decreases n
  {
    hide Suits, Whole, BitCount;
    if n > 0 { SameForms(longer, open, forms, f, at, n - 1); }
  }

  /** What is read as blocks, if it is clean, is the pieces of blocks that inflate to the output; `done` are those
      that were read before. */
  lemma {:induction false} FrontOfBlocks(start: Input, done: seq<Block>, forms: seq<Form>, at: nat, r: Input, cap: nat)
    returns (blocks: seq<Block>, all: seq<Form>)
    requires AllSuit(done, forms) && |forms| == |done| && AllSuit(Open(done), forms) && Inflate(done).Bytes? && |Inflate(done).bytes| <= cap
    requires Front(start, Blocks(Open(done), forms, at, |done|), r) && EndsWithByte(start, at) && AllStayNear(done, start.window)
    requires NextBlocks(r, Inflate(done).bytes, cap).Ok? && NextBlocks(r, Inflate(done).bytes, cap).rest.clean
    ensures blocks != [] && AllSuit(blocks, all) && |all| == |blocks| && AllStayNear(blocks, start.window)
    ensures Inflate(blocks) == Bytes(NextBlocks(r, Inflate(done).bytes, cap).value)
    ensures Front(start, Blocks(blocks, all, at, |blocks|), NextBlocks(r, Inflate(done).bytes, cap).rest)
    decreases r.left
  {
    hide Front, NextBlock, Suits, Whole, BitCount, Inflate, Legal, Expand, Blocks, StaysNear;
    var out := Inflate(done).bytes;
    var p := NextBlock(r, out, cap);
    var ps := Blocks(Open(done), forms, at, |done|);
    BlocksStayClean(r, out, cap);
    FrontLeft(start, ps, r);
    SameWindow(start, ps, r);
    assert EndsWithByte(r, at + BitCount(ps));
    var b, f := FrontOfBlock(r, at + BitCount(ps), out, cap);
    OneMoreInFront(start, done, forms, at, r, b, f, p.value.last, p.rest);
    InflateOneMore(done, b);
    if p.value.last {
      blocks, all := done + [b], forms + [f];
    } else {
      blocks, all := FrontOfBlocks(start, done + [b], forms + [f], at, p.rest, cap);
    }
  }

  // ---------------------------------------------------------------- the size of the output buffer

  lemma {:induction false} MoreRoomForOutput(r: Input, lit: Sizes, dist: Sizes, out: seq<Byte>, cap: nat, more: nat)
    requires |out| <= cap <= more && BlockOutput(r, lit, dist, out, cap).Ok?
    ensures BlockOutput(r, lit, dist, out, more) == BlockOutput(r, lit, dist, out, cap)
    decreases cap - |out|
  {
    hide NextItem, Emit;
    var i := NextItem(r, lit, dist);
    if i.value.Of? { MoreRoomForOutput(i.rest, lit, dist, Emit(i.value.token, out), cap, more); }
  }

  lemma {:induction false} MoreRoomForBytes(r: Input, n: nat, out: seq<Byte>, cap: nat, more: nat)
    requires |out| <= cap <= more && NextBytes(r, n, out, cap).Ok?
    ensures NextBytes(r, n, out, more) == NextBytes(r, n, out, cap)
    decreases n
  {
    hide NextBits;
    if n > 0 {
      EightBits(r);
      MoreRoomForBytes(NextBits(r, 8).rest, n - 1, out + [NextBits(r, 8).value], cap, more);
    }
  }

  lemma MoreRoomForBlock(r: Input, out: seq<Byte>, cap: nat, more: nat)
    requires |out| <= cap <= more && NextBlock(r, out, cap).Ok?
    ensures NextBlock(r, out, more) == NextBlock(r, out, cap)
  {
    hide NextBits, NextWord, NextBytes, HeaderCodes, BlockOutput, StaticLit, StaticDist;
    var head, r1 := NextBits(r, 3).value, NextBits(r, 3).rest;
    if head / 2 == 0 {
      var size, r2 := NextWord(Aligned(r1)).value, NextWord(Aligned(r1)).rest;
      MoreRoomForBytes(NextWord(r2).rest, size, out, cap, more);
    } else if head / 2 == 1 {
      MoreRoomForOutput(r1, StaticLit(), StaticDist(), out, cap, more);
    } else {
      var codes, r2 := HeaderCodes(r1).value, HeaderCodes(r1).rest;
      MoreRoomForOutput(r2, codes.lit, codes.dist, out, cap, more);
    }
  }

  /** More room in the output buffer does not change what is read. */
  lemma {:induction false} MoreRoomForBlocks(r: Input, out: seq<Byte>, cap: nat, more: nat)
    requires |out| <= cap <= more && NextBlocks(r, out, cap).Ok?
    ensures NextBlocks(r, out, more) == NextBlocks(r, out, cap)
    decreases r.left
  {
    hide NextBlock;
    MoreRoomForBlock(r, out, cap, more);
    var p := NextBlock(r, out, cap);
    if !p.value.last { MoreRoomForBlocks(p.rest, p.value.out, cap, more); }
  }
}
