/** Bit strings as the pieces they are written in with `TDEFL_PUT_BITS` and read back in with
    `TINFL_GET_BITS` of `src/miniz.c`. */
module BitPieces {
  import opened Bits
  import opened HuffmanCode
  import opened HuffmanEncoder
  import opened HuffmanDecoder

  /** `width` bits, written low bit first. */
  datatype Piece = Piece(bits: nat, width: nat)

  ghost predicate Fits(p: Piece) {
    p.width <= 16 && p.bits < Pow2(p.width)
  }

  ghost predicate AllFit(ps: seq<Piece>) {
    forall i :: 0 <= i < |ps| ==> Fits(ps[i])
  }

  ghost function BitCount(ps: seq<Piece>): nat {
    if ps == [] then 0 else ps[0].width + BitCount(ps[1..])
  }

  /** The pieces one after the other, as the low bits of a number. */
  ghost function Packed(ps: seq<Piece>): nat {
    if ps == [] then 0 else Append(ps[0].bits, ps[0].width, Packed(ps[1..]))
  }

  lemma {:induction false} PackedConcat(p: seq<Piece>, q: seq<Piece>)
    ensures BitCount(p + q) == BitCount(p) + BitCount(q)
    ensures Packed(p + q) == Append(Packed(p), BitCount(p), Packed(q))
  {
    if p == [] {
      assert p + q == q;
    } else {
      assert (p + q)[1..] == p[1..] + q;
      PackedConcat(p[1..], q);
      AppendAssociates(p[0].bits, p[0].width, Packed(p[1..]), BitCount(p[1..]), Packed(q));
    }
  }

  lemma PackedOne(p: Piece)
    requires Fits(p)
    ensures Packed([p]) == p.bits && BitCount([p]) == p.width
  {
    assert [p][1..] == [];
    AppendNothing(p.bits, p.width);
  }

  /** The same bits in another division. */
  ghost predicate SameBits(p: seq<Piece>, q: seq<Piece>) {
    AllFit(p) && AllFit(q) && BitCount(p) == BitCount(q) && Packed(p) == Packed(q)
  }

  /** Two pieces can be read as one. */
  lemma TwoAsOne(a: Piece, b: Piece)
    requires Fits(a) && Fits(b) && a.width + b.width <= 16
    ensures SameBits([a, b], [Piece(Append(a.bits, a.width, b.bits), a.width + b.width)])
  {
    hide Packed, BitCount, Pow2, Append;
    assert [a, b] == [a] + [b];
    PackedConcat([a], [b]);
    PackedOne(a);
    PackedOne(b);
    AppendBound(a.bits, a.width, b.bits, b.width);
    PackedOne(Piece(Append(a.bits, a.width, b.bits), a.width + b.width));
  }

  /** One piece can be read as two. */
  lemma OneAsTwo(bits: nat, m: nat, n: nat)
    requires Fits(Piece(bits, m + n))
    ensures SameBits([Piece(bits, m + n)], [Piece(Low(bits, m), m), Piece(Shr(bits, m), n)])
  {
    hide Packed, BitCount, Pow2, Append, Low, Shr;
    Pow2Monotone(m, m + n);
    AppendSplit(bits, m);
    ShrBound(bits, m, m + n);
    TwoAsOne(Piece(Low(bits, m), m), Piece(Shr(bits, m), n));
  }

  // ---------------------------------------------------------------- writing

  /** Everything written so far is the pieces. */
  ghost predicate Wrote(w: BitWriter, ps: seq<Piece>)
    reads w
  {
    w.Valid() && AllFit(ps) && w.Length() == BitCount(ps) && w.Stream() == Packed(ps)
  }

  lemma WroteNothing(w: BitWriter)
    requires w.Valid() && w.Stream() == 0 && w.Length() == 0
    ensures Wrote(w, [])
  {
  }

  method Put(w: BitWriter, bits: nat, width: nat, ghost ps: seq<Piece>)
    requires Wrote(w, ps) && Fits(Piece(bits, width))
    modifies w
    ensures Wrote(w, ps + [Piece(bits, width)])
  {
    hide Packed, BitCount;
    PackedConcat(ps, [Piece(bits, width)]);
    PackedOne(Piece(bits, width));
    w.PutBits(bits, width);
  }

  /** With no bits waiting, the bytes hold all pieces. */
  lemma WholeBytes(w: BitWriter, ps: seq<Piece>)
    requires Wrote(w, ps) && BitCount(ps) % 8 == 0
    ensures BytesValue(w.output) == Packed(ps) && 8 * |w.output| == BitCount(ps)
  {
    hide Packed, BitCount;
    assert w.bitsIn == 0 && w.bitBuffer == 0;
    BytesBound(w.output);
    AppendNothing(BytesValue(w.output), 8 * |w.output|);
  }

  lemma {:induction false} BytesBound(bytes: seq<Byte>)
    ensures BytesValue(bytes) < Pow2(8 * |bytes|)
  {
    if bytes != [] {
      BytesBound(bytes[1..]);
      AppendBound(bytes[0], 8, BytesValue(bytes[1..]), 8 * |bytes| - 8);
    }
  }

  // ---------------------------------------------------------------- reading

  /** The input that is not taken yet: its bits, how many there are, whether all that was taken before is something
      that the standards give a meaning to, and the largest distance that the stream has declared for itself. */
  datatype Input = Input(bits: nat, left: nat, clean: bool, window: nat)

  /** Why the inflater stops before the end of a stream.  At the last two the model stops where the source does not:
      at the symbols 30 and 31 for distances, which copy whatever is in the buffer, and in front of a write behind
      the buffer. */
  datatype Status = NeedsMoreInput | HasMoreOutput | Failed | AdlerMismatch | Undefined | Overrun

  /** What reading something from an input gives: a value and the input behind it. */
  datatype Read<+T> = Ok(value: T, rest: Input) | Fail(why: Status) {
    predicate IsFailure() { Fail? }
    function PropagateFailure<U>(): Read<U>
      requires Fail?
    {
      Fail(why)
    }
    function Extract(): (T, Input)
      requires Ok?
    {
      (value, rest)
    }
  }

  /** The same for a method, which keeps the input in the reader. */
  datatype Reply<+T> = Value(value: T) | Stop(why: Status) {
    predicate IsFailure() { Stop? }
    function PropagateFailure<U>(): Reply<U>
      requires Stop?
    {
      Stop(why)
    }
    function Extract(): T
      requires Value?
    {
      value
    }
  }

  ghost predicate Agrees<T>(reply: Reply<T>, after: Input, spec: Read<T>) {
    match spec
    case Ok(v, rest) => reply == Value(v) && after == rest
    case Fail(why) => reply == Stop(why)
  }

  /** The next `n` bits. */
  function NextBits(r: Input, n: nat): (v: Read<nat>)
    ensures v.Ok? ==> v.rest.left == r.left - n
  {
    if r.left < n then Fail(NeedsMoreInput) else Ok(Low(r.bits, n), r.(bits := Shr(r.bits, n), left := r.left - n))
  }

  /** The next symbol of a code.  At the end of the input more is asked for only if it is needed. */
  ghost function NextSymbol(r: Input, sizes: Sizes): (v: Read<nat>)
    ensures v.Ok? ==> v.rest.left <= r.left
  {
    var (s, n) := Decoded(r.bits, sizes);
    if r.left >= MAX_BITS || (n > 0 && r.left >= n)
    then Ok(s, r.(bits := Shr(r.bits, n), left := r.left - n, clean := r.clean && Spelled(r.bits, sizes)))
    else Fail(NeedsMoreInput)
  }

  lemma BitsBelow(r: Input, n: nat)
    requires NextBits(r, n).Ok?
    ensures NextBits(r, n).value < Pow2(n) && NextBits(r, n).rest.clean == r.clean && NextBits(r, n).rest.window == r.window
  {
  }

  lemma SymbolStaysClean(r: Input, sizes: Sizes)
    requires NextSymbol(r, sizes).Ok?
    ensures NextSymbol(r, sizes).rest.window == r.window && (NextSymbol(r, sizes).rest.clean ==> r.clean)
  {
  }

  /** Without the bits up to the next byte, for an input that ends with a byte. */
  function Aligned(r: Input): Input {
    r.(bits := Shr(r.bits, r.left % 8), left := r.left - r.left % 8)
  }

  class BitReader {
    var bits: nat
    var left: nat
    ghost var clean: bool
    ghost var window: nat

    ghost function Ahead(): Input
      reads this
    {
      Input(bits, left, clean, window)
    }

    constructor (input: seq<Byte>, ghost window: nat)
      ensures Ahead() == Input(BytesValue(input), 8 * |input|, true, window)
    {
      bits, left, clean, this.window := BytesValue(input), 8 * |input|, true, window;
    }

    /** `TINFL_GET_BITS`, with all input in the buffer. */
    method Get(n: nat) returns (v: Reply<nat>)
      modifies this
      ensures Agrees(v, Ahead(), NextBits(old(Ahead()), n))
    {
      if left < n {
        return Stop(NeedsMoreInput);
      }
      v := Value(Low(bits, n));
      bits, left := Shr(bits, n), left - n;
    }

    /** Extra bits, if there are any. */
    method GetExtra(n: nat) returns (v: Reply<nat>)
      modifies this
      ensures Agrees(v, Ahead(), NextBits(old(Ahead()), n))
    {
      v := Value(0);
      if n > 0 {
        v := Get(n);
      }
    }

    /** `TINFL_SKIP_BITS(num_bits & 7)`. */
    method Align()
      modifies this
      ensures Ahead() == Aligned(old(Ahead()))
    {
      bits, left := Shr(bits, left % 8), left - left % 8;
    }

    /** `TINFL_HUFF_DECODE`. */
    method Decode(table: DecodeTable, ghost sizes: Sizes) returns (symbol: Reply<nat>)
      requires table.Decodes(sizes)
      modifies this
      ensures Agrees(symbol, Ahead(), NextSymbol(old(Ahead()), sizes))
    {
      hide DecodeTable.Decodes, Decoded, Spelled, Shr;
      var s, codeLen := table.Decode(bits, sizes);
      if left < MAX_BITS && (codeLen == 0 || left < codeLen) {
        return Stop(NeedsMoreInput);
      }
      clean := clean && Spelled(bits, sizes);
      bits, left := Shr(bits, codeLen), left - codeLen;
      return Value(s);
    }
  }

  // ---------------------------------------------------------------- pieces in front

  /** The pieces are in front of the input, and then comes `next`. */
  ghost predicate Front(r: Input, ps: seq<Piece>, next: Input) {
    && AllFit(ps)
    && r.bits == Append(Packed(ps), BitCount(ps), next.bits)
    && r.left == BitCount(ps) + next.left
    && r.clean == next.clean && r.window == next.window
  }

  lemma FrontNothing(r: Input)
    ensures Front(r, [], r)
  {
  }

  lemma FrontConcat(r: Input, p: seq<Piece>, mid: Input, q: seq<Piece>, next: Input)
    requires Front(r, p, mid) && Front(mid, q, next)
    ensures Front(r, p + q, next)
  {
    hide Packed, BitCount, Append;
    PackedConcat(p, q);
    AppendAssociates(Packed(p), BitCount(p), Packed(q), BitCount(q), next.bits);
  }

  lemma FrontSplit(r: Input, p: seq<Piece>, q: seq<Piece>, next: Input) returns (mid: Input)
    requires Front(r, p + q, next)
    ensures Front(r, p, mid) && Front(mid, q, next)
  {
    hide Packed, BitCount, Append;
    PackedConcat(p, q);
    AppendAssociates(Packed(p), BitCount(p), Packed(q), BitCount(q), next.bits);
    mid := Input(Append(Packed(q), BitCount(q), next.bits), BitCount(q) + next.left, r.clean, r.window);
    assert forall i :: 0 <= i < |p| ==> p[i] == (p + q)[i];
    assert forall i :: 0 <= i < |q| ==> q[i] == (p + q)[|p| + i];
  }

  lemma FrontSame(r: Input, p: seq<Piece>, q: seq<Piece>, next: Input)
    requires SameBits(p, q)
    ensures Front(r, p, next) <==> Front(r, q, next)
  {
  }

  /** A piece in front is what is read. */
  lemma BitsOfFront(r: Input, p: Piece, next: Input)
    requires Front(r, [p], next)
    ensures NextBits(r, p.width) == Ok(p.bits, next)
  {
    hide Packed, BitCount, Append, Low, Shr;
    assert Fits([p][0]);
    PackedOne(p);
    AppendKeepsLow(p.bits, p.width, next.bits);
    LowOfSmall(p.bits, p.width);
  }

  /** What is read was a piece in front. */
  lemma FrontOfBits(r: Input, n: nat)
    requires n <= 16 && NextBits(r, n).Ok?
    ensures Front(r, [Piece(NextBits(r, n).value, n)], NextBits(r, n).rest)
  {
    hide Packed, BitCount, Append, Low, Shr;
    var p := Piece(Low(r.bits, n), n);
    PackedOne(p);
    AppendSplit(r.bits, n);
  }

  lemma SymbolOfFront(r: Input, sizes: Sizes, s: nat, next: Input)
    requires Used(sizes, s) && First(sizes, 16) <= 65536 && Front(r, [CodePiece(sizes, s)], next)
    ensures NextSymbol(r, sizes) == Ok(s, next)
  {
    hide Packed, BitCount, Append, Low, Shr, First, CodeWord, Decoded, Spelled;
    BitsOfFront(r, CodePiece(sizes, s), next);
    SpellsLow(r.bits, sizes, s);
    DecodedSymbol(r.bits, sizes, s);
  }

  lemma FrontOfSymbol(r: Input, sizes: Sizes)
    requires First(sizes, 16) <= 65536 && NextSymbol(r, sizes).Ok? && NextSymbol(r, sizes).rest.clean
    ensures var s := NextSymbol(r, sizes).value; Used(sizes, s) && Front(r, [CodePiece(sizes, s)], NextSymbol(r, sizes).rest)
  {
    hide Packed, BitCount, Append, Low, Shr, First, CodeWord, Front;
    var s: nat :| Spells(r.bits, sizes, s);
    DecodedSymbol(r.bits, sizes, s);
    SpellsLow(r.bits, sizes, s);
    FrontOfBits(r, sizes[s]);
  }

  function CodePiece(sizes: Sizes, s: nat): (p: Piece)
    requires s < |sizes|
    ensures Fits(p)
  {
    Piece(CodeWord(sizes, s), sizes[s])
  }
}
