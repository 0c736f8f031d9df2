/** The codes of a block as `tinfl_decompress` of `src/miniz.c` reads them, from whatever input (section 3.2.3 of
    RFC 1951). */
module InflateBlock {
  import opened Bits
  import opened HuffmanCode
  import opened HuffmanDecoder
  import opened BitPieces
  import opened LzTokens
  import opened DeflateSymbols
  import opened DeflateBlock
  import MatchCopy

  // ---------------------------------------------------------------- what the bits mean

  datatype Item = End | Of(token: Token)

  /** A length and a distance, after the symbol of the length.  Tolerated, but not clean, are the symbols 286 and 287,
      which stand for no length, the length 258 written with symbol 284, and a distance beyond the window. */
  ghost function NextMatch(r: Input, s: nat, dist: Sizes): (t: Read<Token>)
    requires 257 <= s <= 287
    ensures t.Ok? ==> t.rest.left <= r.left && t.value.Match? && Readable(t.value)
  {
    var (e, r1) :- NextBits(r, LengthBits(s));
    var (ds, r2) :- NextSymbol(r1, dist);
    if ds > 29 then Fail(Undefined)
    else
      var (de, r3) :- NextBits(r2, DistBits(ds));
      ReadableMatch(s, e, ds, de);
      var t := Match(LengthBase(s) + e, DistBase(ds) + de);
      Ok(t, r3.(clean := r3.clean && s <= 285 && !(s == 284 && e == 31) && Near(t, r3.window)))
  }

  /** What can be read as a token. */
  predicate Readable(t: Token) {
    t.Match? ==> (t.len == 0 || MIN_MATCH <= t.len <= MAX_MATCH) && 1 <= t.dist <= DICT_SIZE
  }

  lemma ReadableMatch(s: nat, e: nat, ds: nat, de: nat)
    requires 257 <= s <= 287 && e < Pow2(LengthBits(s)) && ds <= 29 && de < Pow2(DistBits(ds))
    ensures Readable(Match(LengthBase(s) + e, DistBase(ds) + de))
  {
    hide LengthBase, LengthBits, DistBase, DistBits, Pow2;
    if s <= 285 { LengthGoesBack(s, e); } else { NoLength(s); PowerOfNothing(); }
    DistanceGoesBack(ds, de);
  }

  lemma PowerOfNothing()
    ensures Pow2(0) == 1
  {
  }

  /** The distance is inside the declared window. */
  predicate Near(t: Token, window: nat) {
    t.Match? ==> t.dist <= window
  }

  ghost predicate AllNear(tokens: seq<Token>, window: nat) {
    forall i :: 0 <= i < |tokens| ==> Near(tokens[i], window)
  }

  ghost function NextItem(r: Input, lit: Sizes, dist: Sizes): (i: Read<Item>)
    ensures i.Ok? ==> i.rest.left <= r.left
    ensures i.Ok? && i.value.Of? ==> Readable(i.value.token)
  {
    var (s, r1) :- NextSymbol(r, lit);
    if s == END_OF_BLOCK then Ok(End, r1)
    else if s < END_OF_BLOCK then Ok(Of(Literal(s)), r1)
    else if s > 287 then Fail(Undefined)
    else
      var (t, r2) :- NextMatch(r1, s, dist);
      Ok(Of(t), r2)
  }

  /** How many bytes are written for a token; for a length of 0 that is three. */
  function Written(t: Token): (n: nat)
    ensures n >= Width(t) && n >= 1
  {
    match t case Literal(_) => 1 case Match(len, _) => MatchCopy.Reach(len)
  }

  function Emit(t: Token, out: seq<Byte>): (r: seq<Byte>)
    requires t.Match? ==> 1 <= t.dist <= |out|
    ensures |r| == |out| + Written(t) && r[..|out|] == out
  {
    match t
    case Literal(b) => out + [b]
    case Match(len, d) => CopyBack(out, d, MatchCopy.Reach(len))
  }

  /** The output after a block of codes, for an output buffer of `cap` bytes. */
  ghost function BlockOutput(r: Input, lit: Sizes, dist: Sizes, out: seq<Byte>, cap: nat): (o: Read<seq<Byte>>)
    requires |out| <= cap
    ensures o.Ok? ==> |out| <= |o.value| <= cap && o.rest.left <= r.left
    decreases cap - |out|
  {
    var (i, r1) :- NextItem(r, lit, dist);
    match i
    case End => Ok(out, r1)
    case Of(t) =>
      if t.Match? && t.dist > |out| then Fail(Failed)
      else if |out| + Width(t) > cap then Fail(HasMoreOutput)
      else if |out| + Written(t) > cap then Fail(Overrun)
      else BlockOutput(r1, lit, dist, Emit(t, out), cap)
  }

  // ---------------------------------------------------------------- reading

  /** Lines 1607 to 1612, after the symbol of the length. */
  method ReadMatch(r: BitReader, distTable: DecodeTable, ghost dist: Sizes, counter: nat) returns (t: Reply<Token>)
    requires 257 <= counter <= 287 && distTable.Decodes(dist)
    modifies r
    ensures Agrees(t, r.Ahead(), NextMatch(old(r.Ahead()), counter, dist))
  {
    hide DecodeTable.Decodes, NextBits, NextSymbol, Near, LengthBase, LengthBits, DistBase, DistBits;
    var extraBits :- r.GetExtra(LengthBits(counter));
    var matchLen := LengthBase(counter) + extraBits;
    var symbol :- r.Decode(distTable, dist);
    if symbol > 29 {
      return Stop(Undefined);
    }
    ghost var clean := counter <= 285 && !(counter == 284 && extraBits == 31);
    extraBits :- r.GetExtra(DistBits(symbol));
    var found := Match(matchLen, DistBase(symbol) + extraBits);
    r.clean := r.clean && clean && Near(found, r.window);
    return Value(found);
  }

  /** Lines 1559 to 1612: the end of the block, a literal or a match. */
  method ReadItem(r: BitReader, litTable: DecodeTable, distTable: DecodeTable, ghost lit: Sizes, ghost dist: Sizes)
      returns (i: Reply<Item>)
    requires litTable.Decodes(lit) && distTable.Decodes(dist)
    modifies r
    ensures Agrees(i, r.Ahead(), NextItem(old(r.Ahead()), lit, dist))
  {
    hide DecodeTable.Decodes, NextSymbol, NextMatch;
    var counter :- r.Decode(litTable, lit);
    if counter == END_OF_BLOCK {
      return Value(End);
    }
    if counter < END_OF_BLOCK {
      return Value(Of(Literal(counter)));
    }
    if counter > 287 {
      return Stop(Undefined);
    }
    var t :- ReadMatch(r, distTable, dist, counter);
    return Value(Of(t));
  }

  /** What the output buffer holds agrees with what it should. */
  ghost predicate Holds(cur: Reply<nat>, buf: seq<Byte>, after: Input, spec: Read<seq<Byte>>) {
    match spec
    case Ok(out, rest) => cur == Value(|out|) && |out| <= |buf| && buf[..|out|] == out && after == rest
    case Fail(why) => cur == Stop(why)
  }

  /** A literal or a match goes into the output buffer.  With a length of 0 the writes stay inside it exactly if three
      bytes are free. */
  method PutToken(buf: array<Byte>, cur: nat, t: Token) returns (next: Reply<nat>)
    requires cur <= buf.Length && Readable(t)
    modifies buf
    ensures next == (if t.Match? && t.dist > cur then Stop(Failed) else if cur + Width(t) > buf.Length then Stop(HasMoreOutput)
                     else if t.Match? && t.len == 0 && cur + 3 > buf.Length then Stop(Overrun) else Value(cur + Written(t)))
    ensures next.Value? ==> buf[..next.value] == Emit(t, old(buf[..cur]))
  {
    hide CopyBack, MatchCopy.Sequential;
    match t
    case Literal(b) =>
      if cur >= buf.Length {
        return Stop(HasMoreOutput);
      }
      buf[cur] := b;
      assert buf[..cur + 1] == old(buf[..cur]) + [b];
      return Value(cur + 1);
    case Match(len, d) =>
      var r := MatchCopy.CopyMatch(buf, cur, d, len, false);
      match r
      case Failed => return Stop(Status.Failed);
      case HasMoreOutput(_, _) => return Stop(Status.HasMoreOutput);
      case Overrun => return Stop(Status.Overrun);
      case Copied(next) => return Value(next);
  }

  /** The loop over the symbols of a block (lines 1552 to 1668). */
  method ReadBlock(r: BitReader, litTable: DecodeTable, distTable: DecodeTable, ghost lit: Sizes, ghost dist: Sizes,
                   buf: array<Byte>, start: nat) returns (cur: Reply<nat>)
    requires litTable.Decodes(lit) && distTable.Decodes(dist) && start <= buf.Length
    modifies r, buf
    ensures Holds(cur, buf[..], r.Ahead(), BlockOutput(old(r.Ahead()), lit, dist, old(buf[..start]), buf.Length))
  {
    hide DecodeTable.Decodes, NextItem, Emit;
    var at := start;
    while true
      invariant at <= buf.Length && litTable.Decodes(lit) && distTable.Decodes(dist)
      invariant BlockOutput(r.Ahead(), lit, dist, buf[..at], buf.Length) == BlockOutput(old(r.Ahead()), lit, dist, old(buf[..start]), buf.Length)
      decreases buf.Length - at
    {
      var i :- ReadItem(r, litTable, distTable, lit, dist);
      match i
      case End =>
        assert buf[..][..at] == buf[..at];
        return Value(at);
      case Of(t) =>
        at :- PutToken(buf, at, t);
    }
  }

  // ---------------------------------------------------------------- what is written is read

  ghost predicate Decodable(lit: Sizes, dist: Sizes) {
    First(lit, 16) <= 65536 && First(dist, 16) <= 65536
  }

  lemma MatchSplit(lit: Sizes, dist: Sizes, t: Token)
    requires t.Match? && Codable(lit, dist, t)
    ensures var x, y := t.len - 3, t.dist - 1;
            TokenPieces(lit, dist, t)
              == [CodePiece(lit, LenSym(x))] + ([ExtraPiece(x, LenExtra(x))] + ([CodePiece(dist, DistSym(y))] + [ExtraPiece(y, DistExtra(y))]))
  {
    hide LenSym, LenExtra, DistSym, DistExtra, CodePiece, ExtraPiece;
  }

  lemma SameWindow(r: Input, ps: seq<Piece>, next: Input)
    requires Front(r, ps, next)
    ensures r.window == next.window && r.clean == next.clean
  {
  }

  /** The pieces of a token are read as that token. */
  lemma ItemOfFront(r: Input, lit: Sizes, dist: Sizes, t: Token, next: Input)
    requires Decodable(lit, dist) && Codable(lit, dist, t) && Near(t, r.window) && Front(r, TokenPieces(lit, dist, t), next)
    ensures NextItem(r, lit, dist) == Ok(Of(t), next)
  {
    hide LenSym, LenExtra, DistSym, DistExtra, CodePiece, LengthBase, LengthBits, DistBase, DistBits, NextSymbol, NextBits, Front, Pow2, First;
    match t
    case Literal(b) =>
      SymbolOfFront(r, lit, b, next);
    case Match(len, d) =>
      var x, y := len - 3, d - 1;
      MatchSplit(lit, dist, t);
      var a, b, c, e := [CodePiece(lit, LenSym(x))], [ExtraPiece(x, LenExtra(x))], [CodePiece(dist, DistSym(y))], [ExtraPiece(y, DistExtra(y))];
      var r1 := FrontSplit(r, a, b + (c + e), next);
      var r2 := FrontSplit(r1, b, c + e, next);
      var r3 := FrontSplit(r2, c, e, next);
      SymbolOfFront(r, lit, LenSym(x), r1);
      BitsOfFront(r1, ExtraPiece(x, LenExtra(x)), r2);
      SymbolOfFront(r2, dist, DistSym(y), r3);
      BitsOfFront(r3, ExtraPiece(y, DistExtra(y)), next);
      LengthComesBack(x);
      DistanceComesBack(y);
      SameWindow(r, a, r1);
      SameWindow(r1, b, r2);
      SameWindow(r2, c, r3);
      SameWindow(r3, e, next);
  }

  /** For the lengths that streams use, what is emitted is what the token stands for. */
  lemma LegalIsEmitted(t: Token, out: seq<Byte>)
    requires t.Match? ==> LegalMatch(t.len, t.dist, |out|)
    ensures Emit(t, out) == Produce(t, out) && Written(t) == Width(t)
  {
  }

  lemma EndOfFront(r: Input, lit: Sizes, dist: Sizes, next: Input)
    requires Decodable(lit, dist) && Used(lit, END_OF_BLOCK) && Front(r, [CodePiece(lit, END_OF_BLOCK)], next)
    ensures NextItem(r, lit, dist) == Ok(End, next)
  {
    SymbolOfFront(r, lit, END_OF_BLOCK, next);
  }

  /** The pieces of a block of codes give what its tokens stand for, if there is room. */
  lemma {:induction false} OutputOfFront(r: Input, lit: Sizes, dist: Sizes, tokens: seq<Token>, out: seq<Byte>, cap: nat, next: Input)
    requires Decodable(lit, dist) && AllCodable(lit, dist, tokens) && Legal(tokens, |out|) && |out| + Size(tokens) <= cap
    requires AllNear(tokens, r.window) && Front(r, BlockPieces(lit, dist, tokens), next)
    ensures BlockOutput(r, lit, dist, out, cap) == Ok(Expand(tokens, out), next)
    decreases |tokens|
  {
    hide NextItem, Front, CodePiece, TokenPieces, Codable, Decodable, Produce, Emit, Written, Near;
    if tokens == [] {
      EndOfFront(r, lit, dist, next);
    } else {
      var mid := FrontSplit(r, TokenPieces(lit, dist, tokens[0]), BlockPieces(lit, dist, tokens[1..]), next);
      ItemOfFront(r, lit, dist, tokens[0], mid);
      SameWindow(r, TokenPieces(lit, dist, tokens[0]), mid);
      LegalIsEmitted(tokens[0], out);
      OutputOfFront(mid, lit, dist, tokens[1..], Produce(tokens[0], out), cap, next);
    }
  }

  // ---------------------------------------------------------------- what is read was written

  lemma FrontOfMatch(r: Input, s: nat, dist: Sizes) returns (x: nat, y: nat)
    requires 257 <= s <= 287 && First(dist, 16) <= 65536 && NextMatch(r, s, dist).Ok? && NextMatch(r, s, dist).rest.clean
    ensures var t := NextMatch(r, s, dist).value;
            && t.len >= 3 && Near(t, r.window) && x == t.len - 3 < 256 && y == t.dist - 1 < 32768 && LenSym(x) == s && Used(dist, DistSym(y)) && r.clean
            && Front(r, [ExtraPiece(x, LenExtra(x))] + ([CodePiece(dist, DistSym(y))] + [ExtraPiece(y, DistExtra(y))]), NextMatch(r, s, dist).rest)
  {
    hide LenSym, LenExtra, DistSym, DistExtra, CodePiece, LengthBase, LengthBits, DistBase, DistBits, NextSymbol, NextBits, Front, Pow2, First, Near;
    var t := NextMatch(r, s, dist).value;
    var e, r1 := NextBits(r, LengthBits(s)).value, NextBits(r, LengthBits(s)).rest;
    var ds, r2 := NextSymbol(r1, dist).value, NextSymbol(r1, dist).rest;
    var de, r3 := NextBits(r2, DistBits(ds)).value, NextBits(r2, DistBits(ds)).rest;
    BitsBelow(r, LengthBits(s));
    BitsBelow(r2, DistBits(ds));
    LengthGoesBack(s, e);
    DistanceGoesBack(ds, de);
    x, y := t.len - 3, t.dist - 1;
    FrontOfBits(r, LengthBits(s));
    FrontOfSymbol(r1, dist);
    SymbolStaysClean(r1, dist);
    FrontOfBits(r2, DistBits(ds));
    FrontConcat(r1, [CodePiece(dist, ds)], r2, [Piece(de, DistBits(ds))], r3);
    FrontConcat(r, [Piece(e, LengthBits(s))], r1, [CodePiece(dist, ds)] + [Piece(de, DistBits(ds))], r3);
  }

  /** What is read as a token, if it is clean, is the pieces of that token. */
  lemma FrontOfItem(r: Input, lit: Sizes, dist: Sizes)
    requires Decodable(lit, dist) && NextItem(r, lit, dist).Ok? && NextItem(r, lit, dist).rest.clean
    ensures r.clean
    ensures match NextItem(r, lit, dist).value
            case End => Used(lit, END_OF_BLOCK) && Front(r, [CodePiece(lit, END_OF_BLOCK)], NextItem(r, lit, dist).rest)
            case Of(t) => Codable(lit, dist, t) && Near(t, r.window) && (t.Match? ==> t.len >= 3) && Front(r, TokenPieces(lit, dist, t), NextItem(r, lit, dist).rest)
  {
    hide LenSym, LenExtra, DistSym, DistExtra, CodePiece, NextSymbol, NextMatch, Front, First;
    var s, r1 := NextSymbol(r, lit).value, NextSymbol(r, lit).rest;
    if s > END_OF_BLOCK {
      var x, y := FrontOfMatch(r1, s, dist);
      var t, next := NextMatch(r1, s, dist).value, NextMatch(r1, s, dist).rest;
      FrontOfSymbol(r, lit);
      MatchSplit(lit, dist, t);
      FrontConcat(r, [CodePiece(lit, s)], r1,
                  [ExtraPiece(x, LenExtra(x))] + ([CodePiece(dist, DistSym(y))] + [ExtraPiece(y, DistExtra(y))]), next);
    } else {
      FrontOfSymbol(r, lit);
    }
    SymbolStaysClean(r, lit);
  }

  lemma {:induction false} OutputStaysClean(r: Input, lit: Sizes, dist: Sizes, out: seq<Byte>, cap: nat)
    requires Decodable(lit, dist) && |out| <= cap
    requires BlockOutput(r, lit, dist, out, cap).Ok? && BlockOutput(r, lit, dist, out, cap).rest.clean
    ensures r.clean && NextItem(r, lit, dist).Ok? && NextItem(r, lit, dist).rest.clean
    decreases cap - |out|
  {
    hide NextItem, Decodable, Emit;
    var i := NextItem(r, lit, dist);
    if i.value.Of? {
      OutputStaysClean(i.rest, lit, dist, Emit(i.value.token, out), cap);
    }
    FrontOfItem(r, lit, dist);
  }

  /** What is read as a block of codes, if it is clean, is the pieces of a block, and the output is what its tokens
      stand for. */
  lemma {:induction false} FrontOfOutput(r: Input, lit: Sizes, dist: Sizes, out: seq<Byte>, cap: nat) returns (tokens: seq<Token>)
    requires Decodable(lit, dist) && |out| <= cap
    requires BlockOutput(r, lit, dist, out, cap).Ok? && BlockOutput(r, lit, dist, out, cap).rest.clean
    ensures AllCodable(lit, dist, tokens) && Legal(tokens, |out|) && AllNear(tokens, r.window)
    ensures BlockOutput(r, lit, dist, out, cap).value == Expand(tokens, out)
    ensures Front(r, BlockPieces(lit, dist, tokens), BlockOutput(r, lit, dist, out, cap).rest)
    decreases cap - |out|
  {
    hide NextItem, Decodable, Produce, Emit, Written, Near, Front, CodePiece, TokenPieces, Codable;
    OutputStaysClean(r, lit, dist, out, cap);
    FrontOfItem(r, lit, dist);
    var i := NextItem(r, lit, dist);
    match i.value
    case End =>
      tokens := [];
    case Of(t) =>
      LegalIsEmitted(t, out);
      SameWindow(r, TokenPieces(lit, dist, t), i.rest);
      var more := FrontOfOutput(i.rest, lit, dist, Produce(t, out), cap);
      tokens := [t] + more;
      CodedFirst(lit, dist, t, more);
      FrontConcat(r, TokenPieces(lit, dist, t), i.rest, BlockPieces(lit, dist, more), BlockOutput(r, lit, dist, out, cap).rest);
  }

  lemma CodedFirst(lit: Sizes, dist: Sizes, t: Token, more: seq<Token>)
    requires Codable(lit, dist, t) && AllCodable(lit, dist, more)
    ensures AllCodable(lit, dist, [t] + more)
    ensures BlockPieces(lit, dist, [t] + more) == TokenPieces(lit, dist, t) + BlockPieces(lit, dist, more)
  {
    hide Codable, TokenPieces;
    var all := [t] + more;
    assert all[0] == t && all[1..] == more;
    assert forall i :: 1 <= i < |all| ==> all[i] == more[i - 1];
  }
}
