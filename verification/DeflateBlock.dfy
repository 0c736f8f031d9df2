/** The codes of a block as bits: the counts that `tdefl_record_literal` and `tdefl_record_match` of
    `src/miniz.c` keep, `tdefl_compress_lz_codes` (section 3.2.3 of RFC 1951). */
module DeflateBlock {
  import opened Bits
  import opened HuffmanCode
  import opened HuffmanEncoder
  import opened Sequences
  import opened BitPieces
  import opened LzTokens
  import opened DeflateSymbols
  import CodeCost

  const END_OF_BLOCK := 256

  // ---------------------------------------------------------------- a block as pieces

  /** The code tables have a code for every symbol that the token needs. */
  ghost predicate Codable(lit: Sizes, dist: Sizes, t: Token) {
    match t
    case Literal(b) => Used(lit, b)
    case Match(len, d) => 3 <= len <= 258 && 1 <= d <= 32768 && Used(lit, LenSym(len - 3)) && Used(dist, DistSym(d - 1))
  }

  ghost predicate AllCodable(lit: Sizes, dist: Sizes, tokens: seq<Token>) {
    Used(lit, END_OF_BLOCK) && forall i :: 0 <= i < |tokens| ==> Codable(lit, dist, tokens[i])
  }

  /** A literal is its code; a match is the code of its length, the low bits of the length, and the same for
      its distance. */
  ghost function TokenPieces(lit: Sizes, dist: Sizes, t: Token): (ps: seq<Piece>)
    requires Codable(lit, dist, t)
    ensures AllFit(ps)
  {
    match t
    case Literal(b) => [CodePiece(lit, b)]
    case Match(len, d) =>
      [CodePiece(lit, LenSym(len - 3)), ExtraPiece(len - 3, LenExtra(len - 3)),
       CodePiece(dist, DistSym(d - 1)), ExtraPiece(d - 1, DistExtra(d - 1))]
  }

  function ExtraPiece(x: nat, n: nat): (p: Piece)
    requires n <= 16
    ensures Fits(p)
  {
    ModBelow(x, Pow2(n));
    Piece(x % Pow2(n), n)
  }

  lemma ModBelow(x: nat, m: nat)
    requires m > 0
    ensures x % m < m
  {
  }

  ghost function BlockPieces(lit: Sizes, dist: Sizes, tokens: seq<Token>): (ps: seq<Piece>)
    requires AllCodable(lit, dist, tokens)
    ensures AllFit(ps)
  {
    if tokens == [] then [CodePiece(lit, END_OF_BLOCK)]
    else TokenPieces(lit, dist, tokens[0]) + BlockPieces(lit, dist, tokens[1..])
  }

  /** The symbol that a token starts with. */
  ghost function FirstSymbol(t: Token): nat
    requires t.Match? ==> 3 <= t.len <= 258
  {
    match t case Literal(b) => b case Match(len, _) => LenSym(len - 3)
  }

  // ---------------------------------------------------------------- counting symbols

  const LIT_SYMBOLS := 288
  const DIST_SYMBOLS := 32

  /** A token as the parser records it. */
  ghost predicate Recorded(t: Token) {
    t.Match? ==> 3 <= t.len <= 258 && 1 <= t.dist <= 32768
  }

  /** Whether a token uses a symbol of the first code, or of the second. */
  ghost function UsesLit(t: Token, s: nat): nat
    requires Recorded(t)
  {
    if FirstSymbol(t) == s then 1 else 0
  }

  ghost function UsesDist(t: Token, s: nat): nat
    requires Recorded(t)
  {
    if t.Match? && DistSym(t.dist - 1) == s then 1 else 0
  }

  /** How often the tokens use a symbol of the first code, or of the second; every block has one end. */
  ghost function LitUses(tokens: seq<Token>, s: nat): nat
    requires forall i :: 0 <= i < |tokens| ==> Recorded(tokens[i])
  {
    if tokens == [] then if s == END_OF_BLOCK then 1 else 0
    else LitUses(tokens[..|tokens| - 1], s) + UsesLit(tokens[|tokens| - 1], s)
  }

  ghost function DistUses(tokens: seq<Token>, s: nat): nat
    requires forall i :: 0 <= i < |tokens| ==> Recorded(tokens[i])
  {
    if tokens == [] then 0 else DistUses(tokens[..|tokens| - 1], s) + UsesDist(tokens[|tokens| - 1], s)
  }

  lemma {:induction false} UsesAtLeast(tokens: seq<Token>, i: nat)
    requires i < |tokens| && Recorded(tokens[i]) && forall j :: 0 <= j < |tokens| ==> Recorded(tokens[j])
    ensures LitUses(tokens, FirstSymbol(tokens[i])) >= 1
    ensures tokens[i].Match? ==> DistUses(tokens, DistSym(tokens[i].dist - 1)) >= 1
  {
    var n := |tokens| - 1;
    if i < n {
      assert tokens[..n][i] == tokens[i];
      UsesAtLeast(tokens[..n], i);
    }
  }

  lemma {:induction false} EndIsUsed(tokens: seq<Token>)
    requires forall j :: 0 <= j < |tokens| ==> Recorded(tokens[j])
    ensures LitUses(tokens, END_OF_BLOCK) >= 1
  {
    if tokens != [] { EndIsUsed(tokens[..|tokens| - 1]); }
  }

  lemma {:induction false} SumZeros(s: seq<nat>)
    requires forall i :: 0 <= i < |s| ==> s[i] == 0
    ensures CodeCost.Sum(s) == 0
  {
    if s != [] { SumZeros(s[1..]); }
  }

  lemma {:induction false} SumOneMore(s: seq<nat>, i: nat)
    requires i < |s|
    ensures CodeCost.Sum(s[i := s[i] + 1]) == CodeCost.Sum(s) + 1 && s[i] <= CodeCost.Sum(s)
  {
    if i > 0 {
      assert s[i := s[i] + 1][1..] == s[1..][i - 1 := s[1..][i - 1] + 1];
      SumOneMore(s[1..], i - 1);
    } else {
      assert s[0 := s[0] + 1][1..] == s[1..];
    }
  }

  /** The tables of counts after some tokens; `m_huff_count` has 16 bits, which are enough. */
  ghost predicate Tallied(tokens: seq<Token>, lit: seq<nat>, dist: seq<nat>) {
    && (forall i :: 0 <= i < |tokens| ==> Recorded(tokens[i])) && |lit| == LIT_SYMBOLS && |dist| == DIST_SYMBOLS
    && (forall s: nat :: s < LIT_SYMBOLS ==> lit[s] == LitUses(tokens, s))
    && (forall s: nat :: s < DIST_SYMBOLS ==> dist[s] == DistUses(tokens, s))
    && CodeCost.Sum(lit) == |tokens| + 1 && CodeCost.Sum(dist) <= |tokens|
    && lit[286] == 0 && lit[287] == 0 && dist[30] == 0 && dist[31] == 0
  }

  lemma TalliedMore(tokens: seq<Token>, t: Token, lit: seq<nat>, dist: seq<nat>)
    requires Tallied(tokens, lit, dist) && Recorded(t)
    ensures var l := FirstSymbol(t);
            && l < 286 && lit[l] <= |tokens| + 1
            && (t.Literal? ==> Tallied(tokens + [t], lit[l := lit[l] + 1], dist))
            && (t.Match? ==> var d := DistSym(t.dist - 1);
                             d < 30 && dist[d] <= |tokens| && Tallied(tokens + [t], lit[l := lit[l] + 1], dist[d := dist[d] + 1]))
  {
    hide LenSym, DistSym, CodeCost.Sum;
    assert (tokens + [t])[..|tokens|] == tokens;
    var l := FirstSymbol(t);
    SumOneMore(lit, l);
    if t.Match? { SumOneMore(dist, DistSym(t.dist - 1)); }
  }

  lemma NothingTallied(lit: seq<nat>, dist: seq<nat>)
    requires |lit| == LIT_SYMBOLS && |dist| == DIST_SYMBOLS && forall s :: 0 <= s < DIST_SYMBOLS ==> dist[s] == 0
    requires forall s :: 0 <= s < LIT_SYMBOLS ==> lit[s] == if s == END_OF_BLOCK then 1 else 0
    ensures Tallied([], lit, dist)
  {
    SumZeros(dist);
    var zeros := lit[END_OF_BLOCK := 0];
    SumZeros(zeros);
    SumOneMore(zeros, END_OF_BLOCK);
    assert zeros[END_OF_BLOCK := 1] == lit;
  }

  /** How often the tokens of a block use each symbol: what `tdefl_record_literal` and `tdefl_record_match`
      add up, and the one end of block (line 1941). */
  method Tally(tokens: seq<Token>) returns (lit: seq<nat>, dist: seq<nat>)
    requires |tokens| <= 65534 && forall i :: 0 <= i < |tokens| ==> Recorded(tokens[i])
    ensures Tallied(tokens, lit, dist)
  {
    hide Tallied, LitUses, DistUses, LenSym, DistSym;
    lit, dist := seq(LIT_SYMBOLS, s => if s == END_OF_BLOCK then 1 else 0), seq(DIST_SYMBOLS, _ => 0);
    NothingTallied(lit, dist);
    assert tokens[..0] == [];
    for i := 0 to |tokens|
      invariant Tallied(tokens[..i], lit, dist)
    {
      TallySizes(tokens[..i], lit, dist);
      TalliedMore(tokens[..i], tokens[i], lit, dist);
      assert tokens[..i] + [tokens[i]] == tokens[..i + 1];
      match tokens[i]
      case Literal(b) => lit := lit[b := (lit[b] + 1) % 65536];
      case Match(len, d) =>
        var s0 := DistSym(d - 1);
        dist := dist[s0 := (dist[s0] + 1) % 65536];
        var l := LenSym(len - 3);
        lit := lit[l := (lit[l] + 1) % 65536];
    }
    assert tokens[..|tokens|] == tokens;
  }

  lemma TallySizes(tokens: seq<Token>, lit: seq<nat>, dist: seq<nat>)
    requires Tallied(tokens, lit, dist)
    ensures |lit| == LIT_SYMBOLS && |dist| == DIST_SYMBOLS
  {
  }

  // ---------------------------------------------------------------- writing

  /** The compressor's code lengths and codes are those of `sizes`, which may leave out symbols at the end. */
  ghost predicate IsTable(codeSizes: seq<nat>, codes: seq<nat>, sizes: Sizes) {
    && |sizes| <= |codeSizes| == |codes|
    && forall s :: 0 <= s < |sizes| && sizes[s] > 0 ==> codeSizes[s] == sizes[s] && codes[s] == CodeWord(sizes, s)
  }

  method PutCode(w: BitWriter, codeSizes: seq<nat>, codes: seq<nat>, ghost sizes: Sizes, s: nat, ghost ps: seq<Piece>)
    requires Wrote(w, ps) && IsTable(codeSizes, codes, sizes) && Used(sizes, s)
    modifies w
    ensures Wrote(w, ps + [CodePiece(sizes, s)])
  {
    hide Wrote, CodeWord;
    ghost var p := CodePiece(sizes, s);
    Put(w, codes[s], codeSizes[s], ps);
  }

  method PutToken(w: BitWriter, litSizes: seq<nat>, litCodes: seq<nat>, distSizes: seq<nat>, distCodes: seq<nat>,
                  ghost lit: Sizes, ghost dist: Sizes, t: Token, ghost ps: seq<Piece>)
    requires Wrote(w, ps) && IsTable(litSizes, litCodes, lit) && IsTable(distSizes, distCodes, dist) && Codable(lit, dist, t)
    modifies w
    ensures Wrote(w, ps + TokenPieces(lit, dist, t))
  {
    hide Wrote, IsTable, CodePiece, LenSym, LenExtra, DistSym, DistExtra, Pow2;
    match t
    case Literal(b) =>
      PutCode(w, litSizes, litCodes, lit, b, ps);
    case Match(len, d) =>
      var x, y := len - 3, d - 1;
      ghost var p0, p1, p2, p3 := CodePiece(lit, LenSym(x)), ExtraPiece(x, LenExtra(x)), CodePiece(dist, DistSym(y)), ExtraPiece(y, DistExtra(y));
      PutCode(w, litSizes, litCodes, lit, LenSym(x), ps);
      Put(w, x % Pow2(LenExtra(x)), LenExtra(x), ps + [p0]);
      PutCode(w, distSizes, distCodes, dist, DistSym(y), ps + [p0] + [p1]);
      Put(w, y % Pow2(DistExtra(y)), DistExtra(y), ps + [p0] + [p1] + [p2]);
      assert ps + [p0] + [p1] + [p2] + [p3] == ps + [p0, p1, p2, p3];
  }

  /** `tdefl_compress_lz_codes`. */
  method CompressLzCodes(w: BitWriter, litSizes: seq<nat>, litCodes: seq<nat>, distSizes: seq<nat>, distCodes: seq<nat>,
                         ghost lit: Sizes, ghost dist: Sizes, tokens: seq<Token>, ghost ps: seq<Piece>)
    requires Wrote(w, ps) && IsTable(litSizes, litCodes, lit) && IsTable(distSizes, distCodes, dist)
    requires AllCodable(lit, dist, tokens)
    modifies w
    ensures Wrote(w, ps + BlockPieces(lit, dist, tokens))
  {
    hide Wrote, IsTable, Codable, TokenPieces, CodePiece;
    ghost var done := ps;
    assert tokens[0..] == tokens;
    for i := 0 to |tokens|
      invariant Wrote(w, done) && AllCodable(lit, dist, tokens[i..])
      invariant done + BlockPieces(lit, dist, tokens[i..]) == ps + BlockPieces(lit, dist, tokens)
    {
      ghost var left := tokens[i..];
      assert left[0] == tokens[i] && left[1..] == tokens[i + 1..];
      PutToken(w, litSizes, litCodes, distSizes, distCodes, lit, dist, tokens[i], done);
      Associates(done, TokenPieces(lit, dist, left[0]), BlockPieces(lit, dist, left[1..]));
      done := done + TokenPieces(lit, dist, left[0]);
    }
    PutCode(w, litSizes, litCodes, lit, END_OF_BLOCK, done);
  }
}
