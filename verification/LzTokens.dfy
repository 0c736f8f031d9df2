/** Literals and matches, and the bytes they stand for (section 3.2.3 of RFC 1951): what the LZ77 parser
    of `src/miniz.c` records and what its inflater copies. */
module LzTokens {
  import opened Bits

  const MIN_MATCH := 3
  const MAX_MATCH := 258
  const DICT_SIZE := 32768

  datatype Token = Literal(byte: Byte) | Match(len: nat, dist: nat)

  /** `len` bytes copied one by one from `dist` bytes back; the copy may read what it has just written. */
  function CopyBack(out: seq<Byte>, dist: nat, len: nat): (r: seq<Byte>)
    requires 1 <= dist <= |out|
    ensures |r| == |out| + len && r[..|out|] == out
    decreases len
  {
    if len == 0 then out else CopyBack(out + [out[|out| - dist]], dist, len - 1)
  }

  ghost predicate LegalMatch(len: nat, dist: nat, produced: nat) {
    MIN_MATCH <= len <= MAX_MATCH && 1 <= dist <= DICT_SIZE && dist <= produced
  }

  /** The output after one more token. */
  function Produce(t: Token, out: seq<Byte>): (r: seq<Byte>)
    requires t.Match? ==> 1 <= t.dist <= |out|
    ensures |r| == |out| + Width(t) && r[..|out|] == out
  {
    match t
    case Literal(b) => out + [b]
    case Match(len, dist) => CopyBack(out, dist, len)
  }

  /** The bytes that tokens stand for after `out`. */
  ghost function Expand(tokens: seq<Token>, out: seq<Byte>): (r: seq<Byte>)
    requires Legal(tokens, |out|)
    ensures |r| == |out| + Size(tokens) && r[..|out|] == out
    decreases |tokens|
  {
    if tokens == [] then out else Expand(tokens[1..], Produce(tokens[0], out))
  }

  function Width(t: Token): nat {
    match t case Literal(_) => 1 case Match(len, _) => len
  }

  function Size(tokens: seq<Token>): nat {
    if tokens == [] then 0 else Width(tokens[0]) + Size(tokens[1..])
  }

  /** Every match has a legal length and starts inside what was produced before it. */
  ghost predicate Legal(tokens: seq<Token>, produced: nat) {
    tokens == []
    || (&& (tokens[0].Match? ==> LegalMatch(tokens[0].len, tokens[0].dist, produced))
        && Legal(tokens[1..], produced + Width(tokens[0])))
  }

  lemma {:induction false} ExpandConcat(p: seq<Token>, q: seq<Token>, out: seq<Byte>)
    requires Legal(p, |out|)
    ensures Size(p + q) == Size(p) + Size(q)
    ensures Legal(p + q, |out|) <==> Legal(q, |out| + Size(p))
    ensures Legal(q, |out| + Size(p)) ==> Expand(p + q, out) == Expand(q, Expand(p, out))
    decreases |p|
  {
    if p == [] {
      assert p + q == q;
    } else {
      assert (p + q)[1..] == p[1..] + q;
      ExpandConcat(p[1..], q, Produce(p[0], out));
    }
  }

  /** `len` bytes at `at` equal those `dist` bytes before. */
  ghost predicate IsMatch(input: seq<Byte>, at: nat, len: nat, dist: nat) {
    1 <= dist <= at && at + len <= |input| && forall k :: at <= k < at + len ==> input[k] == input[k - dist]
  }

  /** Copying a match reproduces the input. */
  lemma {:induction false} CopyOfMatch(input: seq<Byte>, at: nat, len: nat, dist: nat)
    requires IsMatch(input, at, len, dist)
    ensures CopyBack(input[..at], dist, len) == input[..at + len]
    decreases len
  {
    if len > 0 {
      assert input[at] == input[at - dist];
      assert input[..at] + [input[at]] == input[..at + 1];
      CopyOfMatch(input, at + 1, len - 1, dist);
    }
  }

  lemma {:induction false} SizeConcat(p: seq<Token>, q: seq<Token>)
    ensures Size(p + q) == Size(p) + Size(q)
  {
    if p == [] {
      assert p + q == q;
    } else {
      assert (p + q)[1..] == p[1..] + q;
      SizeConcat(p[1..], q);
    }
  }

  /** The tokens turn the input up to `start` into the input up to `at`. */
  ghost predicate Continues(tokens: seq<Token>, input: seq<Byte>, start: nat, at: nat) {
    start <= at <= |input| && Legal(tokens, start) && Expand(tokens, input[..start]) == input[..at]
  }

  lemma OneToken(t: Token, out: seq<Byte>)
    requires Legal([t], |out|)
    ensures Expand([t], out) == Produce(t, out)
  {
    assert [t][1..] == [];
  }

  /** A literal that is the next byte continues the input. */
  lemma LiteralContinues(tokens: seq<Token>, input: seq<Byte>, start: nat, at: nat)
    requires at < |input| && Continues(tokens, input, start, at)
    ensures Continues(tokens + [Literal(input[at])], input, start, at + 1)
  {
    ExpandConcat(tokens, [Literal(input[at])], input[..start]);
    assert input[..at] + [input[at]] == input[..at + 1];
    OneToken(Literal(input[at]), input[..at]);
  }

  /** A match that is one continues the input. */
  lemma MatchContinues(tokens: seq<Token>, input: seq<Byte>, start: nat, at: nat, len: nat, dist: nat)
    requires Continues(tokens, input, start, at)
    requires IsMatch(input, at, len, dist) && MIN_MATCH <= len <= MAX_MATCH && dist <= DICT_SIZE
    ensures Continues(tokens + [Match(len, dist)], input, start, at + len)
  {
    ExpandConcat(tokens, [Match(len, dist)], input[..start]);
    CopyOfMatch(input, at, len, dist);
    OneToken(Match(len, dist), input[..at]);
  }

  lemma ContinuesSize(tokens: seq<Token>, input: seq<Byte>, start: nat, at: nat)
    requires Continues(tokens, input, start, at)
    ensures at == start + Size(tokens)
  {
    assert |Expand(tokens, input[..start])| == at;
  }

  // ---------------------------------------------------------------- blocks

  /** A block of codes, or a stored block. */
  datatype Block = Coded(tokens: seq<Token>) | Stored(bytes: seq<Byte>)

  /** What the code buffer has room for, and the most that the length of a stored block can say. */
  ghost predicate Sendable(b: Block) {
    match b case Coded(t) => |t| <= 65534 case Stored(s) => |s| <= 65535
  }

  ghost predicate AllSendable(blocks: seq<Block>) {
    forall i :: 0 <= i < |blocks| ==> Sendable(blocks[i])
  }

  datatype Inflated = Bytes(bytes: seq<Byte>) | Broken

  /** What inflating blocks gives (section 3.2.3 of RFC 1951). */
  ghost function Inflate(blocks: seq<Block>): Inflated {
    if blocks == [] then Bytes([])
    else
      var before := Inflate(blocks[..|blocks| - 1]);
      if before.Broken? then Broken
      else match blocks[|blocks| - 1]
        case Stored(b) => Bytes(before.bytes + b)
        case Coded(t) => if Legal(t, |before.bytes|) then Bytes(Expand(t, before.bytes)) else Broken
  }

  lemma CodedBlock(blocks: seq<Block>, tokens: seq<Token>, input: seq<Byte>, start: nat, at: nat)
    requires Continues(tokens, input, start, at) && Inflate(blocks) == Bytes(input[..start])
    ensures Inflate(blocks + [Coded(tokens)]) == Bytes(input[..at])
  {
    assert (blocks + [Coded(tokens)])[..|blocks|] == blocks;
  }

  lemma StoredBlock(blocks: seq<Block>, bytes: seq<Byte>, input: seq<Byte>, start: nat, at: nat)
    requires start <= at <= |input| && Inflate(blocks) == Bytes(input[..start]) && bytes == input[start..at]
    ensures Inflate(blocks + [Stored(bytes)]) == Bytes(input[..at])
  {
    assert (blocks + [Stored(bytes)])[..|blocks|] == blocks;
    assert input[..start] + input[start..at] == input[..at];
  }
}
