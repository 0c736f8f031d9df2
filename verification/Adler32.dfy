/** `mz_adler32` of `src/miniz.c`, and the same loop at the end of `tinfl_decompress`: Adler-32 in blocks
    of 5552 bytes that are reduced once (section 2.2 of RFC 1950). */
module Adler32 {
  import opened Bits

  const MODULUS := 65521
  const BLOCK := 5552
  const WORD := 0x1_0000_0000

  datatype Sums = Sums(a: nat, b: nat)

  /** The definition: both sums reduced after every byte. */
  function Update(s: Sums, x: Byte): Sums {
    var a := (s.a + x) % MODULUS;
    Sums(a, (s.b + a) % MODULUS)
  }

  function Adler(s: Sums, bytes: seq<Byte>): Sums {
    if bytes == [] then s else Update(Adler(s, bytes[..|bytes| - 1]), bytes[|bytes| - 1])
  }

  function Unpack(adler: nat): Sums {
    Sums(adler % 65536, adler / 65536)
  }

  function Pack(s: Sums): nat {
    s.b * 65536 + s.a
  }

  /** A checksum over a concatenation is the checksum over the second part that starts from the first's. */
  lemma {:induction false} AdlerConcat(s: Sums, p: seq<Byte>, q: seq<Byte>)
    ensures Adler(s, p + q) == Adler(Adler(s, p), q)
  {
    if q == [] {
      assert p + q == p;
    } else {
      assert (p + q)[..|p + q| - 1] == p + q[..|q| - 1];
      AdlerConcat(s, p, q[..|q| - 1]);
    }
  }

  lemma {:induction false} AdlerReduced(s: Sums, bytes: seq<Byte>)
    requires bytes != [] || (s.a < MODULUS && s.b < MODULUS)
    ensures Adler(s, bytes).a < MODULUS && Adler(s, bytes).b < MODULUS
  {
  }

  // ---------------------------------------------------------------- the sums of section 8.2 of RFC 1950

  /** All bytes added up. */
  function ByteSum(bytes: seq<Byte>): nat {
    if bytes == [] then 0 else ByteSum(bytes[..|bytes| - 1]) + bytes[|bytes| - 1] as nat
  }

  /** The sums after each byte, with the one they start from, added up. */
  function SumOfSums(bytes: seq<Byte>): nat {
    if bytes == [] then 0 else SumOfSums(bytes[..|bytes| - 1]) + 1 + ByteSum(bytes)
  }

  lemma ModSum(x: nat, y: nat)
    ensures (x % 65521 + y) % 65521 == (x + y) % 65521
  {
    var q, r := x / 65521, x % 65521;
    assert x + y == 65521 * q + (r + y);
    Reduced(q, r + y);
  }

  lemma Reduced(q: nat, r: nat)
    ensures (65521 * q + r) % 65521 == r % 65521
  {
  }

  /** The checksum holds the sum of the bytes and the sum of those sums, both modulo the largest prime below 65536. */
  lemma {:induction false} AdlerIsSums(bytes: seq<Byte>)
    ensures Adler(Unpack(1), bytes) == Sums((1 + ByteSum(bytes)) % 65521, SumOfSums(bytes) % 65521)
  {
    if bytes != [] {
      var front, x := bytes[..|bytes| - 1], bytes[|bytes| - 1];
      AdlerIsSums(front);
      ModSum(1 + ByteSum(front), x);
      ModSum(SumOfSums(front), (1 + ByteSum(bytes)) % 65521);
      ModSum(1 + ByteSum(bytes), SumOfSums(front));
    }
  }

  // ---------------------------------------------------------------- a block without reduction

  /** The most that the second sum can reach after `i` bytes of a block. */
  function Reach(i: nat): nat {
    if i == 0 then 65535 else Reach(i - 1) + 65535 + 255 * i
  }

  lemma {:induction false} ReachGrows(i: nat, j: nat)
    requires i <= j
    ensures Reach(i) <= Reach(j)
  {
    if i < j { ReachGrows(i, j - 1); }
  }

  lemma {:induction false} ReachIs(i: nat)
    ensures 2 * Reach(i) == 131070 * (i + 1) + 255 * (i * (i + 1))
  {
    if i > 0 { ReachIs(i - 1); }
  }

  /** A block of 5552 bytes stays below 32 bits. */
  lemma ReachFits(i: nat)
    requires i <= BLOCK
    ensures Reach(i) < WORD
  {
    ReachGrows(i, BLOCK);
    ReachIs(BLOCK);
  }

  ghost predicate Congruent(s1: nat, s2: nat, t: Sums) {
    s1 % MODULUS == t.a % MODULUS && s2 % MODULUS == t.b % MODULUS
  }

  /** The sums after `i` bytes of a block: not reduced, not overflowed, and congruent to the definition. */
  ghost predicate Running(s1: nat, s2: nat, i: nat, t: Sums) {
    s1 <= 65535 + 255 * i && s2 <= Reach(i) && Congruent(s1, s2, t)
  }

  lemma ModAdd(x: nat, y: nat, z: nat)
    requires x % MODULUS == y % MODULUS
    ensures (x + z) % MODULUS == (y + z) % MODULUS
  {
  }

  lemma SumsGrow(s1: nat, s2: nat, t: Sums, x: Byte)
    requires Congruent(s1, s2, t)
    ensures Congruent(s1 + x, s2 + s1 + x, Update(t, x))
  {
    ModAdd(s1, t.a, x);
    ModAdd(s2, t.b, s1 + x);
    ModAdd(s1 + x, (t.a + x) % MODULUS, t.b);
  }

  method AddByte(s1: nat, s2: nat, x: Byte, ghost i: nat, ghost t: Sums) returns (r1: nat, r2: nat)
    requires Running(s1, s2, i, t) && i < BLOCK
    ensures Running(r1, r2, i + 1, Update(t, x))
  {
    hide Reach, Update, Congruent;
    OneMoreFits(i);
    SumsGrow(s1, s2, t, x);
    r1 := (s1 + x) % WORD;
    r2 := (s2 + r1) % WORD;
  }

  lemma OneMoreFits(i: nat)
    requires i < BLOCK
    ensures Reach(i) + 65535 + 255 * (i + 1) == Reach(i + 1) < WORD
  {
    ReachFits(i + 1);
  }

  /** One block: eight bytes per round, then the rest, then the reduction. */
  method AddBlock(s1: nat, s2: nat, bytes: seq<Byte>, ghost t: Sums) returns (r1: nat, r2: nat)
    requires |bytes| <= BLOCK && s1 <= 65535 && s2 <= 65535 && Congruent(s1, s2, t)
    ensures r1 < MODULUS && r2 < MODULUS && Congruent(r1, r2, Adler(t, bytes))
  {
    hide Reach, Update, Congruent;
    StartRunning(s1, s2, t);
    r1, r2 := s1, s2;
    var i := 0;
    assert bytes[..0] == [];
    while i + 7 < |bytes|
      invariant 0 <= i <= |bytes| && Running(r1, r2, i, Adler(t, bytes[..i]))
    {
      var start := i;
      while i < start + 8
        invariant start <= i <= start + 8 && Running(r1, r2, i, Adler(t, bytes[..i]))
      {
        assert bytes[..i + 1][..i] == bytes[..i];
        r1, r2 := AddByte(r1, r2, bytes[i], i, Adler(t, bytes[..i]));
        i := i + 1;
      }
    }
    while i < |bytes|
      invariant 0 <= i <= |bytes| && Running(r1, r2, i, Adler(t, bytes[..i]))
    {
      assert bytes[..i + 1][..i] == bytes[..i];
      r1, r2 := AddByte(r1, r2, bytes[i], i, Adler(t, bytes[..i]));
      i := i + 1;
    }
    assert bytes[..i] == bytes;
    Reduce(r1, r2, Adler(t, bytes));
    r1, r2 := r1 % MODULUS, r2 % MODULUS;
  }

  lemma StartRunning(s1: nat, s2: nat, t: Sums)
    requires s1 <= 65535 && s2 <= 65535 && Congruent(s1, s2, t)
    ensures Running(s1, s2, 0, t)
  {
  }

  lemma Reduce(s1: nat, s2: nat, t: Sums)
    requires Congruent(s1, s2, t)
    ensures Congruent(s1 % MODULUS, s2 % MODULUS, t)
  {
  }

  /** How much of the buffer is left is a whole number of blocks, after a first one of what remains. */
  ghost predicate BlocksLeft(left: nat, blockLen: nat) {
    blockLen <= BLOCK && (left > 0 ==> blockLen <= left) && left % BLOCK == blockLen % BLOCK
  }

  lemma FirstBlock(n: nat)
    ensures BlocksLeft(n, n % BLOCK)
  {
  }

  lemma NextBlock(left: nat, blockLen: nat)
    requires left > 0 && BlocksLeft(left, blockLen)
    ensures blockLen <= left && blockLen <= BLOCK && BlocksLeft(left - blockLen, BLOCK)
  {
    assert (left - blockLen) % BLOCK == 0;
  }

  /** For every starting value and every length, the blocks give the byte-by-byte checksum. */
  method Checksum(adler: nat, bytes: seq<Byte>) returns (r: nat)
    requires adler < WORD
    ensures r == Pack(Adler(Unpack(adler), bytes)) < WORD
  {
    hide Adler, Congruent, BlocksLeft, Pack;
    var s1: nat, s2: nat := adler % 65536, adler / 65536;
    ghost var start := Sums(s1, s2);
    var left, blockLen: nat := bytes, |bytes| % BLOCK;
    FirstBlock(|bytes|);
    Start(start);
    assert bytes[..0] == [] && bytes[0..] == bytes;
    while |left| > 0
      invariant |left| <= |bytes| && left == bytes[|bytes| - |left|..]
      invariant s1 <= 65535 && s2 <= 65535 && Congruent(s1, s2, Adler(start, bytes[..|bytes| - |left|]))
      invariant BlocksLeft(|left|, blockLen)
      invariant |left| < |bytes| ==> s1 < MODULUS && s2 < MODULUS
      invariant bytes == [] ==> s1 == start.a && s2 == start.b
      decreases |left|, blockLen == 0
    {
      ghost var done := |bytes| - |left|;
      NextBlock(|left|, blockLen);
      AdlerConcat(start, bytes[..done], left[..blockLen]);
      NextPart(bytes, done, blockLen);
      s1, s2 := AddBlock(s1, s2, left[..blockLen], Adler(start, bytes[..done]));
      left := left[blockLen..];
      blockLen := BLOCK;
    }
    assert bytes[..|bytes|] == bytes;
    SumsAgree(s1, s2, start, bytes);
    PackFits(s1, s2);
    r := (s2 * 65536 % WORD + s1) % WORD;
  }

  lemma NextPart(bytes: seq<Byte>, done: nat, n: nat)
    requires done + n <= |bytes|
    ensures bytes[..done] + bytes[done..][..n] == bytes[..done + n] && bytes[done..][n..] == bytes[done + n..]
  {
  }

  lemma PackFits(s1: nat, s2: nat)
    requires s1 <= 65535 && s2 <= 65535
    ensures (s2 * 65536 % WORD + s1) % WORD == Pack(Sums(s1, s2)) < WORD
  {
    SmallWord(s2 * 65536);
    SmallWord(s2 * 65536 + s1);
  }

  lemma SmallWord(x: nat)
    requires x < WORD
    ensures x % WORD == x
  {
  }

  lemma Start(s: Sums)
    ensures Adler(s, []) == s && Congruent(s.a, s.b, s)
  {
  }

  lemma SumsAgree(s1: nat, s2: nat, start: Sums, bytes: seq<Byte>)
    requires Congruent(s1, s2, Adler(start, bytes))
    requires if bytes == [] then s1 == start.a && s2 == start.b else s1 < MODULUS && s2 < MODULUS
    ensures Adler(start, bytes) == Sums(s1, s2)
  {
    if bytes != [] { AdlerReduced(start, bytes); }
  }

  lemma AdlerOfNothing()
    ensures Pack(Adler(Unpack(1), [])) == 1
  {
  }

  lemma {:induction false} AdlerIsSmall(s: Sums, bytes: seq<Byte>)
    requires s.a < 65536
    ensures Adler(s, bytes).a < 65536
  {
    if bytes != [] { AdlerIsSmall(s, bytes[..|bytes| - 1]); }
  }

  /** A checksum that was packed into a word is continued from it. */
  lemma SumContinues(p: seq<Byte>, q: seq<Byte>)
    ensures Pack(Adler(Unpack(Pack(Adler(Unpack(1), p))), q)) == Pack(Adler(Unpack(1), p + q))
  {
    hide Adler, Pack, Unpack;
    StartIsSmall();
    AdlerIsSmall(Unpack(1), p);
    UnpackOfPack(Adler(Unpack(1), p));
    AdlerConcat(Unpack(1), p, q);
  }

  lemma StartIsSmall()
    ensures Unpack(1).a < 65536
  {
  }

  lemma UnpackOfPack(s: Sums)
    requires s.a < 65536
    ensures Unpack(Pack(s)) == s
  {
  }
}
