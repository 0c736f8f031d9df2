/** SHA-1 as FIPS 180-4 defines it, on words of 32 bits. */
module Sha1Spec {
  import Bits
  import opened Sequences
  import opened Words

  const BLOCK := 64

  ghost predicate IsWord(w: Word) { |w| == 32 }

  ghost predicate AreWords(s: seq<Word>) {
    forall i :: 0 <= i < |s| ==> IsWord(s[i])
  }

  ghost predicate AreBytes(s: seq<nat>) {
    forall i :: 0 <= i < |s| ==> s[i] < 256
  }

  // ---------------------------------------------------------------- operations on words

  function Rotl(w: Word, n: nat): (r: Word)
    requires n <= |w|
    ensures |r| == |w|
  {
    w[n..] + w[..n]
  }

  function And(a: Word, b: Word): (w: Word)
    requires |a| == |b|
    ensures |w| == |a| && forall i :: 0 <= i < |a| ==> w[i] == (a[i] && b[i])
  {
    seq(|a|, i requires 0 <= i < |a| && |a| == |b| => a[i] && b[i])
  }

  function Or(a: Word, b: Word): (w: Word)
    requires |a| == |b|
    ensures |w| == |a| && forall i :: 0 <= i < |a| ==> w[i] == (a[i] || b[i])
  {
    seq(|a|, i requires 0 <= i < |a| && |a| == |b| => a[i] || b[i])
  }

  /** Addition modulo 2 to the 32. */
  function Add(a: Word, b: Word): (w: Word)
    ensures |w| == 32
  {
    BitsOf(ValueOf(a) + ValueOf(b), 32)
  }

  lemma {:induction false} BitsOfMod(x: nat, k: nat)
    ensures ValueOf(BitsOf(x, k)) == x % Bits.Pow2(k)
  {
    if k > 0 {
      BitsOfMod(x / 2, k - 1);
      assert BitsOf(x, k)[..k - 1] == BitsOf(x / 2, k - 1);
      HalfMod(x, Bits.Pow2(k - 1));
    }
  }

  lemma HalfMod(x: nat, p: nat)
    requires p > 0
    ensures x % (2 * p) == 2 * (x / 2 % p) + x % 2
  {
    var q, r := x / 2 / p, x / 2 % p;
    assert x / 2 == q * p + r;
    assert x == 2 * (q * p + r) + x % 2;
    ModIs(x, q, 2 * p, 2 * r + x % 2);
  }

  lemma ModIs(x: nat, q: nat, m: nat, r: nat)
    requires m > 0 && x == q * m + r && r < m
    ensures x % m == r
  {
    var d := x / m - q;
    assert x == m * (x / m) + x % m;
    assert m * d == r - x % m;
    assert 0 - m < m * d < m;
    SmallMultiple(d, m);
  }

  lemma SmallMultiple(d: int, m: nat)
    requires 0 - m < m * d < m
    ensures d == 0
  {
  }

  lemma BitsOfRemainder(x: nat, k: nat)
    ensures BitsOf(x % Bits.Pow2(k), k) == BitsOf(x, k)
  {
    BitsOfMod(x, k);
    BitsOfValue(BitsOf(x, k));
  }

  /** Which number stands for a residue does not matter. */
  lemma AddMod(x: nat, y: nat)
    ensures BitsOf(x % Bits.Pow2(32) + y, 32) == BitsOf(x + y, 32)
  {
    BitsOfRemainder(x % Bits.Pow2(32) + y, 32);
    BitsOfRemainder(x + y, 32);
    ModOfSum(x, y, Bits.Pow2(32));
  }

  lemma Distributes(q: int, k: int, m: int)
    ensures (q + k) * m == q * m + k * m
  {
  }

  lemma ModOfSum(x: nat, y: nat, m: nat)
    requires m > 0
    ensures (x % m + y) % m == (x + y) % m
  {
    var q := x / m;
    assert x == q * m + x % m;
    var r := (x % m + y) % m;
    var k := (x % m + y) / m;
    assert x % m + y == k * m + r;
    Distributes(q, k, m);
    assert x + y == (q + k) * m + r;
    ModIs(x + y, q + k, m, r);
  }

  lemma AddCommutes(a: Word, b: Word)
    ensures Add(a, b) == Add(b, a)
  {
  }

  lemma AddAssociates(a: Word, b: Word, c: Word)
    ensures Add(Add(a, b), c) == Add(a, Add(b, c))
  {
    hide BitsOf, Bits.Pow2;
    BitsOfMod(ValueOf(a) + ValueOf(b), 32);
    BitsOfMod(ValueOf(b) + ValueOf(c), 32);
    AddMod(ValueOf(a) + ValueOf(b), ValueOf(c));
    AddMod(ValueOf(b) + ValueOf(c), ValueOf(a));
  }

  // ---------------------------------------------------------------- section 4.1.1 and 4.2.1

  ghost function Choose(x: Word, y: Word, z: Word): (w: Word)
    requires |x| == |y| == |z|
    ensures |w| == |x|
  {
    Xor(And(x, y), And(Not(x), z))
  }

  ghost function Parity(x: Word, y: Word, z: Word): (w: Word)
    requires |x| == |y| == |z|
    ensures |w| == |x|
  {
    Xor(Xor(x, y), z)
  }

  ghost function Majority(x: Word, y: Word, z: Word): (w: Word)
    requires |x| == |y| == |z|
    ensures |w| == |x|
  {
    Xor(Xor(And(x, y), And(x, z)), And(y, z))
  }

  ghost function F(t: nat, x: Word, y: Word, z: Word): (w: Word)
    requires |x| == |y| == |z|
    ensures |w| == |x|
  {
    if t < 20 then Choose(x, y, z) else if t < 40 then Parity(x, y, z) else if t < 60 then Majority(x, y, z) else Parity(x, y, z)
  }

  function K(t: nat): (w: Word)
    ensures |w| == 32
  {
    BitsOf(if t < 20 then 0x5a827999 else if t < 40 then 0x6ed9eba1 else if t < 60 then 0x8f1bbcdc else 0xca62c1d6, 32)
  }

  /** The constants are the square roots of 2, 3, 5 and 10, times 2 to the 30 and rounded down. */
  lemma ConstantIsRoot(t: nat) returns (x: nat)
    ensures var c := if t < 20 then 2 else if t < 40 then 3 else if t < 60 then 5 else 10;
            x * x <= c * 0x1000_0000_0000_0000 < (x + 1) * (x + 1) && K(t) == BitsOf(x, 32)
  {
    hide BitsOf;
    x := if t < 20 then 0x5a827999 else if t < 40 then 0x6ed9eba1 else if t < 60 then 0x8f1bbcdc else 0xca62c1d6;
  }

  // ---------------------------------------------------------------- section 6.1.2

  /** The message schedule of a block of 16 words. */
  ghost function W(m: seq<Word>, t: nat): (w: Word)
    requires |m| == 16 && AreWords(m)
    ensures |w| == 32
  {
    if t < 16 then m[t]
    else Rotl(Xor(Xor(Xor(W(m, t - 3), W(m, t - 8)), W(m, t - 14)), W(m, t - 16)), 1)
  }

  datatype Regs = Regs(a: Word, b: Word, c: Word, d: Word, e: Word)

  ghost predicate IsState(s: Regs) {
    |s.a| == |s.b| == |s.c| == |s.d| == |s.e| == 32
  }

  ghost function Temp(s: Regs, t: nat, w: Word): (r: Word)
    requires IsState(s) && |w| == 32
    ensures |r| == 32
  {
    Add(Add(Add(Add(Rotl(s.a, 5), F(t, s.b, s.c, s.d)), s.e), K(t)), w)
  }

  ghost function Round(s: Regs, t: nat, w: Word): (r: Regs)
    requires IsState(s) && |w| == 32
    ensures IsState(r)
  {
    Regs(Temp(s, t, w), s.a, Rotl(s.b, 30), s.c, s.d)
  }

  ghost function Rounds(h: Regs, m: seq<Word>, n: nat): (r: Regs)
    requires IsState(h) && |m| == 16 && AreWords(m)
    ensures IsState(r)
  {
    if n == 0 then h else Round(Rounds(h, m, n - 1), n - 1, W(m, n - 1))
  }

  ghost function Compress(h: Regs, m: seq<Word>): (r: Regs)
    requires IsState(h) && |m| == 16 && AreWords(m)
    ensures IsState(r)
  {
    var s := Rounds(h, m, 80);
    Regs(Add(h.a, s.a), Add(h.b, s.b), Add(h.c, s.c), Add(h.d, s.d), Add(h.e, s.e))
  }

  // ---------------------------------------------------------------- sections 5.1.1, 5.2.1 and 5.3.1

  function FourBytes(b0: nat, b1: nat, b2: nat, b3: nat): (w: Word)
    ensures |w| == 32
  {
    BitsOf(b0, 8) + BitsOf(b1, 8) + BitsOf(b2, 8) + BitsOf(b3, 8)
  }

  /** A block of 64 bytes as 16 big-endian words. */
  ghost function BlockWords(b: seq<nat>): (m: seq<Word>)
    requires |b| == BLOCK
    ensures |m| == 16 && AreWords(m)
  {
    seq(16, i requires 0 <= i < 16 => FourBytes(b[4 * i], b[4 * i + 1], b[4 * i + 2], b[4 * i + 3]))
  }

  ghost function Initial(): (h: Regs)
    ensures IsState(h)
  {
    Regs(BitsOf(0x67452301, 32), BitsOf(0xefcdab89, 32), BitsOf(0x98badcfe, 32), BitsOf(0x10325476, 32), BitsOf(0xc3d2e1f0, 32))
  }

  /** The hash after the first `n` blocks. */
  ghost function HashBlocks(bytes: seq<nat>, n: nat): (h: Regs)
    requires BLOCK * n <= |bytes|
    ensures IsState(h)
  {
    if n == 0 then Initial() else Compress(HashBlocks(bytes, n - 1), BlockWords(bytes[BLOCK * (n - 1)..BLOCK * n]))
  }

  /** A number as eight bytes, the highest first. */
  function LengthBytes(n: nat): (b: seq<nat>)
    ensures |b| == 8
  {
    [n / 0x100_0000_0000_0000 % 256, n / 0x1_0000_0000_0000 % 256, n / 0x100_0000_0000 % 256, n / 0x1_0000_0000 % 256,
     n / 0x100_0000 % 256, n / 0x1_0000 % 256, n / 0x100 % 256, n % 256]
  }

  /** How many zero bytes stand between the mark and the length. */
  function Gap(n: nat): nat {
    if n % BLOCK < 56 then 55 - n % BLOCK else 119 - n % BLOCK
  }

  lemma GapFits(n: nat)
    ensures (n + 1 + Gap(n) + 8) % BLOCK == 0
  {
    var q := n / BLOCK;
    assert n == BLOCK * q + n % BLOCK;
  }

  /** No fewer zeros would do. */
  lemma GapIsLeast(n: nat, z: nat)
    requires (n + 1 + z + 8) % BLOCK == 0
    ensures Gap(n) <= z
  {
    GapFits(n);
    var p, q := (n + 1 + z + 8) / BLOCK, (n + 1 + Gap(n) + 8) / BLOCK;
    assert Gap(n) - z == BLOCK * (q - p) && Gap(n) < BLOCK;
  }

  /** The message with a one bit, zeros and its length in bits (modulo 2 to the 64). */
  function Pad(msg: seq<nat>): (p: seq<nat>)
    ensures |p| % BLOCK == 0
  {
    GapFits(|msg|);
    msg + [0x80] + Repeated<nat>(0, Gap(|msg|)) + LengthBytes(8 * |msg|)
  }

  ghost function Digest(msg: seq<nat>): (h: Regs)
    ensures IsState(h)
  {
    HashBlocks(Pad(msg), |Pad(msg)| / BLOCK)
  }

  lemma {:induction false} HashOfPrefix(bytes: seq<nat>, more: seq<nat>, n: nat)
    requires BLOCK * n <= |bytes|
    ensures HashBlocks(bytes + more, n) == HashBlocks(bytes, n)
  {
    hide Compress, BlockWords;
    if n > 0 {
      HashOfPrefix(bytes, more, n - 1);
      assert (bytes + more)[BLOCK * (n - 1)..BLOCK * n] == bytes[BLOCK * (n - 1)..BLOCK * n];
    }
  }

  // ---------------------------------------------------------------- other ways to write the same

  lemma ChooseOtherwise(x: Word, y: Word, z: Word)
    requires |x| == |y| == |z|
    ensures Xor(And(x, Xor(y, z)), z) == Choose(x, y, z)
    ensures Or(And(x, y), And(Not(x), z)) == Choose(x, y, z)
  {
  }

  lemma MajorityOtherwise(x: Word, y: Word, z: Word)
    requires |x| == |y| == |z|
    ensures Or(And(Or(x, y), z), And(x, y)) == Majority(x, y, z)
    ensures Or(Or(And(x, y), And(x, z)), And(y, z)) == Majority(x, y, z)
  {
  }

  /** A rotation as two shifts. */
  lemma RotationByShifts(w: Word, n: nat)
    requires 0 < n < |w|
    ensures Or(Shl(w, n), Shr(w, |w| - n)) == Rotl(w, n)
  {
    hide Shl, Shr;
    var l, r := Or(Shl(w, n), Shr(w, |w| - n)), Rotl(w, n);
    forall i: nat | i < |w| ensures l[i] == r[i] {
      ShlAt(w, n, i);
      ShrAt(w, |w| - n, i);
    }
  }

  /** A number without its `k` low bits. */
  function Drop(x: nat, k: nat): nat { if k == 0 then x else Drop(x / 2, k - 1) }

  /** The low bits of a number, cut in two. */
  lemma {:induction false} BitsSplit(x: nat, j: nat, k: nat)
    ensures BitsOf(x, j + k) == BitsOf(Drop(x, k), j) + BitsOf(x, k)
  {
    if k > 0 { BitsSplit(x / 2, j, k - 1); }
  }

  lemma {:induction false} DropTwice(x: nat, j: nat, k: nat)
    ensures Drop(Drop(x, j), k) == Drop(x, j + k)
  {
    if j > 0 { DropTwice(x / 2, j - 1, k); }
  }

  lemma DropNibble(x: nat)
    ensures Drop(x, 4) == x / 16
  {
    assert x / 2 / 2 == x / 4 && x / 4 / 2 == x / 8 && x / 8 / 2 == x / 16;
    assert Drop(x, 4) == Drop(x / 2, 3) && Drop(x / 2, 3) == Drop(x / 4, 2);
    assert Drop(x / 4, 2) == Drop(x / 8, 1) && Drop(x / 8, 1) == Drop(x / 16, 0);
  }

  lemma DropByte(x: nat)
    ensures Drop(x, 8) == x / 256
  {
    DropTwice(x, 4, 4);
    DropNibble(x);
    DropNibble(x / 16);
  }

  lemma LowByte(x: nat)
    ensures BitsOf(x % 256, 8) == BitsOf(x, 8)
  {
    BitsOfRemainder(x, 8);
    assert Bits.Pow2(8) == 256;
  }

  /** A word of four bytes is the word of the number they make up. */
  lemma WordOfBytes(x: nat)
    ensures FourBytes(x / 0x100_0000 % 256, x / 0x1_0000 % 256, x / 0x100 % 256, x % 256) == BitsOf(x, 32)
  {
    hide BitsOf;
    assert x / 256 / 256 == x / 0x1_0000 && x / 0x1_0000 / 256 == x / 0x100_0000;
    BitsSplit(x, 24, 8);
    DropByte(x);
    BitsSplit(x / 256, 16, 8);
    DropByte(x / 256);
    BitsSplit(x / 0x1_0000, 8, 8);
    DropByte(x / 0x1_0000);
    LowByte(x);
    LowByte(x / 0x100);
    LowByte(x / 0x1_0000);
    LowByte(x / 0x100_0000);
  }

  // ---------------------------------------------------------------- the end of a padded message

  /** The two words of the length, from the length modulo 2 to the 64. */
  function HighWord(n: nat): (w: Word)
    ensures |w| == 32
  {
    BitsOf(n % 0x1_0000_0000_0000_0000 / 0x1_0000_0000, 32)
  }

  function LowWord(n: nat): (w: Word)
    ensures |w| == 32
  {
    BitsOf(n % 0x1_0000_0000_0000_0000 % 0x1_0000_0000, 32)
  }

  lemma LengthIsTwoWords(n: nat)
    ensures var b := LengthBytes(n); FourBytes(b[0], b[1], b[2], b[3]) == HighWord(n) && FourBytes(b[4], b[5], b[6], b[7]) == LowWord(n)
  {
    hide FourBytes, BitsOf, Bits.Pow2;
    Thirty2();
    var h := n / 0x1_0000_0000;
    WordOfBytes(n);
    WordOfBytes(h);
    BitsOfRemainder(n, 32);
    BitsOfRemainder(h, 32);
    LowHalf(n);
    HighHalf(n);
    HighBytes(n);
  }

  lemma LowHalf(n: nat)
    ensures n % 0x1_0000_0000_0000_0000 % 0x1_0000_0000 == n % 0x1_0000_0000
  {
  }

  lemma HighHalf(n: nat)
    ensures n % 0x1_0000_0000_0000_0000 / 0x1_0000_0000 == n / 0x1_0000_0000 % 0x1_0000_0000
  {
    var q := n / 0x1_0000_0000_0000_0000;
    assert n == q * 0x1_0000_0000_0000_0000 + n % 0x1_0000_0000_0000_0000;
    var m := n % 0x1_0000_0000_0000_0000;
    assert n / 0x1_0000_0000 == q * 0x1_0000_0000 + m / 0x1_0000_0000;
  }

  lemma HighBytes(n: nat)
    ensures var h := n / 0x1_0000_0000;
            h / 0x100_0000 == n / 0x100_0000_0000_0000 && h / 0x1_0000 == n / 0x1_0000_0000_0000 && h / 0x100 == n / 0x100_0000_0000
  {
  }

  lemma Thirty2()
    ensures Bits.Pow2(32) == 0x1_0000_0000
  {
    assert Bits.Pow2(8) == 256;
    assert Bits.Pow2(16) == 65536;
    assert Bits.Pow2(24) == 0x100_0000;
  }

  /** A block that ends in the length. */
  lemma LastBlock(front: seq<nat>, n: nat)
    requires |front| == 56
    ensures forall rest: seq<nat> :: |rest| == 8 ==> BlockWords(front + LengthBytes(n)) == BlockWords(front + rest)[15 := LowWord(n)][14 := HighWord(n)]
  {
    hide FourBytes, LengthBytes, LowWord, HighWord;
    LengthIsTwoWords(n);
    var b := LengthBytes(n);
    forall rest: seq<nat> | |rest| == 8 ensures BlockWords(front + b) == BlockWords(front + rest)[15 := LowWord(n)][14 := HighWord(n)] {
      var l, r := BlockWords(front + b), BlockWords(front + rest)[15 := LowWord(n)][14 := HighWord(n)];
      forall i | 0 <= i < 16 ensures l[i] == r[i] {
        if i < 14 {
          assert (front + b)[4 * i] == front[4 * i] == (front + rest)[4 * i];
        }
      }
    }
  }

  /** Where the mark and the length of a padded message end up: behind less than 56 bytes, in the same block. */
  lemma PadInOneBlock(msg: seq<nat>, n: nat, buffer: seq<nat>)
    requires |buffer| < 56 && |msg| == BLOCK * n + |buffer| && buffer == msg[BLOCK * n..]
    ensures |Pad(msg)| == BLOCK * (n + 1) && HashBlocks(Pad(msg), n) == HashBlocks(msg, n)
    ensures Pad(msg)[BLOCK * n..BLOCK * (n + 1)] == buffer + [0x80] + Repeated<nat>(0, 55 - |buffer|) + LengthBytes(8 * |msg|)
  {
    hide HashBlocks, LengthBytes;
    RemainderIs(|msg|, n, |buffer|);
    var rest := [0x80] + Repeated<nat>(0, Gap(|msg|)) + LengthBytes(8 * |msg|);
    assert Pad(msg) == msg + rest;
    HashOfPrefix(msg, rest, n);
  }

  /** Behind 56 bytes or more, in the next block. */
  lemma PadInTwoBlocks(msg: seq<nat>, n: nat, buffer: seq<nat>)
    requires 56 <= |buffer| < BLOCK && |msg| == BLOCK * n + |buffer| && buffer == msg[BLOCK * n..]
    ensures |Pad(msg)| == BLOCK * (n + 2) && HashBlocks(Pad(msg), n) == HashBlocks(msg, n)
    ensures Pad(msg)[BLOCK * n..BLOCK * (n + 1)] == buffer + [0x80] + Repeated<nat>(0, 63 - |buffer|)
    ensures Pad(msg)[BLOCK * (n + 1)..BLOCK * (n + 2)] == Repeated<nat>(0, 56) + LengthBytes(8 * |msg|)
  {
    hide HashBlocks, LengthBytes;
    RemainderIs(|msg|, n, |buffer|);
    var rest := [0x80] + Repeated<nat>(0, Gap(|msg|)) + LengthBytes(8 * |msg|);
    assert Pad(msg) == msg + rest;
    HashOfPrefix(msg, rest, n);
  }

  lemma RemainderIs(x: nat, n: nat, r: nat)
    requires x == BLOCK * n + r && r < BLOCK
    ensures x % BLOCK == r
  {
  }

  lemma {:induction false} ZeroWord()
    ensures FourBytes(0, 0, 0, 0) == Zeros(32)
  {
    ZeroByte();
  }

  lemma ZeroByte()
    ensures BitsOf(0, 8) == Zeros(8)
  {
  }
}
