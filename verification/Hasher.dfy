/** Class `hasher` of `src/ws.cpp`: SHA-1 with the schedule of 80 words written out, fed byte by byte. */
module Hasher {
  import opened Sequences
  import opened Words
  import opened Sha1Spec
  import RollingSha1

  const HALF := 0x1_0000_0000
  const TOO_LONG := 0x2000_0000_0000_0000

  // ---------------------------------------------------------------- rounds

  /** The function of round `t` as the four loops write it. */
  function Chosen(t: nat, b: Word, c: Word, d: Word): (r: Word)
    requires |b| == |c| == |d|
    ensures |r| == |b|
  {
    if t < 20 then Or(And(b, c), And(Not(b), d))
    else if 40 <= t < 60 then Or(Or(And(b, c), And(b, d)), And(c, d))
    else Xor(Xor(b, c), d)
  }

  lemma ChosenIsF(t: nat, b: Word, c: Word, d: Word)
    requires |b| == |c| == |d|
    ensures Chosen(t, b, c, d) == F(t, b, c, d)
  {
    hide Choose, Majority, Parity;
    ChooseOtherwise(b, c, d);
    MajorityOtherwise(b, c, d);
    RollingSha1.ParityIs(b, c, d);
  }

  /** `circular_shift`. */
  function CircularShift(bits: nat, word: Word): (r: Word)
    requires 0 < bits < 32 && |word| == 32
    ensures |r| == 32
  {
    Or(Shl(word, bits), Shr(word, 32 - bits))
  }

  lemma CircularShiftRotates(bits: nat, word: Word)
    requires 0 < bits < 32 && |word| == 32
    ensures CircularShift(bits, word) == Rotl(word, bits)
  {
    RotationByShifts(word, bits);
  }

  lemma LastTwoSwapped(x: Word, k: Word, w: Word)
    ensures Add(Add(x, w), k) == Add(Add(x, k), w)
  {
    hide Add;
    AddAssociates(x, w, k);
    AddAssociates(x, k, w);
    AddCommutes(w, k);
  }

  lemma EarlyWord(m: seq<Word>, t: nat)
    requires |m| == 16 && AreWords(m) && t < 16
    ensures Sha1Spec.W(m, t) == m[t]
  {
  }

  lemma LateWord(m: seq<Word>, t: nat)
    requires |m| == 16 && AreWords(m) && t >= 16
    ensures var x := Xor(Xor(Xor(Sha1Spec.W(m, t - 3), Sha1Spec.W(m, t - 8)), Sha1Spec.W(m, t - 14)), Sha1Spec.W(m, t - 16));
            Sha1Spec.W(m, t) == CircularShift(1, x)
  {
    hide CircularShift;
    CircularShiftRotates(1, Xor(Xor(Xor(Sha1Spec.W(m, t - 3), Sha1Spec.W(m, t - 8)), Sha1Spec.W(m, t - 14)), Sha1Spec.W(m, t - 16)));
  }

  /** `W[0]` to `W[79]`. */
  method Schedule(block: array<nat>) returns (w: array<Word>)
    requires block.Length == BLOCK && AreBytes(block[..])
    ensures fresh(w) && w.Length == 80 && forall t: nat :: t < 80 ==> w[t] == Sha1Spec.W(BlockWords(block[..]), t)
  {
    hide FourBytes, RollingSha1.Assembled, Sha1Spec.W, CircularShift;
    ghost var m := BlockWords(block[..]);
    w := new Word[80](_ => []);
    for t := 0 to 16
      invariant forall j: nat :: j < t ==> w[j] == Sha1Spec.W(m, j)
    {
      EarlyWord(m, t);
      RollingSha1.AssembledIs(block[4 * t], block[4 * t + 1], block[4 * t + 2], block[4 * t + 3]);
      w[t] := RollingSha1.Assembled(block[4 * t], block[4 * t + 1], block[4 * t + 2], block[4 * t + 3]);
    }
    for t := 16 to 80
      invariant forall j: nat :: j < t ==> w[j] == Sha1Spec.W(m, j)
    {
      LateWord(m, t);
      w[t] := CircularShift(1, Xor(Xor(Xor(w[t - 3], w[t - 8]), w[t - 14]), w[t - 16]));
    }
  }

  /** The four loops of twenty rounds. */
  method EightyRounds(h: Regs, w: array<Word>, ghost m: seq<Word>) returns (s: Regs)
    requires IsState(h) && |m| == 16 && AreWords(m) && w.Length == 80
    requires forall t: nat :: t < 80 ==> w[t] == Sha1Spec.W(m, t)
    ensures s == Rounds(h, m, 80)
  {
    hide Chosen, F, K, Add, CircularShift, Rotl, Sha1Spec.W;
    s := h;
    for q := 0 to 4
      invariant s == Rounds(h, m, 20 * q)
    {
      for t := 20 * q to 20 * q + 20
        invariant s == Rounds(h, m, t)
      {
        CircularShiftRotates(5, s.a);
        CircularShiftRotates(30, s.b);
        ChosenIsF(t, s.b, s.c, s.d);
        LastTwoSwapped(Add(Add(Rotl(s.a, 5), F(t, s.b, s.c, s.d)), s.e), K(t), w[t]);
        var temp := Add(Add(Add(Add(CircularShift(5, s.a), Chosen(t, s.b, s.c, s.d)), s.e), w[t]), K(t));
        s := Regs(temp, s.a, CircularShift(30, s.b), s.c, s.d);
      }
    }
  }

  // ---------------------------------------------------------------- the hash object

  class Hasher {
    const h: array<Word>
    const block: array<nat>
    var lengthLow: nat
    var lengthHigh: nat
    var index: nat
    var computed: bool
    var corrupted: bool

    /** Everything put in since the last reset. */
    ghost var message: seq<nat>

    ghost function State(): Regs
      requires h.Length == 5
      reads h
    {
      Regs(h[0], h[1], h[2], h[3], h[4])
    }

    ghost predicate Shape()
      reads h, block
    {
      h.Length == 5 && AreWords(h[..]) && block.Length == BLOCK && AreBytes(block[..])
    }

    /** The whole blocks are hashed and the rest is in the block. */
    ghost predicate Hashed(n: nat)
      reads this, h, block
    {
      && Shape() && AreBytes(message) && index <= BLOCK && |message| == BLOCK * n + index
      && block[..index] == message[BLOCK * n..] && State() == HashBlocks(message, n)
    }

    ghost predicate Counted()
      reads this
    {
      lengthLow < HALF && lengthHigh < HALF && lengthHigh * HALF + lengthLow == 8 * |message|
    }

    ghost predicate Valid()
      reads this, h, block
    {
      && Shape() && index < BLOCK
      && (!corrupted && !computed ==> Counted() && Hashed(|message| / BLOCK))
      && (!corrupted && computed ==> State() == Digest(message))
    }

    constructor ()
      ensures Valid() && !corrupted && !computed && message == [] && fresh(h) && fresh(block)
    {
      h := new Word[5](_ => Zeros(32));
      block := new nat[BLOCK](_ => 0);
      lengthLow, lengthHigh, index, computed, corrupted, message := 0, 0, 0, false, false, [];
      new;
      Reset();
    }

    /** The starting state (lines 133 to 137). */
    method Start()
      requires Shape()
      modifies h
      ensures Shape() && State() == Initial()
    {
      hide BitsOf, AreBytes;
      h[0] := BitsOf(0x67452301, 32);
      h[1] := BitsOf(0xefcdab89, 32);
      h[2] := BitsOf(0x98badcfe, 32);
      h[3] := BitsOf(0x10325476, 32);
      h[4] := BitsOf(0xc3d2e1f0, 32);
    }

    /** Lines 126 to 141. */
    method Reset()
      requires Shape()
      modifies this, h
      ensures Valid() && !corrupted && !computed && message == []
    {
      hide BitsOf, HashBlocks, Digest, Pad, AreWords, AreBytes, Initial;
      NothingHashed();
      EmptyBytes();
      lengthLow, lengthHigh, index := 0, 0, 0;
      Start();
      computed, corrupted, message := false, false, [];
      assert block[..0] == message[BLOCK * 0..] && |message| / BLOCK == 0;
      assert Hashed(0) && Counted();
    }

    /** Lines 278 to 367. */
    method ProcessMessageBlock()
      requires Shape()
      modifies this`index, h
      ensures Shape() && index == 0 && IsState(old(State())) && State() == Compress(old(State()), BlockWords(block[..]))
    {
      hide AreWords, AreBytes, BlockWords, Add, Rounds;
      RollingSha1.WordsOfState(h[..]);
      RollingSha1.BlockIsWords(block[..]);
      ghost var start, m := State(), BlockWords(block[..]);
      var w := Schedule(block);
      var s := EightyRounds(Regs(h[0], h[1], h[2], h[3], h[4]), w, m);
      h[0] := Add(h[0], s.a);
      h[1] := Add(h[1], s.b);
      h[2] := Add(h[2], s.c);
      h[3] := Add(h[3], s.d);
      h[4] := Add(h[4], s.e);
      RollingSha1.StateIsWords(h[..]);
      index := 0;
    }

    method StoreByte(b: nat, ghost n: nat)
      requires Hashed(n) && index < BLOCK && b < 256
      modifies this`index, this`message, block
      ensures Hashed(n) && index == old(index) + 1 && message == old(message) + [b]
    {
      hide HashBlocks, AreWords;
      HashOfPrefix(message, [b], n);
      ghost var before := block[..index];
      message := message + [b];
      block[index] := b;
      index := index + 1;
      assert block[..index] == before + [b] == message[BLOCK * n..];
    }

    /** Lines 188 to 197. */
    method CountByte()
      requires lengthLow < HALF && lengthHigh < HALF && lengthHigh * HALF + lengthLow == 8 * (|message| - 1)
      requires !corrupted && |message| > 0
      modifies this`lengthLow, this`lengthHigh, this`corrupted
      ensures corrupted <==> |message| == TOO_LONG
      ensures |message| < TOO_LONG ==> Counted()
    {
      LengthNext(lengthLow, lengthHigh, |message| - 1);
      lengthLow := (lengthLow + 8) % HALF;
      if lengthLow == 0 {
        lengthHigh := (lengthHigh + 1) % HALF;
        if lengthHigh == 0 {
          corrupted := true;
        }
      }
    }

    method HashFull(ghost n: nat)
      requires Hashed(n) && index == BLOCK
      modifies this`index, h
      ensures Hashed(n + 1) && index == 0
    {
      hide AreWords, BlockWords, Compress;
      assert message[BLOCK * n..BLOCK * (n + 1)] == block[..index] == block[..];
      ProcessMessageBlock();
      assert message[BLOCK * (n + 1)..] == [] == block[..index];
    }

    /** One round of the loop of lines 184 to 205. */
    method InputByte(b: nat)
      requires Valid() && !corrupted && !computed && b < 256
      modifies this, h, block
      ensures Valid() && !computed && message == old(message) + [b]
      ensures corrupted <==> |message| == TOO_LONG
    {
      hide HashBlocks, AreWords, Digest;
      ghost var n := |message| / BLOCK;
      ShortEnough(this);
      StoreByte(b, n);
      CountByte();
      if index == BLOCK {
        HashFull(n);
        QuotientIs(|message|, n + 1, 0);
      } else {
        QuotientIs(|message|, n, index);
      }
    }

    method Spoil()
      requires Valid()
      modifies this`corrupted
      ensures Valid() && corrupted
    {
      corrupted := true;
    }

    /** Lines 169 to 206: bytes after the result, or too many of them, spoil the object. */
    method Input(bytes: seq<nat>)
      requires Valid() && AreBytes(bytes)
      modifies this, h, block
      ensures Valid() && (old(corrupted) ==> corrupted)
      ensures bytes == [] ==> corrupted == old(corrupted) && computed == old(computed) && message == old(message)
      ensures bytes != [] && (old(corrupted) || old(computed)) ==> corrupted
      ensures !old(corrupted) && !old(computed) ==> !computed && (corrupted <==> bytes != [] && |old(message)| + |bytes| >= TOO_LONG)
      ensures !old(corrupted) && !old(computed) && !corrupted ==> message == old(message) + bytes
    {
      hide Valid, Shape, AreBytes;
      if |bytes| == 0 {
        return;
      }
      if computed || corrupted {
        Spoil();
        return;
      }
      ShortEnough(this);
      var i := 0;
      assert old(message) + bytes[..0] == message;
      while i < |bytes| && !corrupted
        invariant 0 <= i <= |bytes| && Valid() && !computed
        invariant message == old(message) + bytes[..i]
        invariant |message| <= TOO_LONG && (corrupted <==> |message| == TOO_LONG)
      {
        OneMoreByte(old(message), bytes, i);
        InputByte(bytes[i]);
        i := i + 1;
        if !corrupted { ShortEnough(this); }
      }
      assert i == |bytes| ==> bytes[..i] == bytes;
    }

    static lemma OneMoreByte(message: seq<nat>, bytes: seq<nat>, i: nat)
      requires AreBytes(bytes) && i < |bytes|
      ensures message + bytes[..i] + [bytes[i]] == message + bytes[..i + 1] && bytes[i] < 256
    {
    }

    /** Stores a byte of the padding. */
    method PutByte(b: nat)
      requires Shape() && index < BLOCK && b < 256
      modifies this`index, block
      ensures Shape() && index == old(index) + 1 && block[..index] == old(block[..index]) + [b]
    {
      block[index] := b;
      index := index + 1;
    }

    method PutZeros(upTo: nat)
      requires Shape() && index <= upTo <= BLOCK
      modifies this`index, block
      ensures Shape() && index == upTo && block[..index] == old(block[..index]) + Repeated<nat>(0, upTo - old(index))
    {
      ghost var start, was := index, block[..index];
      while index < upTo
        invariant Shape() && start <= index <= upTo && block[..index] == was + Repeated<nat>(0, index - start)
      {
        PutByte(0);
      }
    }

    /** The length as the last eight bytes (lines 402 to 412). */
    method PutLength()
      requires Shape() && index == 56 && Counted()
      modifies block
      ensures Shape() && block[..] == old(block[..56]) + LengthBytes(8 * |message|)
    {
      LengthInHalves(lengthHigh, lengthLow);
      block[56] := lengthHigh / 0x100_0000 % 256;
      block[57] := lengthHigh / 0x1_0000 % 256;
      block[58] := lengthHigh / 0x100 % 256;
      block[59] := lengthHigh % 256;
      block[60] := lengthLow / 0x100_0000 % 256;
      block[61] := lengthLow / 0x1_0000 % 256;
      block[62] := lengthLow / 0x100 % 256;
      block[63] := lengthLow % 256;
    }

    /** Hashes a block of the padded message. */
    method HashPadded(ghost padded: seq<nat>, ghost n: nat)
      requires Shape() && BLOCK * (n + 1) <= |padded| && State() == HashBlocks(padded, n)
      requires block[..] == padded[BLOCK * n..BLOCK * (n + 1)]
      modifies this`index, h
      ensures Shape() && index == 0 && State() == HashBlocks(padded, n + 1)
    {
      hide AreWords, BlockWords, Compress;
      ProcessMessageBlock();
    }

    /** Lines 369 to 415. */
    method PadMessage()
      requires Valid() && !corrupted && !computed
      modifies this`index, h, block
      ensures Shape() && index == 0 && State() == Digest(message)
    {
      hide HashBlocks, AreWords, BlockWords, Compress, Pad, LengthBytes;
      ghost var buffer, n := block[..index], |message| / BLOCK;
      ghost var padded := Pad(message);
      if index > 55 {
        PadInTwoBlocks(message, n, buffer);
        PutByte(0x80);
        PutZeros(BLOCK);
        assert block[..] == block[..BLOCK];
        HashPadded(padded, n);
        assert block[..index] == [];
        PutZeros(56);
        n := n + 1;
      } else {
        PadInOneBlock(message, n, buffer);
        PutByte(0x80);
        PutZeros(56);
      }
      PutLength();
      HashPadded(padded, n);
    }

    /** Lines 144 to 166: the digest, unless the object is spoilt. */
    method Result() returns (ok: bool, digest: Regs)
      requires Valid()
      modifies this`index, this`computed, h, block
      ensures Valid() && ok == !corrupted && (ok ==> computed && digest == Digest(message))
    {
      hide Digest, HashBlocks, AreWords, AreBytes;
      digest := Regs(h[0], h[1], h[2], h[3], h[4]);
      if corrupted {
        return false, digest;
      }
      if !computed {
        Finish();
      }
      digest := Regs(h[0], h[1], h[2], h[3], h[4]);
      ok := true;
    }

    /** Lines 150 to 154. */
    method Finish()
      requires Valid() && !corrupted && !computed
      modifies this`index, this`computed, h, block
      ensures Valid() && !corrupted && computed && State() == Digest(message)
    {
      hide Digest, HashBlocks, AreWords, AreBytes;
      PadMessage();
      computed := true;
    }
  }

  lemma QuotientIs(x: nat, n: nat, r: nat)
    requires x == BLOCK * n + r && r < BLOCK
    ensures x / BLOCK == n
  {
  }

  lemma ShortEnough(o: Hasher)
    requires o.Valid() && !o.corrupted && !o.computed
    ensures |o.message| < TOO_LONG
  {
    hide o.Shape, o.Hashed;
  }

  lemma LengthInHalves(high: nat, low: nat)
    requires high < HALF && low < HALF
    ensures LengthBytes(high * HALF + low)
         == [high / 0x100_0000 % 256, high / 0x1_0000 % 256, high / 0x100 % 256, high % 256,
             low / 0x100_0000 % 256, low / 0x1_0000 % 256, low / 0x100 % 256, low % 256]
  {
    var n := high * HALF + low;
    HighBytes(n);
    assert n / HALF == high;
    LowBytes(high, low);
  }

  lemma LowBytes(high: nat, low: nat)
    requires low < HALF
    ensures var n := high * HALF + low;
            && n / 0x100_0000 % 256 == low / 0x100_0000 % 256 && n / 0x1_0000 % 256 == low / 0x1_0000 % 256
            && n / 0x100 % 256 == low / 0x100 % 256 && n % 256 == low % 256
  {
    var n := high * HALF + low;
    ThreeBytes(n);
    ThreeBytes(low);
    ByteAbove(high * 0x100_0000, low);
    ByteAbove(high * 0x1_0000, low / 256);
    ByteAbove(high * 0x100, low / 256 / 256);
    ByteAbove(high, low / 256 / 256 / 256);
  }

  /** Adding a multiple of 256 changes only the higher bytes. */
  lemma ByteAbove(k: nat, x: nat)
    ensures (256 * k + x) % 256 == x % 256 && (256 * k + x) / 256 == k + x / 256
  {
  }

  lemma ThreeBytes(x: nat)
    ensures x / 256 / 256 == x / 0x1_0000 && x / 256 / 256 / 256 == x / 0x100_0000
  {
  }

  lemma EmptyBytes()
    ensures AreBytes([])
  {
  }

  lemma NothingHashed()
    ensures HashBlocks([], 0) == Initial()
  {
  }

  /** The two halves of the length overflow together when there are 2 to the 64 bits. */
  lemma LengthNext(low: nat, high: nat, n: nat)
    requires low < HALF && high < HALF && high * HALF + low == 8 * n
    ensures var low' := (low + 8) % HALF;
            var high' := if low' == 0 then (high + 1) % HALF else high;
            && low' < HALF && high' < HALF
            && (low' == 0 && high' == 0 <==> n + 1 == TOO_LONG)
            && (n + 1 < TOO_LONG ==> high' * HALF + low' == 8 * (n + 1))
  {
    assert low == 8 * (n - high * 0x2000_0000);
  }

  lemma InTwoParts(message: seq<nat>, cut: nat)
    requires AreBytes(message) && cut <= |message|
    ensures AreBytes(message[..cut]) && AreBytes(message[cut..]) && [] + message[..cut] + message[cut..] == message
  {
  }

  method RollingDigest(message: seq<nat>, cut: nat) returns (r: string)
    requires AreBytes(message) && cut <= |message|
    ensures r == RollingSha1.DigestText(Digest(message))
  {
    hide Digest, RollingSha1.Sha1.Valid, RollingSha1.DigestText, AreBytes;
    InTwoParts(message, cut);
    var o := new RollingSha1.Sha1();
    o.Update(message[..cut]);
    o.Update(message[cut..]);
    r := o.Final();
  }

  method WrittenDigest(message: seq<nat>, cut: nat) returns (r: Regs)
    requires AreBytes(message) && |message| < TOO_LONG && cut <= |message|
    ensures r == Digest(message)
  {
    hide Digest, Hasher.Valid, AreBytes;
    InTwoParts(message, cut);
    var o := new Hasher();
    o.Input(message[..cut]);
    o.Input(message[cut..]);
    var ok;
    ok, r := o.Result();
  }

  /** The two implementations agree on every message of fewer than 2 to the 64 bits, however each is fed; one gives
      the digest as text. */
  method Agree(message: seq<nat>, cut: nat, cut': nat) returns (rolling: string, written: Regs)
    requires AreBytes(message) && |message| < TOO_LONG && cut <= |message| && cut' <= |message|
    ensures written == Digest(message) && rolling == RollingSha1.DigestText(written)
  {
    hide Digest, RollingSha1.DigestText;
    rolling := RollingDigest(message, cut);
    written := WrittenDigest(message, cut');
  }
}
