/** `src/sha1.cpp`: SHA-1 with a schedule of 16 words that is overwritten as it is used, and with working
    registers that change roles instead of places. */
module RollingSha1 {
  import Bits
  import opened Words
  import opened Sha1Spec
  import opened Sequences

  // ---------------------------------------------------------------- bytes to words

  lemma {:induction false} SmallNumber(x: nat, j: nat, k: nat)
    requires x < Bits.Pow2(k)
    ensures BitsOf(x, j + k) == Zeros(j) + BitsOf(x, k)
  {
    if k > 0 {
      SmallNumber(x / 2, j, k - 1);
    } else {
      ZeroBits(j);
    }
  }

  lemma {:induction false} ZeroBits(j: nat)
    ensures BitsOf(0, j) == Zeros(j)
  {
    if j > 0 { ZeroBits(j - 1); }
  }

  /** Four bytes put together with shifts and ors. */
  function Assembled(b0: nat, b1: nat, b2: nat, b3: nat): (w: Word)
    ensures |w| == 32
  {
    Or(Or(Or(BitsOf(b3, 32), Shl(BitsOf(b2, 32), 8)), Shl(BitsOf(b1, 32), 16)), Shl(BitsOf(b0, 32), 24))
  }

  lemma ShiftedByte(b: nat, k: nat)
    requires b < 256 && k <= 24
    ensures Shl(BitsOf(b, 32), k) == Zeros(24 - k) + BitsOf(b, 8) + Zeros(k)
  {
    assert Bits.Pow2(8) == 256;
    SmallNumber(b, 24, 8);
  }

  lemma AssembledIs(b0: nat, b1: nat, b2: nat, b3: nat)
    requires b0 < 256 && b1 < 256 && b2 < 256 && b3 < 256
    ensures Assembled(b0, b1, b2, b3) == FourBytes(b0, b1, b2, b3)
  {
    hide BitsOf, Shl;
    assert Bits.Pow2(8) == 256;
    SmallNumber(b3, 24, 8);
    ShiftedByte(b2, 8);
    ShiftedByte(b1, 16);
    ShiftedByte(b0, 24);
  }

  /** `rol`. */
  function Rol(w: Word, n: nat): (r: Word)
    requires |w| == 32 && 0 < n < 32
    ensures |r| == 32
  {
    Or(Shl(w, n), Shr(w, 32 - n))
  }

  // ---------------------------------------------------------------- registers that change roles

  /** Which register plays role `j` (0 for `v` to 4 for `z`) in round `t`. */
  function Role(t: nat, j: nat): (i: nat)
    requires t <= 80 && j < 5
    ensures i < 5
  {
    (80 - t + j) % 5
  }

  lemma RolesMove(t: nat)
    requires t < 80
    ensures Role(t + 1, 0) == Role(t, 4) && Role(t + 1, 1) == Role(t, 0) && Role(t + 1, 2) == Role(t, 1)
    ensures Role(t + 1, 3) == Role(t, 2) && Role(t + 1, 4) == Role(t, 3)
  {
  }

  lemma RolesDiffer(t: nat)
    requires t <= 80
    ensures forall i: nat, j: nat :: i < j < 5 ==> Role(t, i) != Role(t, j)
  {
  }

  /** The registers in their roles. */
  ghost function InRoles(r: seq<Word>, t: nat): (s: Regs)
    requires |r| == 5 && t <= 80
  {
    Regs(r[Role(t, 0)], r[Role(t, 1)], r[Role(t, 2)], r[Role(t, 3)], r[Role(t, 4)])
  }

  /** The function of rounds `t` in the form of the macros. */
  function Mixed(t: nat, w: Word, x: Word, y: Word): (r: Word)
    requires |w| == |x| == |y|
    ensures |r| == |w|
  {
    if t < 20 then Xor(And(w, Xor(x, y)), y)
    else if 40 <= t < 60 then Or(And(Or(w, x), y), And(w, x))
    else Xor(Xor(w, x), y)
  }

  lemma MixedIsF(t: nat, w: Word, x: Word, y: Word)
    requires |w| == |x| == |y|
    ensures Mixed(t, w, x, y) == F(t, w, x, y)
  {
    hide Choose, Majority, Parity;
    ChooseOtherwise(w, x, y);
    MajorityOtherwise(w, x, y);
    ParityIs(w, x, y);
  }

  lemma ParityIs(w: Word, x: Word, y: Word)
    requires |w| == |x| == |y|
    ensures Parity(w, x, y) == Xor(Xor(w, x), y)
  {
  }

  /** The five terms in the order the macros add them. */
  lemma SumInOtherOrder(rot: Word, f: Word, e: Word, k: Word, w: Word)
    ensures Add(e, Add(Add(Add(f, w), k), rot)) == Add(Add(Add(Add(rot, f), e), k), w)
  {
    hide Add;
    AddCommutes(e, Add(Add(Add(f, w), k), rot));
    AddCommutes(Add(Add(f, w), k), rot);
    AddAssociates(f, w, k);
    AddCommutes(w, k);
    AddAssociates(rot, f, Add(k, w));
    AddAssociates(Add(rot, f), Add(k, w), e);
    AddCommutes(Add(k, w), e);
    AddAssociates(Add(rot, f), e, Add(k, w));
    AddAssociates(Add(Add(rot, f), e), k, w);
  }

  /** `R0` to `R4`: one round writes two registers. */
  method OneRound(r: array<Word>, t: nat, wt: Word)
    requires r.Length == 5 && t < 80 && AreWords(r[..]) && |wt| == 32
    modifies r
    ensures AreWords(r[..]) && IsState(InRoles(old(r[..]), t)) && InRoles(r[..], t + 1) == Round(InRoles(old(r[..]), t), t, wt)
  {
    hide Role, Mixed, F, K, Add, Rol, Rotl;
    RolesMove(t);
    RolesDiffer(t);
    var v, w, x, y, z := Role(t, 0), Role(t, 1), Role(t, 2), Role(t, 3), Role(t, 4);
    RegistersAreWords(r[..], t);
    MixedIsF(t, r[w], r[x], r[y]);
    RotationIs(r[v], 5);
    RotationIs(r[w], 30);
    SumInOtherOrder(Rotl(r[v], 5), F(t, r[w], r[x], r[y]), r[z], K(t), wt);
    r[z] := Add(r[z], Add(Add(Add(Mixed(t, r[w], r[x], r[y]), wt), K(t)), Rol(r[v], 5)));
    r[w] := Rol(r[w], 30);
  }

  lemma RegistersAreWords(r: seq<Word>, t: nat)
    requires |r| == 5 && t <= 80 && AreWords(r)
    ensures IsState(InRoles(r, t))
  {
    assert forall i :: 0 <= i < 5 ==> IsWord(r[i]);
  }

  lemma RotationIs(w: Word, n: nat)
    requires |w| == 32 && 0 < n < 32
    ensures Rol(w, n) == Rotl(w, n)
  {
    RotationByShifts(w, n);
  }

  // ---------------------------------------------------------------- the rolling schedule

  /** Before round `t` the block holds the words of the schedule from 16 rounds before on, in a ring. */
  ghost predicate Rolling(block: seq<Word>, m: seq<Word>, t: nat)
    requires |m| == 16 && AreWords(m)
  {
    |block| == 16 && forall j: nat :: Oldest(t) <= j < Oldest(t) + 16 ==> block[Ring(j)] == W(m, j)
  }

  ghost function Oldest(t: nat): nat { if t < 16 then 0 else t - 16 }

  function Ring(j: nat): (i: nat)
    ensures i < 16
  {
    j % 16
  }

  /** `blk(i)`: the word for this round, computed in place from round 16 on. */
  method NextWord(block: array<Word>, ghost m: seq<Word>, t: nat) returns (wt: Word)
    requires block.Length == 16 && |m| == 16 && AreWords(m) && Rolling(block[..], m, t)
    modifies block
    ensures wt == W(m, t) && Rolling(block[..], m, t + 1)
  {
    hide Ring, Rolling;
    if t < 16 {
      EarlyWord(block[..], m, t);
    } else {
      ghost var s := block[..];
      RollingReads(s, m, t);
      block[Ring(t)] := Rol(Xor(Xor(Xor(block[Ring(t + 13)], block[Ring(t + 8)]), block[Ring(t + 2)]), block[Ring(t)]), 1);
      RotationIs(Xor(Xor(Xor(W(m, t - 3), W(m, t - 8)), W(m, t - 14)), W(m, t - 16)), 1);
      RollingNext(s, m, t);
      assert block[..] == s[Ring(t) := W(m, t)];
    }
    wt := block[Ring(t)];
  }

  lemma EarlyWord(block: seq<Word>, m: seq<Word>, t: nat)
    requires |m| == 16 && AreWords(m) && t < 16 && Rolling(block, m, t)
    ensures |block| == 16 && block[Ring(t)] == W(m, t) && Rolling(block, m, t + 1)
  {
  }

  lemma RollingReads(block: seq<Word>, m: seq<Word>, t: nat)
    requires |m| == 16 && AreWords(m) && t >= 16 && Rolling(block, m, t)
    ensures |block| == 16 && block[Ring(t + 13)] == W(m, t - 3) && block[Ring(t + 8)] == W(m, t - 8)
    ensures block[Ring(t + 2)] == W(m, t - 14) && block[Ring(t)] == W(m, t - 16)
  {
    hide W, Ring;
    OnceAround(t - 3);
    OnceAround(t - 8);
    OnceAround(t - 14);
    OnceAround(t - 16);
    assert block[Ring(t - 3)] == W(m, t - 3) && block[Ring(t - 8)] == W(m, t - 8);
    assert block[Ring(t - 14)] == W(m, t - 14) && block[Ring(t - 16)] == W(m, t - 16);
  }

  lemma OnceAround(j: nat)
    ensures Ring(j + 16) == Ring(j)
  {
  }

  lemma RollingNext(block: seq<Word>, m: seq<Word>, t: nat)
    requires |m| == 16 && AreWords(m) && t >= 16 && Rolling(block, m, t)
    ensures |block| == 16 && Rolling(block[Ring(t) := W(m, t)], m, t + 1)
  {
    hide W, Ring;
    var b := block[Ring(t) := W(m, t)];
    forall j: nat | t - 15 <= j < t + 1 ensures b[Ring(j)] == W(m, j) {
      if j < t { RingDiffers(j, t); }
    }
  }

  lemma RingDiffers(j: nat, t: nat)
    requires j < t < j + 16
    ensures Ring(j) != Ring(t)
  {
  }

  // ---------------------------------------------------------------- the hash object

  class Sha1 {
    const digest: array<Word>
    var buffer: seq<nat>
    var transforms: nat

    /** Everything put in since the last reset. */
    ghost var message: seq<nat>

    ghost function State(): Regs
      requires digest.Length == 5
      reads digest
    {
      Regs(digest[0], digest[1], digest[2], digest[3], digest[4])
    }

    /** All whole blocks but the buffer are hashed. */
    ghost predicate Hashed()
      reads this, digest
    {
      && digest.Length == 5 && AreWords(digest[..]) && AreBytes(message)
      && |message| == BLOCK * transforms + |buffer| && buffer == message[BLOCK * transforms..]
      && State() == HashBlocks(message, transforms)
    }

    ghost predicate Valid()
      reads this, digest
    {
      Hashed() && |buffer| < BLOCK
    }

    constructor ()
      ensures Valid() && message == [] && fresh(digest)
    {
      digest := new Word[5](_ => []);
      buffer, transforms, message := [], 0, [];
      new;
      Reset();
    }

    /** Lines 111 to 123. */
    method Reset()
      requires digest.Length == 5
      modifies this, digest
      ensures Valid() && message == []
    {
      hide BitsOf;
      digest[0] := BitsOf(0x67452301, 32);
      digest[1] := BitsOf(0xefcdab89, 32);
      digest[2] := BitsOf(0x98badcfe, 32);
      digest[3] := BitsOf(0x10325476, 32);
      digest[4] := BitsOf(0xc3d2e1f0, 32);
      transforms, buffer, message := 0, [], [];
    }

    /** Lines 233 to 237. */
    method AddToDigest(r: array<Word>)
      requires digest.Length == 5 == r.Length && r != digest
      modifies digest
      ensures State() == Regs(Add(old(digest[0]), r[0]), Add(old(digest[1]), r[1]), Add(old(digest[2]), r[2]),
                              Add(old(digest[3]), r[3]), Add(old(digest[4]), r[4]))
    {
      hide Add;
      digest[0] := Add(digest[0], r[0]);
      digest[1] := Add(digest[1], r[1]);
      digest[2] := Add(digest[2], r[2]);
      digest[3] := Add(digest[3], r[3]);
      digest[4] := Add(digest[4], r[4]);
    }

    /** Lines 130 to 241: the compression function, on a block that is used up by it. */
    method Transform(block: array<Word>)
      requires digest.Length == 5 && AreWords(digest[..]) && block.Length == 16 && AreWords(block[..]) && block != digest
      modifies this`transforms, digest, block
      ensures AreWords(digest[..]) && IsState(old(State())) && State() == Compress(old(State()), old(block[..]))
      ensures transforms == old(transforms) + 1
    {
      hide Rolling, Round, AreWords, Role, Add, Sha1Spec.W;
      ghost var h, m := State(), block[..];
      WordsOfState(digest[..]);
      var r := new Word[5](i requires 0 <= i < 5 && digest.Length == 5 reads digest => digest[i]);
      assert r[..] == digest[..];
      StartRolling(m);
      StartRoles(r[..]);
      for t := 0 to 80
        invariant AreWords(r[..]) && InRoles(r[..], t) == Rounds(h, m, t) && Rolling(block[..], m, t)
        invariant digest[..] == old(digest[..]) && transforms == old(transforms)
      {
        var wt := NextWord(block, m, t);
        OneRound(r, t, wt);
      }
      StartRoles(r[..]);
      AddToDigest(r);
      StateIsWords(digest[..]);
      transforms := transforms + 1;
    }
  
    /** Lines 244 to 254. */
    static method BufferToBlock(bytes: seq<nat>, block: array<Word>)
      requires |bytes| == BLOCK && AreBytes(bytes) && block.Length == 16
      modifies block
      ensures block[..] == BlockWords(bytes)
    {
      hide Assembled, FourBytes;
      for i := 0 to 16
        invariant forall k :: 0 <= k < i ==> block[k] == BlockWords(bytes)[k]
      {
        AssembledIs(bytes[4 * i], bytes[4 * i + 1], bytes[4 * i + 2], bytes[4 * i + 3]);
        block[i] := Assembled(bytes[4 * i], bytes[4 * i + 1], bytes[4 * i + 2], bytes[4 * i + 3]);
      }
    }

    /** Hashes a full buffer. */
    method HashBuffer()
      requires Hashed() && |buffer| == BLOCK
      modifies this`transforms, this`buffer, digest
      ensures Hashed() && buffer == []
    {
      hide Compress, AreWords, HashBlocks, BlockWords, IsState;
      var block := new Word[16](_ => []);
      HashOfNext(message, transforms);
      BufferToBlock(buffer, block);
      BlockIsWords(buffer);
      assert message[BLOCK * transforms..BLOCK * (transforms + 1)] == buffer;
      Transform(block);
      buffer := [];
    }

    /** Lines 48 to 62: reads the stream in pieces that fill the buffer, and hashes it as often as a piece
        was read in full. */
    method Update(s: seq<nat>)
      requires Valid() && AreBytes(s)
      modifies this, digest
      ensures Valid() && message == old(message) + s
    {
      hide HashBlocks, AreWords, Hashed, Digest, Pad;
      var max := BLOCK - |buffer|;
      var pos := if |s| < max then |s| else max;
      var full := pos == max;
      Take(s[..pos]);
      while full
        invariant Hashed() && pos <= |s| && message == old(message) + s[..pos]
        invariant |buffer| == BLOCK <==> full
        invariant |buffer| <= BLOCK && (!full ==> pos == |s|)
        decreases |s| - pos, full
      {
        HashBuffer();
        var n := if |s| - pos < BLOCK then |s| - pos else BLOCK;
        full := n == BLOCK;
        assert s[..pos] + s[pos..pos + n] == s[..pos + n];
        Take(s[pos..pos + n]);
        pos := pos + n;
      }
      assert s[..pos] == s;
    }

    /** Appends to the buffer. */
    method Take(piece: seq<nat>)
      requires Hashed() && AreBytes(piece) && |buffer| + |piece| <= BLOCK
      modifies this`buffer, this`message
      ensures Hashed() && message == old(message) + piece && buffer == old(buffer) + piece
    {
      hide HashBlocks, AreWords;
      HashOfPrefix(message, piece, transforms);
      buffer := buffer + piece;
      message := message + piece;
    }

    /** Lines 65 to 95 and 105: padding, the length, and the digest; then everything starts again. */
    method Close() returns (result: Regs)
      requires Valid()
      modifies this, digest
      ensures result == Digest(old(message))
      ensures Valid() && message == []
    {
      hide HashBlocks, AreWords, BlockWords, Compress, Pad, LowWord, HighWord;
      var totalBits := (transforms * BLOCK + |buffer|) * 8 % 0x1_0000_0000_0000_0000;
      ghost var bits, n := 8 * |message|, transforms;
      var last := buffer + [0x80];
      var origSize := |last|;
      last := last + Repeated<nat>(0, BLOCK - |last|);
      var block := new Word[16](_ => []);
      BufferToBlock(last, block);
      BlockIsWords(last);
      if origSize > BLOCK - 8 {
        TwoBlocksLeft(message, n, buffer, last);
        Transform(block);
        ClearFront(block);
        n := n + 1;
      } else {
        OneBlockLeft(message, n, buffer, last);
      }
      PutLength(block, totalBits, bits);
      FrontCleared(block[..], bits, origSize > BLOCK - 8);
      Transform(block);
      result := Regs(digest[0], digest[1], digest[2], digest[3], digest[4]);
      Reset();
    }

    /** Lines 65 to 108: the digest as text. */
    method Final() returns (result: string)
      requires Valid()
      modifies this, digest
      ensures result == DigestText(Digest(old(message)))
      ensures Valid() && message == []
    {
      hide Digest, Valid, Padded, HexNumber;
      var d := Close();
      result := Padded(HexNumber(ValueOf(d.a)), 8);
      result := result + Padded(HexNumber(ValueOf(d.b)), 8);
      result := result + Padded(HexNumber(ValueOf(d.c)), 8);
      result := result + Padded(HexNumber(ValueOf(d.d)), 8);
      result := result + Padded(HexNumber(ValueOf(d.e)), 8);
    }
  }

  // ---------------------------------------------------------------- the digest as text

  function HexDigit(v: nat): (c: char)
    requires v < 16
  {
    if v < 10 then ('0' as int + v) as char else ('a' as int + v - 10) as char
  }

  /** `std::hex`. */
  function HexNumber(n: nat): (s: string)
    ensures s != ""
  {
    if n < 16 then [HexDigit(n)] else HexNumber(n / 16) + [HexDigit(n % 16)]
  }

  /** `std::setfill('0')` and `std::setw`. */
  function Padded(s: string, width: nat): string {
    if |s| >= width then s else Repeated('0', width - |s|) + s
  }

  function DigestText(r: Regs): string {
    Padded(HexNumber(ValueOf(r.a)), 8) + Padded(HexNumber(ValueOf(r.b)), 8) + Padded(HexNumber(ValueOf(r.c)), 8)
    + Padded(HexNumber(ValueOf(r.d)), 8) + Padded(HexNumber(ValueOf(r.e)), 8)
  }

  function FromHex(s: string): nat {
    if s == "" then 0
    else
      var c := s[|s| - 1] as int;
      16 * FromHex(s[..|s| - 1]) + if '0' as int <= c <= '9' as int then c - '0' as int else if c >= 'a' as int then c - 'a' as int + 10 else 0
  }

  lemma {:induction false} NumberIsRead(n: nat, digits: nat)
    requires digits >= 1 && n < Bits.Pow2(4 * digits)
    ensures FromHex(HexNumber(n)) == n && |HexNumber(n)| <= digits
  {
    if n < 16 {
      assert FromHex("") == 0;
      assert [HexDigit(n)][..0] == "";
    } else {
      assert Bits.Pow2(4 * digits) == 16 * Bits.Pow2(4 * digits - 4) by { Sixteen(4 * digits - 4); }
      assert Bits.Pow2(0) == 1;
      NumberIsRead(n / 16, digits - 1);
      assert HexNumber(n)[..|HexNumber(n)| - 1] == HexNumber(n / 16);
    }
  }

  lemma Sixteen(k: nat)
    ensures Bits.Pow2(k + 4) == 16 * Bits.Pow2(k)
  {
    assert Bits.Pow2(k + 4) == 2 * Bits.Pow2(k + 3) && Bits.Pow2(k + 3) == 2 * Bits.Pow2(k + 2) && Bits.Pow2(k + 2) == 2 * Bits.Pow2(k + 1);
  }

  lemma {:induction false} PaddingIsRead(s: string, n: nat)
    ensures FromHex(Repeated('0', n) + s) == FromHex(s)
    decreases |s|
  {
    if s == "" {
      ZerosAreRead(n);
      assert Repeated('0', n) + s == Repeated('0', n);
    } else {
      PaddingIsRead(s[..|s| - 1], n);
      assert (Repeated('0', n) + s)[..n + |s| - 1] == Repeated('0', n) + s[..|s| - 1];
    }
  }

  lemma {:induction false} ZerosAreRead(n: nat)
    ensures FromHex(Repeated('0', n)) == 0
  {
    if n > 0 {
      assert Repeated('0', n)[..n - 1] == Repeated('0', n - 1);
      ZerosAreRead(n - 1);
    }
  }

  /** Eight digits for every word, from which the word can be read back. */
  lemma WordIsRead(w: Word)
    requires |w| == 32
    ensures var s := Padded(HexNumber(ValueOf(w)), 8);
            |s| == 8 && BitsOf(FromHex(s), 32) == w
  {
    hide FromHex, HexNumber, BitsOf, ValueOf, Bits.Pow2;
    ValueBound(w);
    NumberIsRead(ValueOf(w), 8);
    PaddingIsRead(HexNumber(ValueOf(w)), 8 - |HexNumber(ValueOf(w))|);
    assert Repeated('0', 0) + HexNumber(ValueOf(w)) == HexNumber(ValueOf(w));
    BitsOfValue(w);
  }

  /** The text of a digest has forty characters, and different digests have different texts. */
  lemma TextIsDigest(r: Regs)
    requires IsState(r)
    ensures var t := DigestText(r);
            && |t| == 40
            && r == Regs(BitsOf(FromHex(t[..8]), 32), BitsOf(FromHex(t[8..16]), 32), BitsOf(FromHex(t[16..24]), 32),
                         BitsOf(FromHex(t[24..32]), 32), BitsOf(FromHex(t[32..]), 32))
  {
    hide Padded, HexNumber, FromHex, BitsOf;
    WordIsRead(r.a);
    WordIsRead(r.b);
    WordIsRead(r.c);
    WordIsRead(r.d);
    WordIsRead(r.e);
    FiveParts(Padded(HexNumber(ValueOf(r.a)), 8), Padded(HexNumber(ValueOf(r.b)), 8), Padded(HexNumber(ValueOf(r.c)), 8),
              Padded(HexNumber(ValueOf(r.d)), 8), Padded(HexNumber(ValueOf(r.e)), 8));
  }

  lemma FiveParts(a: string, b: string, c: string, d: string, e: string)
    requires |a| == |b| == |c| == |d| == |e| == 8
    ensures var t := a + b + c + d + e;
            |t| == 40 && t[..8] == a && t[8..16] == b && t[16..24] == c && t[24..32] == d && t[32..] == e
  {
  }

  method ClearFront(block: array<Word>)
    requires block.Length == 16
    modifies block
    ensures forall k :: 0 <= k < 14 ==> block[k] == Zeros(32)
  {
    for i := 0 to 14
      invariant forall k :: 0 <= k < i ==> block[k] == Zeros(32)
    {
      block[i] := Zeros(32);
    }
  }

  method PutLength(block: array<Word>, totalBits: nat, ghost bits: nat)
    requires block.Length == 16 && totalBits == bits % 0x1_0000_0000_0000_0000
    modifies block
    ensures block[..] == old(block[..])[15 := LowWord(bits)][14 := HighWord(bits)]
  {
    block[15] := BitsOf(totalBits % 0x1_0000_0000, 32);
    block[14] := BitsOf(totalBits / 0x1_0000_0000, 32);
  }

  lemma FrontCleared(block: seq<Word>, bits: nat, cleared: bool)
    requires |block| == 16 && block[15] == LowWord(bits) && block[14] == HighWord(bits)
    requires cleared ==> forall k :: 0 <= k < 14 ==> block[k] == Zeros(32)
    ensures cleared ==> block == LengthBlock(bits)
  {
  }

  lemma OneBlockLeft(message: seq<nat>, n: nat, buffer: seq<nat>, last: seq<nat>)
    requires |buffer| < 56 && |message| == BLOCK * n + |buffer| && buffer == message[BLOCK * n..]
    requires last == buffer + [0x80] + Repeated<nat>(0, 63 - |buffer|)
    ensures |Pad(message)| == BLOCK * (n + 1) && HashBlocks(Pad(message), n) == HashBlocks(message, n)
    ensures var m := BlockWords(last)[15 := LowWord(8 * |message|)][14 := HighWord(8 * |message|)];
            AreWords(m) && HashBlocks(Pad(message), n + 1) == Compress(HashBlocks(message, n), m)
  {
    hide BlockWords, Compress, LengthBytes, HighWord, LowWord;
    PadInOneBlock(message, n, buffer);
    var front := buffer + [0x80] + Repeated<nat>(0, 55 - |buffer|);
    LastBlock(front, 8 * |message|);
    assert last == front + Repeated<nat>(0, 8);
  }

  /** A block of nothing but the length. */
  ghost function LengthBlock(bits: nat): (m: seq<Word>)
    ensures |m| == 16
  {
    Repeated(Zeros(32), 16)[15 := LowWord(bits)][14 := HighWord(bits)]
  }

  lemma HashOfNext(bytes: seq<nat>, n: nat)
    requires BLOCK * (n + 1) <= |bytes|
    ensures HashBlocks(bytes, n + 1) == Compress(HashBlocks(bytes, n), BlockWords(bytes[BLOCK * n..BLOCK * (n + 1)]))
  {
  }

  lemma TwoBlocksLeft(message: seq<nat>, n: nat, buffer: seq<nat>, last: seq<nat>)
    requires 56 <= |buffer| < BLOCK && |message| == BLOCK * n + |buffer| && buffer == message[BLOCK * n..]
    requires last == buffer + [0x80] + Repeated<nat>(0, 63 - |buffer|)
    ensures |Pad(message)| == BLOCK * (n + 2)
    ensures HashBlocks(Pad(message), n + 1) == Compress(HashBlocks(message, n), BlockWords(last))
    ensures AreWords(LengthBlock(8 * |message|))
    ensures HashBlocks(Pad(message), n + 2) == Compress(HashBlocks(Pad(message), n + 1), LengthBlock(8 * |message|))
  {
    hide BlockWords, Compress, LengthBytes, HighWord, LowWord;
    PadInTwoBlocks(message, n, buffer);
    LastBlock(Repeated<nat>(0, 56), 8 * |message|);
    ZeroBlock();
    assert Repeated<nat>(0, 56) + Repeated<nat>(0, 8) == Repeated<nat>(0, 64);
  }

  lemma ZeroBlock()
    ensures BlockWords(Repeated<nat>(0, 64)) == Repeated(Zeros(32), 16)
  {
    hide FourBytes;
    ZeroWord();
  }

  lemma BlockIsWords(bytes: seq<nat>)
    requires |bytes| == BLOCK
    ensures |BlockWords(bytes)| == 16 && AreWords(BlockWords(bytes))
  {
  }

  lemma WordsOfState(d: seq<Word>)
    requires |d| == 5 && AreWords(d)
    ensures IsState(Regs(d[0], d[1], d[2], d[3], d[4]))
  {
    assert forall i :: 0 <= i < 5 ==> IsWord(d[i]);
  }

  lemma StateIsWords(d: seq<Word>)
    requires |d| == 5 && IsState(Regs(d[0], d[1], d[2], d[3], d[4]))
    ensures AreWords(d)
  {
  }

  lemma StartRoles(r: seq<Word>)
    requires |r| == 5
    ensures InRoles(r, 0) == InRoles(r, 80) == Regs(r[0], r[1], r[2], r[3], r[4])
  {
  }

  lemma StartRolling(m: seq<Word>)
    requires |m| == 16 && AreWords(m)
    ensures Rolling(m, m, 0)
  {
  }
}
