/** The example of FIPS 180-2, appendix A.1: the digest of "abc". */
module Sha1Example {
  import Bits
  import opened Words
  import opened WordVectors
  import opened Sequences
  import opened Sha1Spec
  import RollingSha1

  // ---------------------------------------------------------------- one step

  function Constant(t: nat): bv32 {
    if t < 20 then 0x5a827999 else if t < 40 then 0x6ed9eba1 else if t < 60 then 0x8f1bbcdc else 0xca62c1d6
  }

  lemma ConstantIs(t: nat)
    ensures K(t) == WordOf(Constant(t), 32)
  {
    hide WordOf;
    if t < 20 {
      NumberIs(0x5a827999, 0x5a827999, 0x5a8279, 0x5a8279, 0x5a82, 0x5a82, 0x5a, 0x5a);
    } else if t < 40 {
      NumberIs(0x6ed9eba1, 0x6ed9eba1, 0x6ed9eb, 0x6ed9eb, 0x6ed9, 0x6ed9, 0x6e, 0x6e);
    } else if t < 60 {
      NumberIs(0x8f1bbcdc, 0x8f1bbcdc, 0x8f1bbc, 0x8f1bbc, 0x8f1b, 0x8f1b, 0x8f, 0x8f);
    } else {
      NumberIs(0xca62c1d6, 0xca62c1d6, 0xca62c1, 0xca62c1, 0xca62, 0xca62, 0xca, 0xca);
    }
  }

  function Chosen(x: bv32, y: bv32, z: bv32): bv32 { (x & (y ^ z)) ^ z }

  lemma ChooseOfHalf(x: bv32, y: bv32, z: bv32)
    ensures Half(Chosen(x, y, z)) == Chosen(Half(x), Half(y), Half(z)) && (Odd(Chosen(x, y, z)) <==> if Odd(x) then Odd(y) else Odd(z))
  {
  }

  lemma ChooseOneMore(x: Word, y: Word, z: Word, a: bool, b: bool, c: bool)
    requires |x| == |y| == |z|
    ensures Choose(x + [a], y + [b], z + [c]) == Choose(x, y, z) + [if a then b else c]
  {
  }

  lemma NoBitsChoose()
    ensures Choose([], [], []) == []
  {
  }

  lemma {:induction false} ChooseOf(x: bv32, y: bv32, z: bv32, n: nat)
    ensures Choose(WordOf(x, n), WordOf(y, n), WordOf(z, n)) == WordOf(Chosen(x, y, z), n)
    decreases n
  {
    hide Choose, Half, Odd, Chosen;
    NoBitsChoose();
    if n > 0 {
      ChooseOfHalf(x, y, z);
      ChooseOf(Half(x), Half(y), Half(z), n - 1);
      ChooseOneMore(WordOf(Half(x), n - 1), WordOf(Half(y), n - 1), WordOf(Half(z), n - 1), Odd(x), Odd(y), Odd(z));
    }
  }

  function Agreed(x: bv32, y: bv32, z: bv32): bv32 { (x & y) ^ (x & z) ^ (y & z) }

  lemma MajorityOfHalf(x: bv32, y: bv32, z: bv32)
    ensures Half(Agreed(x, y, z)) == Agreed(Half(x), Half(y), Half(z)) && (Odd(Agreed(x, y, z)) <==> if Odd(x) == Odd(y) then Odd(x) else Odd(z))
  {
  }

  lemma MajorityOneMore(x: Word, y: Word, z: Word, a: bool, b: bool, c: bool)
    requires |x| == |y| == |z|
    ensures Majority(x + [a], y + [b], z + [c]) == Majority(x, y, z) + [if a == b then a else c]
  {
  }

  lemma NoBitsMajority()
    ensures Majority([], [], []) == []
  {
  }

  lemma {:induction false} MajorityOf(x: bv32, y: bv32, z: bv32, n: nat)
    ensures Majority(WordOf(x, n), WordOf(y, n), WordOf(z, n)) == WordOf(Agreed(x, y, z), n)
    decreases n
  {
    hide Majority, Half, Odd, Agreed;
    NoBitsMajority();
    if n > 0 {
      MajorityOfHalf(x, y, z);
      MajorityOf(Half(x), Half(y), Half(z), n - 1);
      MajorityOneMore(WordOf(Half(x), n - 1), WordOf(Half(y), n - 1), WordOf(Half(z), n - 1), Odd(x), Odd(y), Odd(z));
    }
  }

  function Mixed(x: bv32, y: bv32, z: bv32): bv32 { x ^ y ^ z }

  lemma ParityOfHalf(x: bv32, y: bv32, z: bv32)
    ensures Half(Mixed(x, y, z)) == Mixed(Half(x), Half(y), Half(z)) && (Odd(Mixed(x, y, z)) <==> (Odd(x) != Odd(y)) != Odd(z))
  {
  }

  lemma ParityOneMore(x: Word, y: Word, z: Word, a: bool, b: bool, c: bool)
    requires |x| == |y| == |z|
    ensures Parity(x + [a], y + [b], z + [c]) == Parity(x, y, z) + [(a != b) != c]
  {
  }

  lemma NoBitsParity()
    ensures Parity([], [], []) == []
  {
  }

  lemma {:induction false} ParityOf(x: bv32, y: bv32, z: bv32, n: nat)
    ensures Parity(WordOf(x, n), WordOf(y, n), WordOf(z, n)) == WordOf(Mixed(x, y, z), n)
    decreases n
  {
    hide Parity, Half, Odd, Mixed;
    NoBitsParity();
    if n > 0 {
      ParityOfHalf(x, y, z);
      ParityOf(Half(x), Half(y), Half(z), n - 1);
      ParityOneMore(WordOf(Half(x), n - 1), WordOf(Half(y), n - 1), WordOf(Half(z), n - 1), Odd(x), Odd(y), Odd(z));
    }
  }

  /** The word of round `t` is that of a number. */
  ghost predicate IsScheduled(m: seq<Word>, t: nat, x: bv32)
    requires |m| == 16 && AreWords(m)
  {
    W(m, t) == WordOf(x, 32)
  }

  /** The word of the schedule after these four. */
  lemma WordIs(m: seq<Word>, t: nat, x3: bv32, x8: bv32, x14: bv32, x16: bv32)
    requires |m| == 16 && AreWords(m) && 16 <= t
    requires IsScheduled(m, t - 3, x3) && IsScheduled(m, t - 8, x8) && IsScheduled(m, t - 14, x14) && IsScheduled(m, t - 16, x16)
    ensures IsScheduled(m, t, ((x3 ^ x8 ^ x14 ^ x16) << 1) | ((x3 ^ x8 ^ x14 ^ x16) >> 31))
  {
    hide WordOf, XorOf, Mixed, Rol1, Rotl, Xor, W;
    ScheduleStep(m, t);
    ParityOf(x3, x8, x14, 32);
    LogicOf(Mixed(x3, x8, x14), x16, 32);
    RolOf(XorOf(Mixed(x3, x8, x14), x16));
    FourMixed(x3, x8, x14, x16);
  }

  lemma ScheduleStep(m: seq<Word>, t: nat)
    requires |m| == 16 && AreWords(m) && 16 <= t
    ensures W(m, t) == Rotl(Xor(Xor(Xor(W(m, t - 3), W(m, t - 8)), W(m, t - 14)), W(m, t - 16)), 1)
  {
  }

  lemma FourMixed(x3: bv32, x8: bv32, x14: bv32, x16: bv32)
    ensures Rol1(XorOf(Mixed(x3, x8, x14), x16)) == ((x3 ^ x8 ^ x14 ^ x16) << 1) | ((x3 ^ x8 ^ x14 ^ x16) >> 31)
  {
  }

  function RegsOf(a: bv32, b: bv32, c: bv32, d: bv32, e: bv32): (s: Regs)
    ensures IsState(s)
  {
    Regs(WordOf(a, 32), WordOf(b, 32), WordOf(c, 32), WordOf(d, 32), WordOf(e, 32))
  }

  predicate AddsUp(x: bv32, y: bv32, z: bv32) {
    Adds(x, y, x ^ y ^ z, z)
  }

  /** The four additions of a round. */
  predicate SumRight(r: bv32, f: bv32, e: bv32, k: bv32, w: bv32, next: bv32) {
    AddsUp(r, f, r + f) && AddsUp(r + f, e, r + f + e) && AddsUp(r + f + e, k, r + f + e + k) && AddsUp(r + f + e + k, w, next)
  }

  lemma FourSums(r: bv32, f: bv32, e: bv32, k: bv32, w: bv32, next: bv32) returns (s1: bv32, s2: bv32, s3: bv32)
    requires SumRight(r, f, e, k, w, next)
    ensures AddsUp(r, f, s1) && AddsUp(s1, e, s2) && AddsUp(s2, k, s3) && AddsUp(s3, w, next)
  {
    hide AddsUp;
    s1, s2, s3 := r + f, r + f + e, r + f + e + k;
  }

  lemma SumOf(x: bv32, y: bv32, z: bv32)
    requires AddsUp(x, y, z)
    ensures Add(WordOf(x, 32), WordOf(y, 32)) == WordOf(z, 32)
  {
    hide Adds, WordOf, Add;
    AddOf(x, y, x ^ y ^ z, z);
  }

  lemma FiveTerms(r: bv32, f: bv32, e: bv32, k: bv32, w: bv32, next: bv32)
    requires SumRight(r, f, e, k, w, next)
    ensures Add(Add(Add(Add(WordOf(r, 32), WordOf(f, 32)), WordOf(e, 32)), WordOf(k, 32)), WordOf(w, 32)) == WordOf(next, 32)
  {
    hide SumRight, AddsUp, WordOf, Add;
    var s1, s2, s3 := FourSums(r, f, e, k, w, next);
    SumOf(r, f, s1);
    SumOf(s1, e, s2);
    SumOf(s2, k, s3);
    SumOf(s3, w, next);
  }

  /** What a round computes from numbers. */
  predicate RoundRight(t: nat, a: bv32, b: bv32, c: bv32, d: bv32, e: bv32, w: bv32, next: bv32) {
    if t < 20 then SumRight((a << 5) | (a >> 27), (b & (c ^ d)) ^ d, e, 0x5a827999, w, next)
    else if t < 40 then SumRight((a << 5) | (a >> 27), b ^ c ^ d, e, 0x6ed9eba1, w, next)
    else if t < 60 then SumRight((a << 5) | (a >> 27), (b & c) ^ (b & d) ^ (c & d), e, 0x8f1bbcdc, w, next)
    else SumRight((a << 5) | (a >> 27), b ^ c ^ d, e, 0xca62c1d6, w, next)
  }

  lemma RoundMeans(t: nat, a: bv32, b: bv32, c: bv32, d: bv32, e: bv32, w: bv32, next: bv32)
    requires RoundRight(t, a, b, c, d, e, w, next)
    ensures SumRight(Rol5(a), if t < 20 then Chosen(b, c, d) else if 40 <= t < 60 then Agreed(b, c, d) else Mixed(b, c, d), e, Constant(t), w, next)
  {
    hide SumRight;
  }

  lemma FunctionOf(t: nat, b: bv32, c: bv32, d: bv32)
    ensures F(t, WordOf(b, 32), WordOf(c, 32), WordOf(d, 32))
         == WordOf(if t < 20 then Chosen(b, c, d) else if 40 <= t < 60 then Agreed(b, c, d) else Mixed(b, c, d), 32)
  {
    hide WordOf, Chosen, Agreed, Mixed, Choose, Majority, Parity;
    ChooseOf(b, c, d, 32);
    MajorityOf(b, c, d, 32);
    ParityOf(b, c, d, 32);
  }

  lemma RoundIs(h: Regs, m: seq<Word>, t: nat, a: bv32, b: bv32, c: bv32, d: bv32, e: bv32, w: bv32, next: bv32)
    requires IsState(h) && |m| == 16 && AreWords(m)
    requires Rounds(h, m, t) == RegsOf(a, b, c, d, e) && IsScheduled(m, t, w) && RoundRight(t, a, b, c, d, e, w, next)
    ensures Rounds(h, m, t + 1) == RegsOf(next, a, (b << 30) | (b >> 2), c, d)
  {
    hide WordOf, Chosen, Agreed, Mixed, Constant, RoundRight, SumRight, Add, Rotl, F, K, W, Rol5, Rol30;
    RoundMeans(t, a, b, c, d, e, w, next);
    Rol5Of(a);
    Rol30Of(b);
    Rol30Is(b);
    FunctionOf(t, b, c, d);
    ConstantIs(t);
    FiveTerms(Rol5(a), if t < 20 then Chosen(b, c, d) else if 40 <= t < 60 then Agreed(b, c, d) else Mixed(b, c, d), e, Constant(t), w, next);
    assert Rounds(h, m, t + 1) == Round(Rounds(h, m, t), t, W(m, t));
  }

  lemma Rol30Is(b: bv32)
    ensures Rol30(b) == (b << 30) | (b >> 2)
  {
  }

  // ---------------------------------------------------------------- the example

  /** The words of sixteen rounds. */
  ghost predicate AreScheduled(m: seq<Word>, t: nat, x0: bv32, x1: bv32, x2: bv32, x3: bv32, x4: bv32, x5: bv32, x6: bv32, x7: bv32,
                               x8: bv32, x9: bv32, x10: bv32, x11: bv32, x12: bv32, x13: bv32, x14: bv32, x15: bv32)
    requires |m| == 16 && AreWords(m)
  {
    && IsScheduled(m, t, x0) && IsScheduled(m, t + 1, x1) && IsScheduled(m, t + 2, x2) && IsScheduled(m, t + 3, x3)
    && IsScheduled(m, t + 4, x4) && IsScheduled(m, t + 5, x5) && IsScheduled(m, t + 6, x6) && IsScheduled(m, t + 7, x7)
    && IsScheduled(m, t + 8, x8) && IsScheduled(m, t + 9, x9) && IsScheduled(m, t + 10, x10) && IsScheduled(m, t + 11, x11)
    && IsScheduled(m, t + 12, x12) && IsScheduled(m, t + 13, x13) && IsScheduled(m, t + 14, x14) && IsScheduled(m, t + 15, x15)
  }

  ghost predicate Words0(m: seq<Word>)
    requires |m| == 16 && AreWords(m)
  {
    AreScheduled(m, 0,
      0x61626380, 0x00000000, 0x00000000, 0x00000000, 0x00000000, 0x00000000, 0x00000000, 0x00000000,
      0x00000000, 0x00000000, 0x00000000, 0x00000000, 0x00000000, 0x00000000, 0x00000000, 0x00000018)
  }

  ghost predicate Words1(m: seq<Word>)
    requires |m| == 16 && AreWords(m)
  {
    AreScheduled(m, 16,
      0xc2c4c700, 0x00000000, 0x00000030, 0x85898e01, 0x00000000, 0x00000060, 0x0b131c03, 0x00000030,
      0x85898ec1, 0x16263806, 0x00000000, 0x00000180, 0x2c4c700c, 0x000000f0, 0x93afb507, 0x5898e048)
  }

  ghost predicate Words2(m: seq<Word>)
    requires |m| == 16 && AreWords(m)
  {
    AreScheduled(m, 32,
      0x8e9a9202, 0x00000600, 0xb131c0f0, 0x16263bc6, 0x4ebed41e, 0x626380a1, 0x16263806, 0x000018c0,
      0xd2e138c4, 0x00000f00, 0x3afb5079, 0x898e04e5, 0xe2ba3c2b, 0x000060c0, 0x053a37cd, 0x74458547)
  }

  ghost predicate Words3(m: seq<Word>)
    requires |m| == 16 && AreWords(m)
  {
    AreScheduled(m, 48,
      0xda9415ed, 0x26380a16, 0x626383a1, 0x4ebf54de, 0x3835b44b, 0x0000f600, 0x1e84c7a3, 0x98e04d98,
      0x651d16a0, 0x62658ca1, 0x458544d6, 0x44584cb7, 0x7ba06619, 0x6380aea2, 0x0ae55269, 0x627b49a1)
  }

  ghost predicate Words4(m: seq<Word>)
    requires |m| == 16 && AreWords(m)
  {
    AreScheduled(m, 64,
      0x7cd45c9d, 0x000f0000, 0xfb50753a, 0xec6765e8, 0xba3c2be2, 0x0060c000, 0x3a37cd05, 0x458546f4,
      0xb8599dd6, 0x380a1a26, 0x01e02203, 0xe7cc3456, 0xe6e60b69, 0x00f60a00, 0x5795ef4f, 0x822e0879)
  }

  lemma Schedule1(m: seq<Word>)
    requires |m| == 16 && AreWords(m) && Words0(m)
    ensures Words1(m)
  {
    hide IsScheduled;
    WordIs(m, 16, 0x00000000, 0x00000000, 0x00000000, 0x61626380);
    WordIs(m, 17, 0x00000000, 0x00000000, 0x00000000, 0x00000000);
    WordIs(m, 18, 0x00000018, 0x00000000, 0x00000000, 0x00000000);
    WordIs(m, 19, 0xc2c4c700, 0x00000000, 0x00000000, 0x00000000);
    WordIs(m, 20, 0x00000000, 0x00000000, 0x00000000, 0x00000000);
    WordIs(m, 21, 0x00000030, 0x00000000, 0x00000000, 0x00000000);
    WordIs(m, 22, 0x85898e01, 0x00000000, 0x00000000, 0x00000000);
    WordIs(m, 23, 0x00000000, 0x00000018, 0x00000000, 0x00000000);
    WordIs(m, 24, 0x00000060, 0xc2c4c700, 0x00000000, 0x00000000);
    WordIs(m, 25, 0x0b131c03, 0x00000000, 0x00000000, 0x00000000);
    WordIs(m, 26, 0x00000030, 0x00000030, 0x00000000, 0x00000000);
    WordIs(m, 27, 0x85898ec1, 0x85898e01, 0x00000000, 0x00000000);
    WordIs(m, 28, 0x16263806, 0x00000000, 0x00000000, 0x00000000);
    WordIs(m, 29, 0x00000000, 0x00000060, 0x00000018, 0x00000000);
    WordIs(m, 30, 0x00000180, 0x0b131c03, 0xc2c4c700, 0x00000000);
    WordIs(m, 31, 0x2c4c700c, 0x00000030, 0x00000000, 0x00000018);
  }

  lemma Schedule2(m: seq<Word>)
    requires |m| == 16 && AreWords(m) && Words1(m)
    ensures Words2(m)
  {
    hide IsScheduled;
    WordIs(m, 32, 0x000000f0, 0x85898ec1, 0x00000030, 0xc2c4c700);
    WordIs(m, 33, 0x93afb507, 0x16263806, 0x85898e01, 0x00000000);
    WordIs(m, 34, 0x5898e048, 0x00000000, 0x00000000, 0x00000030);
    WordIs(m, 35, 0x8e9a9202, 0x00000180, 0x00000060, 0x85898e01);
    WordIs(m, 36, 0x00000600, 0x2c4c700c, 0x0b131c03, 0x00000000);
    WordIs(m, 37, 0xb131c0f0, 0x000000f0, 0x00000030, 0x00000060);
    WordIs(m, 38, 0x16263bc6, 0x93afb507, 0x85898ec1, 0x0b131c03);
    WordIs(m, 39, 0x4ebed41e, 0x5898e048, 0x16263806, 0x00000030);
    WordIs(m, 40, 0x626380a1, 0x8e9a9202, 0x00000000, 0x85898ec1);
    WordIs(m, 41, 0x16263806, 0x00000600, 0x00000180, 0x16263806);
    WordIs(m, 42, 0x000018c0, 0xb131c0f0, 0x2c4c700c, 0x00000000);
    WordIs(m, 43, 0xd2e138c4, 0x16263bc6, 0x000000f0, 0x00000180);
    WordIs(m, 44, 0x00000f00, 0x4ebed41e, 0x93afb507, 0x2c4c700c);
    WordIs(m, 45, 0x3afb5079, 0x626380a1, 0x5898e048, 0x000000f0);
    WordIs(m, 46, 0x898e04e5, 0x16263806, 0x8e9a9202, 0x93afb507);
    WordIs(m, 47, 0xe2ba3c2b, 0x000018c0, 0x00000600, 0x5898e048);
  }

  lemma Schedule3(m: seq<Word>)
    requires |m| == 16 && AreWords(m) && Words2(m)
    ensures Words3(m)
  {
    hide IsScheduled;
    WordIs(m, 48, 0x000060c0, 0xd2e138c4, 0xb131c0f0, 0x8e9a9202);
    WordIs(m, 49, 0x053a37cd, 0x00000f00, 0x16263bc6, 0x00000600);
    WordIs(m, 50, 0x74458547, 0x3afb5079, 0x4ebed41e, 0xb131c0f0);
    WordIs(m, 51, 0xda9415ed, 0x898e04e5, 0x626380a1, 0x16263bc6);
    WordIs(m, 52, 0x26380a16, 0xe2ba3c2b, 0x16263806, 0x4ebed41e);
    WordIs(m, 53, 0x626383a1, 0x000060c0, 0x000018c0, 0x626380a1);
    WordIs(m, 54, 0x4ebf54de, 0x053a37cd, 0xd2e138c4, 0x16263806);
    WordIs(m, 55, 0x3835b44b, 0x74458547, 0x00000f00, 0x000018c0);
    WordIs(m, 56, 0x0000f600, 0xda9415ed, 0x3afb5079, 0xd2e138c4);
    WordIs(m, 57, 0x1e84c7a3, 0x26380a16, 0x898e04e5, 0x00000f00);
    WordIs(m, 58, 0x98e04d98, 0x626383a1, 0xe2ba3c2b, 0x3afb5079);
    WordIs(m, 59, 0x651d16a0, 0x4ebf54de, 0x000060c0, 0x898e04e5);
    WordIs(m, 60, 0x62658ca1, 0x3835b44b, 0x053a37cd, 0xe2ba3c2b);
    WordIs(m, 61, 0x458544d6, 0x0000f600, 0x74458547, 0x000060c0);
    WordIs(m, 62, 0x44584cb7, 0x1e84c7a3, 0xda9415ed, 0x053a37cd);
    WordIs(m, 63, 0x7ba06619, 0x98e04d98, 0x26380a16, 0x74458547);
  }

  lemma Schedule4(m: seq<Word>)
    requires |m| == 16 && AreWords(m) && Words3(m)
    ensures Words4(m)
  {
    hide IsScheduled;
    WordIs(m, 64, 0x6380aea2, 0x651d16a0, 0x626383a1, 0xda9415ed);
    WordIs(m, 65, 0x0ae55269, 0x62658ca1, 0x4ebf54de, 0x26380a16);
    WordIs(m, 66, 0x627b49a1, 0x458544d6, 0x3835b44b, 0x626383a1);
    WordIs(m, 67, 0x7cd45c9d, 0x44584cb7, 0x0000f600, 0x4ebf54de);
    WordIs(m, 68, 0x000f0000, 0x7ba06619, 0x1e84c7a3, 0x3835b44b);
    WordIs(m, 69, 0xfb50753a, 0x6380aea2, 0x98e04d98, 0x0000f600);
    WordIs(m, 70, 0xec6765e8, 0x0ae55269, 0x651d16a0, 0x1e84c7a3);
    WordIs(m, 71, 0xba3c2be2, 0x627b49a1, 0x62658ca1, 0x98e04d98);
    WordIs(m, 72, 0x0060c000, 0x7cd45c9d, 0x458544d6, 0x651d16a0);
    WordIs(m, 73, 0x3a37cd05, 0x000f0000, 0x44584cb7, 0x62658ca1);
    WordIs(m, 74, 0x458546f4, 0xfb50753a, 0x7ba06619, 0x458544d6);
    WordIs(m, 75, 0xb8599dd6, 0xec6765e8, 0x6380aea2, 0x44584cb7);
    WordIs(m, 76, 0x380a1a26, 0xba3c2be2, 0x0ae55269, 0x7ba06619);
    WordIs(m, 77, 0x01e02203, 0x0060c000, 0x627b49a1, 0x6380aea2);
    WordIs(m, 78, 0xe7cc3456, 0x3a37cd05, 0x7cd45c9d, 0x0ae55269);
    WordIs(m, 79, 0xe6e60b69, 0x458546f4, 0x000f0000, 0x627b49a1);
  }

  lemma Rounds0(h: Regs, m: seq<Word>)
    requires IsState(h) && |m| == 16 && AreWords(m) && Words0(m)
    requires Rounds(h, m, 0) == RegsOf(0x67452301, 0xefcdab89, 0x98badcfe, 0x10325476, 0xc3d2e1f0)
    ensures Rounds(h, m, 16) == RegsOf(0x20bdd62f, 0x196bee77, 0x644a3da5, 0x1181ed99, 0x18c623f9)
  {
    hide IsScheduled, RegsOf, Rounds;
    RoundIs(h, m, 0, 0x67452301, 0xefcdab89, 0x98badcfe, 0x10325476, 0xc3d2e1f0, 0x61626380, 0x0116fc33);
    RoundIs(h, m, 1, 0x0116fc33, 0x67452301, 0x7bf36ae2, 0x98badcfe, 0x10325476, 0x00000000, 0x8990536d);
    RoundIs(h, m, 2, 0x8990536d, 0x0116fc33, 0x59d148c0, 0x7bf36ae2, 0x98badcfe, 0x00000000, 0xa1390f08);
    RoundIs(h, m, 3, 0xa1390f08, 0x8990536d, 0xc045bf0c, 0x59d148c0, 0x7bf36ae2, 0x00000000, 0xcdd8e11b);
    RoundIs(h, m, 4, 0xcdd8e11b, 0xa1390f08, 0x626414db, 0xc045bf0c, 0x59d148c0, 0x00000000, 0xcfd499de);
    RoundIs(h, m, 5, 0xcfd499de, 0xcdd8e11b, 0x284e43c2, 0x626414db, 0xc045bf0c, 0x00000000, 0x3fc7ca40);
    RoundIs(h, m, 6, 0x3fc7ca40, 0xcfd499de, 0xf3763846, 0x284e43c2, 0x626414db, 0x00000000, 0x993e30c1);
    RoundIs(h, m, 7, 0x993e30c1, 0x3fc7ca40, 0xb3f52677, 0xf3763846, 0x284e43c2, 0x00000000, 0x9e8c07d4);
    RoundIs(h, m, 8, 0x9e8c07d4, 0x993e30c1, 0x0ff1f290, 0xb3f52677, 0xf3763846, 0x00000000, 0x4b6ae328);
    RoundIs(h, m, 9, 0x4b6ae328, 0x9e8c07d4, 0x664f8c30, 0x0ff1f290, 0xb3f52677, 0x00000000, 0x8351f929);
    RoundIs(h, m, 10, 0x8351f929, 0x4b6ae328, 0x27a301f5, 0x664f8c30, 0x0ff1f290, 0x00000000, 0xfbda9e89);
    RoundIs(h, m, 11, 0xfbda9e89, 0x8351f929, 0x12dab8ca, 0x27a301f5, 0x664f8c30, 0x00000000, 0x63188fe4);
    RoundIs(h, m, 12, 0x63188fe4, 0xfbda9e89, 0x60d47e4a, 0x12dab8ca, 0x27a301f5, 0x00000000, 0x4607b664);
    RoundIs(h, m, 13, 0x4607b664, 0x63188fe4, 0x7ef6a7a2, 0x60d47e4a, 0x12dab8ca, 0x00000000, 0x9128f695);
    RoundIs(h, m, 14, 0x9128f695, 0x4607b664, 0x18c623f9, 0x7ef6a7a2, 0x60d47e4a, 0x00000000, 0x196bee77);
    RoundIs(h, m, 15, 0x196bee77, 0x9128f695, 0x1181ed99, 0x18c623f9, 0x7ef6a7a2, 0x00000018, 0x20bdd62f);
  }

  lemma Rounds1(h: Regs, m: seq<Word>)
    requires IsState(h) && |m| == 16 && AreWords(m) && Words1(m)
    requires Rounds(h, m, 16) == RegsOf(0x20bdd62f, 0x196bee77, 0x644a3da5, 0x1181ed99, 0x18c623f9)
    ensures Rounds(h, m, 32) == RegsOf(0x3b845d33, 0x1267b407, 0x717eebd7, 0xa0dc2d4b, 0xd2aa1365)
  {
    hide IsScheduled, RegsOf, Rounds;
    RoundIs(h, m, 16, 0x20bdd62f, 0x196bee77, 0x644a3da5, 0x1181ed99, 0x18c623f9, 0xc2c4c700, 0x4e925823);
    RoundIs(h, m, 17, 0x4e925823, 0x20bdd62f, 0xc65afb9d, 0x644a3da5, 0x1181ed99, 0x00000000, 0x82aa6728);
    RoundIs(h, m, 18, 0x82aa6728, 0x4e925823, 0xc82f758b, 0xc65afb9d, 0x644a3da5, 0x00000030, 0xdc64901d);
    RoundIs(h, m, 19, 0xdc64901d, 0x82aa6728, 0xd3a49608, 0xc82f758b, 0xc65afb9d, 0x85898e01, 0xfd9e1d7d);
    RoundIs(h, m, 20, 0xfd9e1d7d, 0xdc64901d, 0x20aa99ca, 0xd3a49608, 0xc82f758b, 0x00000000, 0x1a37b0ca);
    RoundIs(h, m, 21, 0x1a37b0ca, 0xfd9e1d7d, 0x77192407, 0x20aa99ca, 0xd3a49608, 0x00000060, 0x33a23bfc);
    RoundIs(h, m, 22, 0x33a23bfc, 0x1a37b0ca, 0x7f67875f, 0x77192407, 0x20aa99ca, 0x0b131c03, 0x21283486);
    RoundIs(h, m, 23, 0x21283486, 0x33a23bfc, 0x868dec32, 0x7f67875f, 0x77192407, 0x00000030, 0xd541f12d);
    RoundIs(h, m, 24, 0xd541f12d, 0x21283486, 0x0ce88eff, 0x868dec32, 0x7f67875f, 0x85898ec1, 0xc7567dc6);
    RoundIs(h, m, 25, 0xc7567dc6, 0xd541f12d, 0x884a0d21, 0x0ce88eff, 0x868dec32, 0x16263806, 0x48413ba4);
    RoundIs(h, m, 26, 0x48413ba4, 0xc7567dc6, 0x75507c4b, 0x884a0d21, 0x0ce88eff, 0x00000000, 0xbe35fbd5);
    RoundIs(h, m, 27, 0xbe35fbd5, 0x48413ba4, 0xb1d59f71, 0x75507c4b, 0x884a0d21, 0x00000180, 0x4aa84d97);
    RoundIs(h, m, 28, 0x4aa84d97, 0xbe35fbd5, 0x12104ee9, 0xb1d59f71, 0x75507c4b, 0x2c4c700c, 0x8370b52e);
    RoundIs(h, m, 29, 0x8370b52e, 0x4aa84d97, 0x6f8d7ef5, 0x12104ee9, 0xb1d59f71, 0x000000f0, 0xc5fbaf5d);
    RoundIs(h, m, 30, 0xc5fbaf5d, 0x8370b52e, 0xd2aa1365, 0x6f8d7ef5, 0x12104ee9, 0x93afb507, 0x1267b407);
    RoundIs(h, m, 31, 0x1267b407, 0xc5fbaf5d, 0xa0dc2d4b, 0xd2aa1365, 0x6f8d7ef5, 0x5898e048, 0x3b845d33);
  }

  lemma Rounds2(h: Regs, m: seq<Word>)
    requires IsState(h) && |m| == 16 && AreWords(m) && Words2(m)
    requires Rounds(h, m, 32) == RegsOf(0x3b845d33, 0x1267b407, 0x717eebd7, 0xa0dc2d4b, 0xd2aa1365)
    ensures Rounds(h, m, 48) == RegsOf(0xbead02ca, 0xa01b846c, 0x8714787c, 0x503ca382, 0xfb86c6ab)
  {
    hide IsScheduled, RegsOf, Rounds;
    RoundIs(h, m, 32, 0x3b845d33, 0x1267b407, 0x717eebd7, 0xa0dc2d4b, 0xd2aa1365, 0x8e9a9202, 0x046faa0a);
    RoundIs(h, m, 33, 0x046faa0a, 0x3b845d33, 0xc499ed01, 0x717eebd7, 0xa0dc2d4b, 0x00000600, 0x2c0ebc11);
    RoundIs(h, m, 34, 0x2c0ebc11, 0x046faa0a, 0xcee1174c, 0xc499ed01, 0x717eebd7, 0xb131c0f0, 0x21796ad4);
    RoundIs(h, m, 35, 0x21796ad4, 0x2c0ebc11, 0x811bea82, 0xcee1174c, 0xc499ed01, 0x16263bc6, 0xdcbbb0cb);
    RoundIs(h, m, 36, 0xdcbbb0cb, 0x21796ad4, 0x4b03af04, 0x811bea82, 0xcee1174c, 0x4ebed41e, 0x0f511fd8);
    RoundIs(h, m, 37, 0x0f511fd8, 0xdcbbb0cb, 0x085e5ab5, 0x4b03af04, 0x811bea82, 0x626380a1, 0xdc63973f);
    RoundIs(h, m, 38, 0xdc63973f, 0x0f511fd8, 0xf72eec32, 0x085e5ab5, 0x4b03af04, 0x16263806, 0x4c986405);
    RoundIs(h, m, 39, 0x4c986405, 0xdc63973f, 0x03d447f6, 0xf72eec32, 0x085e5ab5, 0x000018c0, 0x32de1cba);
    RoundIs(h, m, 40, 0x32de1cba, 0x4c986405, 0xf718e5cf, 0x03d447f6, 0xf72eec32, 0xd2e138c4, 0xfc87dedf);
    RoundIs(h, m, 41, 0xfc87dedf, 0x32de1cba, 0x53261901, 0xf718e5cf, 0x03d447f6, 0x00000f00, 0x970a0d5c);
    RoundIs(h, m, 42, 0x970a0d5c, 0xfc87dedf, 0x8cb7872e, 0x53261901, 0xf718e5cf, 0x3afb5079, 0x7f193dc5);
    RoundIs(h, m, 43, 0x7f193dc5, 0x970a0d5c, 0xff21f7b7, 0x8cb7872e, 0x53261901, 0x898e04e5, 0xee1b1aaf);
    RoundIs(h, m, 44, 0xee1b1aaf, 0x7f193dc5, 0x25c28357, 0xff21f7b7, 0x8cb7872e, 0xe2ba3c2b, 0x40f28e09);
    RoundIs(h, m, 45, 0x40f28e09, 0xee1b1aaf, 0x5fc64f71, 0x25c28357, 0xff21f7b7, 0x000060c0, 0x1c51e1f2);
    RoundIs(h, m, 46, 0x1c51e1f2, 0x40f28e09, 0xfb86c6ab, 0x5fc64f71, 0x25c28357, 0x053a37cd, 0xa01b846c);
    RoundIs(h, m, 47, 0xa01b846c, 0x1c51e1f2, 0x503ca382, 0xfb86c6ab, 0x5fc64f71, 0x74458547, 0xbead02ca);
  }

  lemma Rounds3(h: Regs, m: seq<Word>)
    requires IsState(h) && |m| == 16 && AreWords(m) && Words3(m)
    requires Rounds(h, m, 48) == RegsOf(0xbead02ca, 0xa01b846c, 0x8714787c, 0x503ca382, 0xfb86c6ab)
    ensures Rounds(h, m, 64) == RegsOf(0x6b61c9e1, 0xb66c020b, 0x9523272c, 0xf5d5b051, 0x8fd4b796)
  {
    hide IsScheduled, RegsOf, Rounds;
    RoundIs(h, m, 48, 0xbead02ca, 0xa01b846c, 0x8714787c, 0x503ca382, 0xfb86c6ab, 0xda9415ed, 0xbaf39337);
    RoundIs(h, m, 49, 0xbaf39337, 0xbead02ca, 0x2806e11b, 0x8714787c, 0x503ca382, 0x26380a16, 0x120731c5);
    RoundIs(h, m, 50, 0x120731c5, 0xbaf39337, 0xafab40b2, 0x2806e11b, 0x8714787c, 0x626383a1, 0x641db2ce);
    RoundIs(h, m, 51, 0x641db2ce, 0x120731c5, 0xeebce4cd, 0xafab40b2, 0x2806e11b, 0x4ebf54de, 0x3847ad66);
    RoundIs(h, m, 52, 0x3847ad66, 0x641db2ce, 0x4481cc71, 0xeebce4cd, 0xafab40b2, 0x3835b44b, 0xe490436d);
    RoundIs(h, m, 53, 0xe490436d, 0x3847ad66, 0x99076cb3, 0x4481cc71, 0xeebce4cd, 0x0000f600, 0x27e9f1d8);
    RoundIs(h, m, 54, 0x27e9f1d8, 0xe490436d, 0x8e11eb59, 0x99076cb3, 0x4481cc71, 0x1e84c7a3, 0x7b71f76d);
    RoundIs(h, m, 55, 0x7b71f76d, 0x27e9f1d8, 0x792410db, 0x8e11eb59, 0x99076cb3, 0x98e04d98, 0x5e6456af);
    RoundIs(h, m, 56, 0x5e6456af, 0x7b71f76d, 0x09fa7c76, 0x792410db, 0x8e11eb59, 0x651d16a0, 0xc846093f);
    RoundIs(h, m, 57, 0xc846093f, 0x5e6456af, 0x5edc7ddb, 0x09fa7c76, 0x792410db, 0x62658ca1, 0xd262ff50);
    RoundIs(h, m, 58, 0xd262ff50, 0xc846093f, 0xd79915ab, 0x5edc7ddb, 0x09fa7c76, 0x458544d6, 0x09d785fd);
    RoundIs(h, m, 59, 0x09d785fd, 0xd262ff50, 0xf211824f, 0xd79915ab, 0x5edc7ddb, 0x44584cb7, 0x3f52de5a);
    RoundIs(h, m, 60, 0x3f52de5a, 0x09d785fd, 0x3498bfd4, 0xf211824f, 0xd79915ab, 0x7ba06619, 0xd756c147);
    RoundIs(h, m, 61, 0xd756c147, 0x3f52de5a, 0x4275e17f, 0x3498bfd4, 0xf211824f, 0x6380aea2, 0x548c9cb2);
    RoundIs(h, m, 62, 0x548c9cb2, 0xd756c147, 0x8fd4b796, 0x4275e17f, 0x3498bfd4, 0x0ae55269, 0xb66c020b);
    RoundIs(h, m, 63, 0xb66c020b, 0x548c9cb2, 0xf5d5b051, 0x8fd4b796, 0x4275e17f, 0x627b49a1, 0x6b61c9e1);
  }

  lemma Rounds4(h: Regs, m: seq<Word>)
    requires IsState(h) && |m| == 16 && AreWords(m) && Words4(m)
    requires Rounds(h, m, 64) == RegsOf(0x6b61c9e1, 0xb66c020b, 0x9523272c, 0xf5d5b051, 0x8fd4b796)
    ensures Rounds(h, m, 80) == RegsOf(0x42541b35, 0x5738d5e1, 0x21834873, 0x681e6df6, 0xd8fdf6ad)
  {
    hide IsScheduled, RegsOf, Rounds;
    RoundIs(h, m, 64, 0x6b61c9e1, 0xb66c020b, 0x9523272c, 0xf5d5b051, 0x8fd4b796, 0x7cd45c9d, 0x19dfa7ac);
    RoundIs(h, m, 65, 0x19dfa7ac, 0x6b61c9e1, 0xed9b0082, 0x9523272c, 0xf5d5b051, 0x000f0000, 0x101655f9);
    RoundIs(h, m, 66, 0x101655f9, 0x19dfa7ac, 0x5ad87278, 0xed9b0082, 0x9523272c, 0xfb50753a, 0x0c3df2b4);
    RoundIs(h, m, 67, 0x0c3df2b4, 0x101655f9, 0x0677e9eb, 0x5ad87278, 0xed9b0082, 0xec6765e8, 0x78dd4d2b);
    RoundIs(h, m, 68, 0x78dd4d2b, 0x0c3df2b4, 0x4405957e, 0x0677e9eb, 0x5ad87278, 0xba3c2be2, 0x497093c0);
    RoundIs(h, m, 69, 0x497093c0, 0x78dd4d2b, 0x030f7cad, 0x4405957e, 0x0677e9eb, 0x0060c000, 0x3f2588c2);
    RoundIs(h, m, 70, 0x3f2588c2, 0x497093c0, 0xde37534a, 0x030f7cad, 0x4405957e, 0x3a37cd05, 0xc199f8c7);
    RoundIs(h, m, 71, 0xc199f8c7, 0x3f2588c2, 0x125c24f0, 0xde37534a, 0x030f7cad, 0x458546f4, 0x39859de7);
    RoundIs(h, m, 72, 0x39859de7, 0xc199f8c7, 0x8fc96230, 0x125c24f0, 0xde37534a, 0xb8599dd6, 0xedb42de4);
    RoundIs(h, m, 73, 0xedb42de4, 0x39859de7, 0xf0667e31, 0x8fc96230, 0x125c24f0, 0x380a1a26, 0x11793f6f);
    RoundIs(h, m, 74, 0x11793f6f, 0xedb42de4, 0xce616779, 0xf0667e31, 0x8fc96230, 0x01e02203, 0x5ee76897);
    RoundIs(h, m, 75, 0x5ee76897, 0x11793f6f, 0x3b6d0b79, 0xce616779, 0xf0667e31, 0xe7cc3456, 0x63f7dab7);
    RoundIs(h, m, 76, 0x63f7dab7, 0x5ee76897, 0xc45e4fdb, 0x3b6d0b79, 0xce616779, 0xe6e60b69, 0xa079b7d9);
    RoundIs(h, m, 77, 0xa079b7d9, 0x63f7dab7, 0xd7b9da25, 0xc45e4fdb, 0x3b6d0b79, 0x00f60a00, 0x860d21cc);
    RoundIs(h, m, 78, 0x860d21cc, 0xa079b7d9, 0xd8fdf6ad, 0xd7b9da25, 0xc45e4fdb, 0x5795ef4f, 0x5738d5e1);
    RoundIs(h, m, 79, 0x5738d5e1, 0x860d21cc, 0x681e6df6, 0xd8fdf6ad, 0xd7b9da25, 0x822e0879, 0x42541b35);
  }

  // ---------------------------------------------------------------- the only block, and the digest

  lemma Number67452301()
    ensures BitsOf(0x67452301, 32) == WordOf(0x67452301, 32)
  {
    hide WordOf, BitsOf;
    NumberIs(0x67452301, 0x67452301, 0x674523, 0x674523, 0x6745, 0x6745, 0x67, 0x67);
  }

  lemma Numberefcdab89()
    ensures BitsOf(0xefcdab89, 32) == WordOf(0xefcdab89, 32)
  {
    hide WordOf, BitsOf;
    NumberIs(0xefcdab89, 0xefcdab89, 0xefcdab, 0xefcdab, 0xefcd, 0xefcd, 0xef, 0xef);
  }

  lemma Number98badcfe()
    ensures BitsOf(0x98badcfe, 32) == WordOf(0x98badcfe, 32)
  {
    hide WordOf, BitsOf;
    NumberIs(0x98badcfe, 0x98badcfe, 0x98badc, 0x98badc, 0x98ba, 0x98ba, 0x98, 0x98);
  }

  lemma Number10325476()
    ensures BitsOf(0x10325476, 32) == WordOf(0x10325476, 32)
  {
    hide WordOf, BitsOf;
    NumberIs(0x10325476, 0x10325476, 0x103254, 0x103254, 0x1032, 0x1032, 0x10, 0x10);
  }

  lemma Numberc3d2e1f0()
    ensures BitsOf(0xc3d2e1f0, 32) == WordOf(0xc3d2e1f0, 32)
  {
    hide WordOf, BitsOf;
    NumberIs(0xc3d2e1f0, 0xc3d2e1f0, 0xc3d2e1, 0xc3d2e1, 0xc3d2, 0xc3d2, 0xc3, 0xc3);
  }

  lemma Numbera9993e36()
    ensures BitsOf(0xa9993e36, 32) == WordOf(0xa9993e36, 32)
  {
    hide WordOf, BitsOf;
    NumberIs(0xa9993e36, 0xa9993e36, 0xa9993e, 0xa9993e, 0xa999, 0xa999, 0xa9, 0xa9);
  }

  lemma Number4706816a()
    ensures BitsOf(0x4706816a, 32) == WordOf(0x4706816a, 32)
  {
    hide WordOf, BitsOf;
    NumberIs(0x4706816a, 0x4706816a, 0x470681, 0x470681, 0x4706, 0x4706, 0x47, 0x47);
  }

  lemma Numberba3e2571()
    ensures BitsOf(0xba3e2571, 32) == WordOf(0xba3e2571, 32)
  {
    hide WordOf, BitsOf;
    NumberIs(0xba3e2571, 0xba3e2571, 0xba3e25, 0xba3e25, 0xba3e, 0xba3e, 0xba, 0xba);
  }

  lemma Number7850c26c()
    ensures BitsOf(0x7850c26c, 32) == WordOf(0x7850c26c, 32)
  {
    hide WordOf, BitsOf;
    NumberIs(0x7850c26c, 0x7850c26c, 0x7850c2, 0x7850c2, 0x7850, 0x7850, 0x78, 0x78);
  }

  lemma Number9cd0d89d()
    ensures BitsOf(0x9cd0d89d, 32) == WordOf(0x9cd0d89d, 32)
  {
    hide WordOf, BitsOf;
    NumberIs(0x9cd0d89d, 0x9cd0d89d, 0x9cd0d8, 0x9cd0d8, 0x9cd0, 0x9cd0, 0x9c, 0x9c);
  }

  lemma InitialIs()
    ensures Initial() == RegsOf(0x67452301, 0xefcdab89, 0x98badcfe, 0x10325476, 0xc3d2e1f0)
  {
    hide WordOf, BitsOf;
    Number67452301();
    Numberefcdab89();
    Number98badcfe();
    Number10325476();
    Numberc3d2e1f0();
  }

  /** The message with its padding. */
  lemma OnlyBlock(msg: seq<nat>)
    requires msg == [0x61, 0x62, 0x63]
    ensures |Pad(msg)| == BLOCK && Pad(msg)[..4] == [0x61, 0x62, 0x63, 0x80] && Pad(msg)[63] == 24
    ensures forall i :: 4 <= i < 63 ==> Pad(msg)[i] == 0
  {
    hide LengthBytes, HashBlocks, Pad;
    assert msg[BLOCK * 0..] == msg;
    PadInOneBlock(msg, 0, msg);
    ShortLength();
    var p := Pad(msg);
    assert p == p[BLOCK * 0..BLOCK * 1] == msg + [0x80] + Repeated<nat>(0, 52) + LengthBytes(24);
  }

  lemma ShortLength()
    ensures LengthBytes(24) == [0, 0, 0, 0, 0, 0, 0, 24]
  {
  }

  lemma WordsOfBlock(b: seq<nat>)
    requires |b| == BLOCK && b[..4] == [0x61, 0x62, 0x63, 0x80] && b[63] == 24 && forall i :: 4 <= i < 63 ==> b[i] == 0
    ensures Words0(BlockWords(b))
  {
    hide WordOf, BitsOf, FourBytes;
    assert b[0] == b[..4][0] && b[1] == b[..4][1] && b[2] == b[..4][2] && b[3] == b[..4][3];
    WordOfBytes(0x61626380);
    WordOfBytes(0);
    WordOfBytes(24);
    NumberIs(0x61626380, 0x61626380, 0x616263, 0x616263, 0x6162, 0x6162, 0x61, 0x61);
    NumberIs(0x0, 0x0, 0x0, 0x0, 0x0, 0x0, 0x0, 0x0);
    NumberIs(0x18, 0x18, 0x0, 0x0, 0x0, 0x0, 0x0, 0x0);
  }

  lemma EightyRounds(h: Regs, m: seq<Word>)
    requires IsState(h) && |m| == 16 && AreWords(m) && Words0(m) && h == RegsOf(0x67452301, 0xefcdab89, 0x98badcfe, 0x10325476, 0xc3d2e1f0)
    ensures Rounds(h, m, 80) == RegsOf(0x42541b35, 0x5738d5e1, 0x21834873, 0x681e6df6, 0xd8fdf6ad)
  {
    hide Words0, Words1, Words2, Words3, Words4, RegsOf;
    assert Rounds(h, m, 0) == h;
    Rounds0(h, m);
    Schedule1(m);
    Rounds1(h, m);
    Schedule2(m);
    Rounds2(h, m);
    Schedule3(m);
    Rounds3(h, m);
    Schedule4(m);
    Rounds4(h, m);
  }

  lemma LastSums(h: Regs, m: seq<Word>)
    requires IsState(h) && |m| == 16 && AreWords(m) && h == RegsOf(0x67452301, 0xefcdab89, 0x98badcfe, 0x10325476, 0xc3d2e1f0)
    requires Rounds(h, m, 80) == RegsOf(0x42541b35, 0x5738d5e1, 0x21834873, 0x681e6df6, 0xd8fdf6ad)
    ensures Compress(h, m) == RegsOf(0xa9993e36, 0x4706816a, 0xba3e2571, 0x7850c26c, 0x9cd0d89d)
  {
    hide WordOf, Add, Rounds;
    SumOf(0x67452301, 0x42541b35, 0xa9993e36);
    SumOf(0xefcdab89, 0x5738d5e1, 0x4706816a);
    SumOf(0x98badcfe, 0x21834873, 0xba3e2571);
    SumOf(0x10325476, 0x681e6df6, 0x7850c26c);
    SumOf(0xc3d2e1f0, 0xd8fdf6ad, 0x9cd0d89d);
  }

  /** The digest of "abc". */
  lemma DigestOfAbc()
    ensures Digest([0x61, 0x62, 0x63])
         == Regs(BitsOf(0xa9993e36, 32), BitsOf(0x4706816a, 32), BitsOf(0xba3e2571, 32), BitsOf(0x7850c26c, 32), BitsOf(0x9cd0d89d, 32))
  {
    hide Compress, BlockWords, Words0, RegsOf, Pad, Initial;
    var msg: seq<nat> := [0x61, 0x62, 0x63];
    var p := Pad(msg);
    OnlyBlock(msg);
    InitialIs();
    WordsOfBlock(p);
    EightyRounds(Initial(), BlockWords(p));
    LastSums(Initial(), BlockWords(p));
    assert p[BLOCK * 0..BLOCK * 1] == p;
    assert HashBlocks(p, 0) == Initial();
    assert Digest(msg) == Compress(Initial(), BlockWords(p));
    NumbersOfDigest();
  }

  lemma NumbersOfDigest()
    ensures RegsOf(0xa9993e36, 0x4706816a, 0xba3e2571, 0x7850c26c, 0x9cd0d89d)
         == Regs(BitsOf(0xa9993e36, 32), BitsOf(0x4706816a, 32), BitsOf(0xba3e2571, 32), BitsOf(0x7850c26c, 32), BitsOf(0x9cd0d89d, 32))
  {
    hide WordOf, BitsOf;
    Numbera9993e36();
    Number4706816a();
    Numberba3e2571();
    Number7850c26c();
    Number9cd0d89d();
  }

  lemma EightDigits(n: nat, d: seq<nat>)
    requires |d| == 8 && d[0] > 0 && forall i :: 0 <= i < 8 ==> d[i] < 16
    requires n == 0x1000_0000 * d[0] + 0x100_0000 * d[1] + 0x10_0000 * d[2] + 0x1_0000 * d[3] + 0x1000 * d[4] + 0x100 * d[5] + 0x10 * d[6] + d[7]
    ensures RollingSha1.HexNumber(n) == seq(8, i requires 0 <= i < 8 => RollingSha1.HexDigit(d[i]))
  {
    hide RollingSha1.HexDigit;
    var n2 := 16 * d[0] + d[1];
    var n3 := 16 * n2 + d[2];
    var n4 := 16 * n3 + d[3];
    var n5 := 16 * n4 + d[4];
    var n6 := 16 * n5 + d[5];
    var n7 := 16 * n6 + d[6];
    OneDigitMore(d[0], d[1]);
    OneDigitMore(n2, d[2]);
    OneDigitMore(n3, d[3]);
    OneDigitMore(n4, d[4]);
    OneDigitMore(n5, d[5]);
    OneDigitMore(n6, d[6]);
    OneDigitMore(n7, d[7]);
  }

  lemma OneDigitMore(n: nat, v: nat)
    requires n > 0 && v < 16
    ensures RollingSha1.HexNumber(16 * n + v) == RollingSha1.HexNumber(n) + [RollingSha1.HexDigit(v)]
  {
  }

  /** One word of the text. */
  lemma EightCharacters(n: nat, d: seq<nat>, s: string)
    requires |d| == |s| == 8 && d[0] > 0 && forall i :: 0 <= i < 8 ==> d[i] < 16 && s[i] == RollingSha1.HexDigit(d[i])
    requires n == 0x1000_0000 * d[0] + 0x100_0000 * d[1] + 0x10_0000 * d[2] + 0x1_0000 * d[3] + 0x1000 * d[4] + 0x100 * d[5] + 0x10 * d[6] + d[7]
    ensures RollingSha1.Padded(RollingSha1.HexNumber(ValueOf(BitsOf(n, 32))), 8) == s
  {
    hide RollingSha1.HexNumber, RollingSha1.HexDigit, BitsOf, ValueOf;
    EightDigits(n, d);
    Bits.Pow2Values();
    ValueOfBits(n, 32);
  }

  lemma FiveWords()
    ensures "a9993e36" + "4706816a" + "ba3e2571" + "7850c26c" + "9cd0d89d" == "a9993e364706816aba3e25717850c26c9cd0d89d"
  {
  }

  /** The text that the object gives for "abc". */
  lemma TextOfAbc()
    ensures RollingSha1.DigestText(Digest([0x61, 0x62, 0x63])) == "a9993e364706816aba3e25717850c26c9cd0d89d"
  {
    hide RollingSha1.HexNumber, RollingSha1.Padded, BitsOf, ValueOf, Digest;
    FiveWords();
    DigestOfAbc();
    EightCharacters(0xa9993e36, [10, 9, 9, 9, 3, 14, 3, 6], "a9993e36");
    EightCharacters(0x4706816a, [4, 7, 0, 6, 8, 1, 6, 10], "4706816a");
    EightCharacters(0xba3e2571, [11, 10, 3, 14, 2, 5, 7, 1], "ba3e2571");
    EightCharacters(0x7850c26c, [7, 8, 5, 0, 12, 2, 6, 12], "7850c26c");
    EightCharacters(0x9cd0d89d, [9, 12, 13, 0, 13, 8, 9, 13], "9cd0d89d");
  }
}
