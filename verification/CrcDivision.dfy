/** The polynomial division behind a CRC, bit by bit, and why several bits can be divided at once. */
module CrcDivision {
  import opened Words

  /** One step of `crc_basic::process_bit` of `include/boost/crc.hpp`: the new bit meets the highest bit of
      the remainder, which is shifted out, and the divisor is subtracted if the result is one. */
  function Step(rem: Word, poly: Word, bit: bool): (r: Word)
    requires |rem| == |poly| > 0
    ensures |r| == |rem|
  {
    if rem[0] != bit then Xor(Shl(rem, 1), poly) else Shl(rem, 1)
  }

  /** The remainder after the bits of a message. */
  function Divide(rem: Word, poly: Word, message: Word): (r: Word)
    requires |rem| == |poly| > 0
    ensures |r| == |rem|
    decreases |message|
  {
    if message == [] then rem else Divide(Step(rem, poly, message[0]), poly, message[1..])
  }

  lemma {:induction false} DivideConcat(rem: Word, poly: Word, p: Word, q: Word)
    requires |rem| == |poly| > 0
    ensures Divide(rem, poly, p + q) == Divide(Divide(rem, poly, p), poly, q)
    decreases |p|
  {
    if p == [] {
      assert p + q == q;
    } else {
      assert (p + q)[1..] == p[1..] + q;
      DivideConcat(Step(rem, poly, p[0]), poly, p[1..], q);
    }
  }

  /** A step is a shift plus what the same step makes of the highest bit alone. */
  lemma StepSplits(rem: Word, poly: Word, bit: bool)
    requires |rem| == |poly| > 0
    ensures Step(rem, poly, bit) == Xor(Shl(rem, 1), Step(Zeros(|rem|), poly, rem[0] != bit))
  {
    assert Shl(Zeros(|rem|), 1) == Zeros(|rem|);
  }

  /** Dividing `k` bits is dividing their sum with the `k` highest bits of the remainder from zero, and
      adding the remainder shifted by `k` bits: what a table over `k` bits relies on. */
  lemma {:induction false} DivideAtOnce(rem: Word, poly: Word, message: Word)
    requires |rem| == |poly| > 0
    ensures Divide(rem, poly, message)
         == Xor(Divide(Zeros(|rem|), poly, Xor(message, Top(rem, |message|))), Shl(rem, |message|))
    decreases |message|
  {
    var k, zero := |message|, Zeros(|rem|);
    var sum := Xor(message, Top(rem, k));
    if k == 0 {
      ShlZero(rem);
      XorZeros(rem);
    } else {
      hide Step, Shl;
      var next := Step(rem, poly, message[0]);
      var first := Step(zero, poly, rem[0] != message[0]);
      StepSplits(rem, poly, message[0]);
      DivideAtOnce(next, poly, message[1..]);
      DivideAtOnce(first, poly, sum[1..]);
      SumsAgree(rem, first, message);
      ShiftsAgree(rem, first, k);
      XorAssociates(Divide(zero, poly, Xor(sum[1..], Top(first, k - 1))), Shl(first, k - 1), Shl(rem, k));
      XorCommutes(Shl(rem, k), Shl(first, k - 1));
    }
  }

  lemma SumsAgree(rem: Word, first: Word, message: Word)
    requires |first| == |rem| > 0 && message != []
    ensures Xor(message[1..], Top(Xor(Shl(rem, 1), first), |message| - 1))
         == Xor(Xor(message, Top(rem, |message|))[1..], Top(first, |message| - 1))
  {
  }

  lemma ShiftsAgree(rem: Word, first: Word, k: nat)
    requires |first| == |rem| && k > 0
    ensures Shl(Xor(Shl(rem, 1), first), k - 1) == Xor(Shl(rem, k), Shl(first, k - 1))
  {
    ShlXor(Shl(rem, 1), first, k - 1);
    ShlShl(rem, 1, k - 1);
  }

  // ---------------------------------------------------------------- the checksum of a byte sequence

  datatype Params = Params(bits: nat, poly: Word, init: Word, final: Word, reflectIn: bool, reflectRem: bool)

  ghost predicate IsParams(p: Params) {
    p.bits > 0 && |p.poly| == |p.init| == |p.final| == p.bits
  }

  /** The bits of a byte in the order they are divided. */
  function MessageBits(p: Params, byte: nat): (m: Word)
    ensures |m| == 8
  {
    if p.reflectIn then Reverse(BitsOf(byte, 8)) else BitsOf(byte, 8)
  }

  /** The remainder after some bytes. */
  ghost function Remainder(p: Params, rem: Word, bytes: seq<nat>): (r: Word)
    requires IsParams(p) && |rem| == p.bits
    ensures |r| == p.bits
  {
    if bytes == [] then rem
    else Divide(Remainder(p, rem, bytes[..|bytes| - 1]), p.poly, MessageBits(p, bytes[|bytes| - 1]))
  }

  /** The remainder, turned around and inverted as the parameters say. */
  ghost function Finished(p: Params, rem: Word): (r: Word)
    requires IsParams(p) && |rem| == p.bits
    ensures |r| == p.bits
  {
    Xor(if p.reflectRem then Reverse(rem) else rem, p.final)
  }

  ghost function Checksum(p: Params, bytes: seq<nat>): Word
    requires IsParams(p)
  {
    Finished(p, Remainder(p, p.init, bytes))
  }

  lemma {:induction false} RemainderConcat(p: Params, rem: Word, a: seq<nat>, b: seq<nat>)
    requires IsParams(p) && |rem| == p.bits
    ensures Remainder(p, rem, a + b) == Remainder(p, Remainder(p, rem, a), b)
  {
    if b == [] {
      assert a + b == a;
    } else {
      assert (a + b)[..|a + b| - 1] == a + b[..|b| - 1];
      RemainderConcat(p, rem, a, b[..|b| - 1]);
    }
  }
}
