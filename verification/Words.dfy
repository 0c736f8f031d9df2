/** Machine words as sequences of bits, the most significant bit first. */
module Words {
  import Bits

  type Word = seq<bool>

  function Zeros(n: nat): (w: Word)
    ensures |w| == n && forall i :: 0 <= i < n ==> !w[i]
  {
    seq(n, _ => false)
  }

  function Not(a: Word): (w: Word)
    ensures |w| == |a| && forall i :: 0 <= i < |a| ==> w[i] == !a[i]
  {
    seq(|a|, i requires 0 <= i < |a| => !a[i])
  }

  function Xor(a: Word, b: Word): (w: Word)
    requires |a| == |b|
    ensures |w| == |a| && forall i :: 0 <= i < |a| ==> w[i] == (a[i] != b[i])
  {
    seq(|a|, i requires 0 <= i < |a| && |a| == |b| => a[i] != b[i])
  }

  /** `a << k` in the width of `a`. */
  function Shl(a: Word, k: nat): (w: Word)
    ensures |w| == |a|
  {
    if k <= |a| then a[k..] + Zeros(k) else Zeros(|a|)
  }

  /** `a >> k`. */
  function Shr(a: Word, k: nat): (w: Word)
    ensures |w| == |a|
  {
    if k <= |a| then Zeros(k) + a[..|a| - k] else Zeros(|a|)
  }

  function Reverse(a: Word): (w: Word)
    ensures |w| == |a| && forall i :: 0 <= i < |a| ==> w[i] == a[|a| - 1 - i]
  {
    seq(|a|, i requires 0 <= i < |a| => a[|a| - 1 - i])
  }

  /** The `k` highest bits, with zeros added below if there are not so many. */
  function Top(a: Word, k: nat): (w: Word)
    ensures |w| == k && forall i :: 0 <= i < k ==> w[i] == (i < |a| && a[i])
  {
    seq(k, i requires 0 <= i < k => i < |a| && a[i])
  }

  /** The `k` lowest bits, with zeros added above if there are not so many. */
  function Low(a: Word, k: nat): (w: Word)
    ensures |w| == k
  {
    if k <= |a| then a[|a| - k..] else Zeros(k - |a|) + a
  }

  lemma XorAssociates(a: Word, b: Word, c: Word)
    requires |a| == |b| == |c|
    ensures Xor(Xor(a, b), c) == Xor(a, Xor(b, c))
  {
  }

  lemma XorZeros(a: Word)
    ensures Xor(a, Zeros(|a|)) == a && Xor(Zeros(|a|), a) == a
  {
  }

  lemma XorCommutes(a: Word, b: Word)
    requires |a| == |b|
    ensures Xor(a, b) == Xor(b, a)
  {
  }

  lemma ReverseTwice(a: Word)
    ensures Reverse(Reverse(a)) == a
  {
  }

  lemma ReverseXor(a: Word, b: Word)
    requires |a| == |b|
    ensures Reverse(Xor(a, b)) == Xor(Reverse(a), Reverse(b))
  {
  }

  lemma ShlAt(a: Word, k: nat, i: nat)
    requires i < |a|
    ensures Shl(a, k)[i] == (i + k < |a| && a[i + k])
  {
  }

  lemma ShrAt(a: Word, k: nat, i: nat)
    requires i < |a|
    ensures Shr(a, k)[i] == (k <= i && a[i - k])
  {
  }

  lemma ReverseShl(a: Word, k: nat)
    ensures Reverse(Shl(a, k)) == Shr(Reverse(a), k)
  {
    hide Shl, Shr;
    var l, r := Reverse(Shl(a, k)), Shr(Reverse(a), k);
    forall i: nat | i < |a| ensures l[i] == r[i] {
      ShlAt(a, k, |a| - 1 - i);
      ShrAt(Reverse(a), k, i);
    }
  }

  lemma ShlZero(a: Word)
    ensures Shl(a, 0) == a
  {
    assert a[0..] == a;
  }

  lemma ShlShl(a: Word, j: nat, k: nat)
    ensures Shl(Shl(a, j), k) == Shl(a, j + k)
  {
    hide Shl;
    var l, r := Shl(Shl(a, j), k), Shl(a, j + k);
    forall i: nat | i < |a| ensures l[i] == r[i] {
      ShlAt(Shl(a, j), k, i);
      ShlAt(a, j + k, i);
      if i + k < |a| { ShlAt(a, j, i + k); }
    }
  }

  lemma ShlXor(a: Word, b: Word, k: nat)
    requires |a| == |b|
    ensures Shl(Xor(a, b), k) == Xor(Shl(a, k), Shl(b, k))
  {
    hide Shl;
    var l, r := Shl(Xor(a, b), k), Xor(Shl(a, k), Shl(b, k));
    forall i: nat | i < |a| ensures l[i] == r[i] {
      ShlAt(Xor(a, b), k, i);
      ShlAt(a, k, i);
      ShlAt(b, k, i);
    }
  }

  // ---------------------------------------------------------------- bytes

  /** The `k` low bits of a number. */
  function BitsOf(x: nat, k: nat): (w: Word)
    ensures |w| == k
  {
    if k == 0 then [] else BitsOf(x / 2, k - 1) + [x % 2 == 1]
  }

  function ValueOf(w: Word): nat {
    if w == [] then 0 else 2 * ValueOf(w[..|w| - 1]) + if w[|w| - 1] then 1 else 0
  }

  lemma {:induction false} BitsOfValue(w: Word)
    ensures BitsOf(ValueOf(w), |w|) == w
  {
    if w != [] {
      BitsOfValue(w[..|w| - 1]);
    }
  }

  lemma {:induction false} ValueBound(w: Word)
    ensures ValueOf(w) < Bits.Pow2(|w|)
  {
    if w != [] {
      ValueBound(w[..|w| - 1]);
    }
  }

  lemma {:induction false} ValueOfBits(x: nat, k: nat)
    requires x < Bits.Pow2(k)
    ensures ValueOf(BitsOf(x, k)) == x
  {
    if k > 0 {
      assert BitsOf(x, k)[..k - 1] == BitsOf(x / 2, k - 1);
      ValueOfBits(x / 2, k - 1);
    }
  }
}
