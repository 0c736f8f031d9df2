/** Machine words of numbers and of bit-vectors, to compute with literals: the operations on words are those on bit-vectors. */
module WordVectors {
  import Bits
  import opened Words
  import opened Sha1Spec

  // ---------------------------------------------------------------- facts about bit-vectors

  function Half(x: bv32): bv32 { x >> 1 }

  function Twice(x: bv32): bv32 { x << 1 }

  predicate Odd(x: bv32) { x & 1 == 1 }

  function AndOf(x: bv32, y: bv32): bv32 { x & y }

  function XorOf(x: bv32, y: bv32): bv32 { x ^ y }

  function Rol1(x: bv32): bv32 { (x << 1) | (x >> 31) }

  function Rol5(x: bv32): bv32 { (x << 5) | (x >> 27) }

  function Rol30(x: bv32): bv32 { (x << 30) | (x >> 2) }

  lemma HalfLogic(x: bv32, y: bv32)
    ensures Half(AndOf(x, y)) == AndOf(Half(x), Half(y)) && (Odd(AndOf(x, y)) <==> Odd(x) && Odd(y))
    ensures Half(XorOf(x, y)) == XorOf(Half(x), Half(y)) && (Odd(XorOf(x, y)) <==> Odd(x) != Odd(y))
  {
  }

  lemma AroundTheEnd(x: bv32)
    ensures Odd(Rol1(x)) <==> AndOf(x, 0x8000_0000) != 0
    ensures XorOf(Half(Rol1(x)), x) == 0 || XorOf(Half(Rol1(x)), x) == 0x8000_0000
  {
  }

  lemma RolTwice(x: bv32)
    ensures Rol1(Rol1(Rol30(x))) == x
  {
  }

  lemma RolFive(x: bv32)
    ensures Rol1(Rol1(Rol1(Rol1(Rol1(x))))) == Rol5(x)
  {
  }

  /** The bits that an addition carries to the left, where they come from. */
  function Carried(x: bv32, y: bv32, c: bv32): bv32 {
    XorOf(AndOf(x, y), AndOf(c, XorOf(x, y)))
  }

  /** The sum of two numbers by its carries; this is evaluated for the numbers that are added. */
  predicate Adds(x: bv32, y: bv32, c: bv32, z: bv32) {
    c == ((x & y) ^ (c & (x ^ y))) << 1 && z == x ^ y ^ c
  }

  lemma AddsMeans(x: bv32, y: bv32, c: bv32, z: bv32)
    requires Adds(x, y, c, z)
    ensures c == Twice(Carried(x, y, c)) && XorOf(XorOf(x, y), c) == z
  {
  }

  lemma TwiceIsEven(m: bv32)
    ensures !Odd(Twice(m)) && (XorOf(Half(Twice(m)), m) == 0 || XorOf(Half(Twice(m)), m) == 0x8000_0000)
  {
  }

  // ---------------------------------------------------------------- words as bit-vectors

  /** The `n` low bits of a bit-vector. */
  function WordOf(x: bv32, n: nat): (w: Word)
    ensures |w| == n
    decreases n
  {
    if n == 0 then [] else WordOf(Half(x), n - 1) + [Odd(x)]
  }

  lemma {:induction false} LogicOf(x: bv32, y: bv32, n: nat)
    ensures And(WordOf(x, n), WordOf(y, n)) == WordOf(AndOf(x, y), n) && Xor(WordOf(x, n), WordOf(y, n)) == WordOf(XorOf(x, y), n)
    decreases n
  {
    hide AndOf, XorOf, Half, Odd, And, Xor;
    if n > 0 {
      LogicOf(Half(x), Half(y), n - 1);
      HalfLogic(x, y);
      AndOneMore(WordOf(Half(x), n - 1), WordOf(Half(y), n - 1), Odd(x), Odd(y));
    }
  }

  lemma AndOneMore(x: Word, y: Word, a: bool, b: bool)
    requires |x| == |y|
    ensures And(x + [a], y + [b]) == And(x, y) + [a && b] && Xor(x + [a], y + [b]) == Xor(x, y) + [a != b]
  {
  }

  lemma {:induction false} WithoutTop(x: bv32, n: nat)
    ensures WordOf(x, n + 1)[1..] == WordOf(x, n)
    decreases n
  {
    hide Half, Odd;
    if n > 0 {
      WithoutTop(Half(x), n - 1);
      assert WordOf(x, n + 1)[1..] == WordOf(Half(x), n)[1..] + [Odd(x)];
    }
  }

  lemma TopWord()
    ensures WordOf(0x8000_0000, 32) == [true] + Zeros(31) && WordOf(0, 32) == Zeros(32)
  {
    hide WordOf;
    FourBytesOf(0x8000_0000);
    FourBytesOf(0);
  }

  lemma TopIsOne(x: bv32)
    ensures AndOf(x, 0x8000_0000) == 0 || AndOf(x, 0x8000_0000) == 0x8000_0000
  {
  }

  /** The highest bit does not matter to the others. */
  lemma SameBelow(x: bv32, y: bv32)
    requires XorOf(x, y) == 0 || XorOf(x, y) == 0x8000_0000
    ensures WordOf(x, 31) == WordOf(y, 31)
  {
    hide XorOf, WordOf;
    TopWord();
    LogicOf(x, y, 32);
    WithoutTop(x, 31);
    WithoutTop(y, 31);
    var X, Y := WordOf(x, 32), WordOf(y, 32);
    forall i | 1 <= i < 32 ensures X[i] == Y[i] {
      assert !WordOf(XorOf(x, y), 32)[i];
    }
    assert X[1..] == Y[1..];
  }

  lemma TopOf(x: bv32)
    ensures WordOf(x, 32)[0] <==> AndOf(x, 0x8000_0000) != 0
  {
    hide WordOf, AndOf;
    TopWord();
    TopIsOne(x);
    LogicOf(x, 0x8000_0000, 32);
    assert And(WordOf(x, 32), WordOf(0x8000_0000, 32))[0] == WordOf(x, 32)[0];
  }

  lemma RolOf(x: bv32)
    ensures WordOf(Rol1(x), 32) == Rotl(WordOf(x, 32), 1)
  {
    hide Half, Odd, Rol1, AndOf, XorOf;
    AroundTheEnd(x);
    SameBelow(Half(Rol1(x)), x);
    WithoutTop(x, 31);
    TopOf(x);
  }

  lemma RotlTwice(w: Word, m: nat, n: nat)
    requires m + n <= |w|
    ensures Rotl(Rotl(w, m), n) == Rotl(w, m + n) && Rotl(w, |w|) == w
  {
  }

  lemma Rol5Of(x: bv32)
    ensures WordOf(Rol5(x), 32) == Rotl(WordOf(x, 32), 5)
  {
    hide Rotl, WordOf, Rol1, Rol5;
    var x1 := Rol1(x);
    var x2 := Rol1(x1);
    var x3 := Rol1(x2);
    var x4 := Rol1(x3);
    RolFive(x);
    RolOf(x);
    RolOf(x1);
    RolOf(x2);
    RolOf(x3);
    RolOf(x4);
    RotlTwice(WordOf(x, 32), 1, 1);
    RotlTwice(WordOf(x, 32), 2, 1);
    RotlTwice(WordOf(x, 32), 3, 1);
    RotlTwice(WordOf(x, 32), 4, 1);
  }

  lemma Rol30Of(x: bv32)
    ensures WordOf(Rol30(x), 32) == Rotl(WordOf(x, 32), 30)
  {
    hide Rotl, WordOf, Rol1, Rol30;
    var y := Rol30(x);
    RolTwice(x);
    RolOf(y);
    RolOf(Rol1(y));
    RotlTwice(WordOf(y, 32), 1, 1);
    RotlTwice(WordOf(y, 32), 2, 30);
  }

  // ---------------------------------------------------------------- addition

  function Carry(a: bool, b: bool, c: bool): bool {
    if a == b then a else c
  }

  function One(b: bool): nat { if b then 1 else 0 }

  /** Every carry comes from the three bits to the right of it. */
  ghost predicate Carries(x: Word, y: Word, c: Word) {
    |x| == |y| == |c| && forall i :: 0 <= i < |c| - 1 ==> c[i] == Carry(x[i + 1], y[i + 1], c[i + 1])
  }

  lemma {:induction false} RippleAdds(x: Word, y: Word, c: Word)
    requires Carries(x, y, c) && |c| > 0
    ensures ValueOf(Xor(Xor(x, y), c)) + One(Carry(x[0], y[0], c[0])) * Bits.Pow2(|c|) == ValueOf(x) + ValueOf(y) + One(c[|c| - 1])
    decreases |c|
  {
    var n := |c| - 1;
    var x', y', c' := x[..n], y[..n], c[..n];
    var s := Xor(Xor(x, y), c);
    assert s[..n] == Xor(Xor(x', y'), c');
    if n > 0 {
      RippleAdds(x', y', c');
      TwicePower(One(Carry(x[0], y[0], c[0])), n);
    } else {
      assert Bits.Pow2(0) == 1 && Bits.Pow2(1) == 2;
    }
  }

  lemma TwicePower(b: nat, n: nat)
    requires b <= 1
    ensures b * Bits.Pow2(n + 1) == 2 * (b * Bits.Pow2(n))
  {
  }

  lemma AddOf(x: bv32, y: bv32, c: bv32, z: bv32)
    requires Adds(x, y, c, z)
    ensures Add(WordOf(x, 32), WordOf(y, 32)) == WordOf(z, 32)
  {
    hide Adds, WordOf, BitsOf, Bits.Pow2, ValueOf, XorOf, Carried, Twice, Xor;
    AddsMeans(x, y, c, z);
    CarryBits(x, y, c);
    RippleAdds(WordOf(x, 32), WordOf(y, 32), WordOf(c, 32));
    LogicOf(x, y, 32);
    LogicOf(XorOf(x, y), c, 32);
    Modulo(ValueOf(WordOf(z, 32)), Carry(WordOf(x, 32)[0], WordOf(y, 32)[0], WordOf(c, 32)[0]), 32);
    BitsOfValue(WordOf(z, 32));
  }

  lemma CarryBits(x: bv32, y: bv32, c: bv32)
    requires c == Twice(Carried(x, y, c))
    ensures Carries(WordOf(x, 32), WordOf(y, 32), WordOf(c, 32)) && !WordOf(c, 32)[31]
  {
    hide WordOf, XorOf, AndOf, Odd, Half, Twice, And, Xor;
    var m := Carried(x, y, c);
    var X, Y, C, M := WordOf(x, 32), WordOf(y, 32), WordOf(c, 32), WordOf(m, 32);
    LogicOf(x, y, 32);
    LogicOf(c, XorOf(x, y), 32);
    LogicOf(AndOf(x, y), AndOf(c, XorOf(x, y)), 32);
    TwiceIsEven(m);
    SameBelow(Half(c), m);
    WithoutTop(m, 31);
    LastOf(c);
    assert M == Xor(And(X, Y), And(C, Xor(X, Y)));
    forall i | 0 <= i < 31 ensures C[i] == Carry(X[i + 1], Y[i + 1], C[i + 1]) {
      assert C[i] == C[..31][i] == M[1..][i] == M[i + 1];
    }
  }

  lemma LastOf(c: bv32)
    ensures WordOf(c, 32)[..31] == WordOf(Half(c), 31) && WordOf(c, 32)[31] == Odd(c)
  {
    hide Half, Odd;
  }

  /** The low bits repeat. */
  lemma {:induction false} Modulo(v: nat, out: bool, n: nat)
    ensures BitsOf(v + One(out) * Bits.Pow2(n), n) == BitsOf(v, n)
  {
    if out && n > 0 {
      var p := Bits.Pow2(n - 1);
      assert (v + 2 * p) / 2 == v / 2 + p && (v + 2 * p) % 2 == v % 2;
      Modulo(v / 2, out, n - 1);
    }
  }

  // ---------------------------------------------------------------- numbers

  /** The lowest eight bits. */
  function ByteOf(x: bv32): Word {
    [x & 128 != 0, x & 64 != 0, x & 32 != 0, x & 16 != 0, x & 8 != 0, x & 4 != 0, x & 2 != 0, x & 1 != 0]
  }

  function NumberByte(n: nat): Word {
    [n / 128 % 2 == 1, n / 64 % 2 == 1, n / 32 % 2 == 1, n / 16 % 2 == 1, n / 8 % 2 == 1, n / 4 % 2 == 1, n / 2 % 2 == 1, n % 2 == 1]
  }

  function Nibble(x: bv32): Word {
    [x & 8 != 0, x & 4 != 0, x & 2 != 0, x & 1 != 0]
  }

  function DownFour(x: bv32): bv32 { x >> 4 }

  function Down(x: bv32): bv32 { x >> 8 }

  lemma HalfTimes(x: bv32)
    ensures Half(Half(Half(Half(x)))) == DownFour(x) && (Odd(x) <==> x & 1 != 0) && (Odd(Half(x)) <==> x & 2 != 0)
    ensures (Odd(Half(Half(x))) <==> x & 4 != 0) && (Odd(Half(Half(Half(x)))) <==> x & 8 != 0)
  {
  }

  lemma NibbleOfHalves(x: bv32)
    ensures Nibble(x) == [Odd(Half(Half(Half(x)))), Odd(Half(Half(x))), Odd(Half(x)), Odd(x)]
  {
    HalfTimes(x);
  }

  lemma OneBitMore(x: bv32, k: nat)
    ensures WordOf(x, k + 1) == WordOf(Half(x), k) + [Odd(x)]
  {
    hide Half, Odd;
  }

  lemma FourMore(x: bv32, k: nat)
    ensures WordOf(x, k + 4) == WordOf(DownFour(x), k) + Nibble(x)
  {
    hide Half, Odd, DownFour, Nibble, WordOf;
    HalfTimes(x);
    NibbleOfHalves(x);
    OneBitMore(x, k + 3);
    OneBitMore(Half(x), k + 2);
    OneBitMore(Half(Half(x)), k + 1);
    OneBitMore(Half(Half(Half(x))), k);
  }

  lemma HighNibble(x: bv32)
    ensures ((x >> 4) & 1 != 0 <==> x & 16 != 0) && ((x >> 4) & 2 != 0 <==> x & 32 != 0)
    ensures ((x >> 4) & 4 != 0 <==> x & 64 != 0) && ((x >> 4) & 8 != 0 <==> x & 128 != 0)
  {
  }

  lemma TwoNibbles(x: bv32)
    ensures ByteOf(x) == Nibble(DownFour(x)) + Nibble(x)
  {
    HighNibble(x);
  }

  lemma DownTwice(x: bv32)
    ensures DownFour(DownFour(x)) == Down(x)
  {
  }

  lemma ByteAndRest(x: bv32, k: nat)
    ensures WordOf(x, k + 8) == WordOf(Down(x), k) + ByteOf(x)
  {
    hide WordOf, DownFour, Nibble, ByteOf, Down;
    FourMore(x, k + 4);
    FourMore(DownFour(x), k);
    TwoNibbles(x);
    DownTwice(x);
  }

  lemma DownTimes(x: bv32)
    ensures Down(x) == x >> 8 && Down(Down(x)) == x >> 16 && Down(Down(Down(x))) == x >> 24
  {
  }

  lemma FourBytesOf(x: bv32)
    ensures WordOf(x, 32) == ByteOf(Down(Down(Down(x)))) + ByteOf(Down(Down(x))) + ByteOf(Down(x)) + ByteOf(x)
  {
    hide ByteOf, Down, WordOf;
    ByteAndRest(x, 24);
    ByteAndRest(Down(x), 16);
    ByteAndRest(Down(Down(x)), 8);
    ByteAndRest(Down(Down(Down(x))), 0);
    NoBits(Down(Down(Down(Down(x)))));
  }

  lemma NoBits(x: bv32)
    ensures WordOf(x, 0) == []
  {
  }

  lemma NumberBitMore(n: nat, k: nat)
    ensures BitsOf(n, k + 1) == BitsOf(n / 2, k) + [n % 2 == 1]
  {
  }

  lemma NumberFourMore(n: nat, k: nat)
    ensures BitsOf(n, k + 4) == BitsOf(n / 16, k) + [n / 8 % 2 == 1, n / 4 % 2 == 1, n / 2 % 2 == 1, n % 2 == 1]
  {
    hide BitsOf;
    assert n / 2 / 2 == n / 4 && n / 4 / 2 == n / 8 && n / 8 / 2 == n / 16;
    NumberBitMore(n, k + 3);
    NumberBitMore(n / 2, k + 2);
    NumberBitMore(n / 4, k + 1);
    NumberBitMore(n / 8, k);
  }

  lemma NumberByteMore(n: nat, k: nat)
    ensures BitsOf(n, k + 8) == BitsOf(n / 256, k) + NumberByte(n)
  {
    hide BitsOf;
    assert n / 16 / 2 == n / 32 && n / 16 / 4 == n / 64 && n / 16 / 8 == n / 128 && n / 16 / 16 == n / 256;
    NumberFourMore(n, k + 4);
    NumberFourMore(n / 16, k);
  }

  lemma NumberBytes(n: nat)
    ensures BitsOf(n, 32) == NumberByte(n / 0x100_0000) + NumberByte(n / 0x1_0000) + NumberByte(n / 0x100) + NumberByte(n)
  {
    hide NumberByte, BitsOf;
    Quotients(n);
    NumberByteMore(n, 24);
    NumberByteMore(n / 0x100, 16);
    NumberByteMore(n / 0x1_0000, 8);
    NumberByteMore(n / 0x100_0000, 0);
  }

  lemma Quotients(n: nat)
    ensures n / 0x100 / 0x100 == n / 0x1_0000 && n / 0x1_0000 / 0x100 == n / 0x100_0000
  {
  }

  predicate SameByte(n: nat, x: bv32) {
    && (n % 2 == 1 <==> x & 1 != 0) && (n / 2 % 2 == 1 <==> x & 2 != 0) && (n / 4 % 2 == 1 <==> x & 4 != 0)
    && (n / 8 % 2 == 1 <==> x & 8 != 0) && (n / 16 % 2 == 1 <==> x & 16 != 0) && (n / 32 % 2 == 1 <==> x & 32 != 0)
    && (n / 64 % 2 == 1 <==> x & 64 != 0) && (n / 128 % 2 == 1 <==> x & 128 != 0)
  }

  lemma SameByteIs(n: nat, x: bv32)
    requires SameByte(n, x)
    ensures NumberByte(n) == ByteOf(x)
  {
  }

  /** The word of a number. */
  lemma NumberIs(n: nat, x: bv32, n1: nat, x1: bv32, n2: nat, x2: bv32, n3: nat, x3: bv32)
    requires n1 == n / 0x100 && n2 == n / 0x1_0000 && n3 == n / 0x100_0000 && x1 == x >> 8 && x2 == x >> 16 && x3 == x >> 24
    requires SameByte(n, x) && SameByte(n1, x1) && SameByte(n2, x2) && SameByte(n3, x3)
    ensures BitsOf(n, 32) == WordOf(x, 32)
  {
    hide BitsOf, WordOf, NumberByte, ByteOf, Down, SameByte;
    NumberBytes(n);
    FourBytesOf(x);
    DownTimes(x);
    SameByteIs(n, x);
    SameByteIs(n1, x1);
    SameByteIs(n2, x2);
    SameByteIs(n3, x3);
  }
}
