/** Powers of two and the bits of a natural number.  A bit stream is a number whose low bits come first,
    as in the bit buffers of the compressor and the inflater. */
module Bits {

  function Pow2(n: nat): (r: nat)
    ensures r > 0
  {
    if n == 0 then 1 else 2 * Pow2(n - 1)
  }

  lemma {:induction false} Pow2Add(m: nat, n: nat)
    ensures Pow2(m + n) == Pow2(m) * Pow2(n)
  {
    if m > 0 {
      Pow2Add(m - 1, n);
      MulTwice(Pow2(n), Pow2(m - 1));
    }
  }

  lemma Pow2Values()
    ensures Pow2(8) == 256 && Pow2(10) == 1024 && Pow2(15) == 32768
    ensures Pow2(16) == 65536 && Pow2(32) == 0x1_0000_0000
  {
    Pow2Add(16, 16);
  }

  lemma {:induction false} Pow2Monotone(m: nat, n: nat)
    requires m <= n
    ensures Pow2(m) <= Pow2(n)
  {
    if m < n {
      Pow2Monotone(m, n - 1);
    }
  }

  lemma MulTwice(a: nat, p: nat)
    ensures a * (2 * p) == 2 * (a * p)
  {
  }

  // ---------------------------------------------------------------- bits in stream order

  /** Bit `d` of the stream: `(x >> d) & 1`. */
  function Bit(x: nat, d: nat): (b: nat)
    ensures b < 2
  {
    if d == 0 then x % 2 else Bit(x / 2, d - 1)
  }

  /** The stream after `d` bits were taken: `x >> d`. */
  function Shr(x: nat, d: nat): nat {
    if d == 0 then x else Shr(x / 2, d - 1)
  }

  /** The first `d` bits alone: `x & ((1 << d) - 1)`. */
  function Low(x: nat, d: nat): (r: nat)
    ensures r < Pow2(d)
  {
    if d == 0 then 0 else x % 2 + 2 * Low(x / 2, d - 1)
  }

  /** What the first `d` bits spell, most significant bit first. */
  function Top(x: nat, d: nat): (r: nat)
    ensures r < Pow2(d)
  {
    if d == 0 then 0 else (if x % 2 == 1 then Pow2(d - 1) else 0) + Top(x / 2, d - 1)
  }

  /** The first `n` bits of `low`, then those of `high`: `low | (high << n)`. */
  function Append(low: nat, n: nat, high: nat): nat {
    if n == 0 then high else low % 2 + 2 * Append(low / 2, n - 1, high)
  }

  /** A code of `n` bits with its bits in the opposite order. */
  function Reverse(c: nat, n: nat): (r: nat)
    ensures r < Pow2(n)
  {
    if n == 0 then 0 else (if c % 2 == 1 then Pow2(n - 1) else 0) + Reverse(c / 2, n - 1)
  }

  lemma {:induction false} ShrOneMore(x: nat, d: nat)
    ensures Shr(x, d + 1) == Shr(x, d) / 2 && Bit(x, d) == Shr(x, d) % 2
  {
    if d > 0 {
      ShrOneMore(x / 2, d - 1);
    }
  }

  lemma {:induction false} ShrShr(c: nat, j: nat, k: nat)
    ensures Shr(Shr(c, j), k) == Shr(c, j + k)
  {
    if j > 0 {
      ShrShr(c / 2, j - 1, k);
    }
  }

  lemma {:induction false} TopOneMore(x: nat, d: nat)
    ensures Top(x, d + 1) == 2 * Top(x, d) + Bit(x, d)
  {
    if d > 0 {
      TopOneMore(x / 2, d - 1);
    }
  }

  /** A shorter prefix is the longer one without its last bits. */
  lemma {:induction false} TopPrefix(x: nat, d: nat, k: nat)
    ensures Shr(Top(x, d + k), k) == Top(x, d)
  {
    if k > 0 {
      TopOneMore(x, d + k - 1);
      assert Top(x, d + k) / 2 == Top(x, d + k - 1);
      TopPrefix(x, d, k - 1);
    }
  }

  /** Two streams start with the same word exactly when they agree in their low bits. */
  lemma {:induction false} TopSameLow(x: nat, y: nat, d: nat)
    ensures Top(x, d) == Top(y, d) <==> Low(x, d) == Low(y, d)
  {
    if d > 0 {
      TopSameLow(x / 2, y / 2, d - 1);
    }
  }

  lemma {:induction false} TopOfLow(x: nat, d: nat)
    ensures Top(Low(x, d), d) == Top(x, d)
  {
    if d > 0 {
      TopOfLow(x / 2, d - 1);
    }
  }

  lemma {:induction false} LowOfSmall(x: nat, d: nat)
    requires x < Pow2(d)
    ensures Low(x, d) == x
  {
    if d > 0 {
      LowOfSmall(x / 2, d - 1);
    }
  }

  /** The low bits repeat every `1 << d`. */
  lemma {:induction false} LowRepeats(x: nat, d: nat)
    ensures Low(x + Pow2(d), d) == Low(x, d)
  {
    if d > 0 {
      assert (x + Pow2(d)) / 2 == x / 2 + Pow2(d - 1) && (x + Pow2(d)) % 2 == x % 2;
      LowRepeats(x / 2, d - 1);
    }
  }

  /** And not before. */
  lemma {:induction false} LowDistinct(x: nat, y: nat, d: nat)
    requires x <= y < x + Pow2(d) && Low(x, d) == Low(y, d)
    ensures x == y
  {
    if d > 0 {
      LowDistinct(x / 2, y / 2, d - 1);
    }
  }

  // ---------------------------------------------------------------- appending

  lemma {:induction false} AppendValue(low: nat, n: nat, high: nat)
    requires low < Pow2(n)
    ensures Append(low, n, high) == low + high * Pow2(n)
  {
    if n > 0 {
      AppendValue(low / 2, n - 1, high);
      MulTwice(high, Pow2(n - 1));
    }
  }

  lemma {:induction false} AppendAssociates(a: nat, m: nat, b: nat, n: nat, c: nat)
    ensures Append(Append(a, m, b), m + n, c) == Append(a, m, Append(b, n, c))
  {
    if m > 0 {
      AppendAssociates(a / 2, m - 1, b, n, c);
    }
  }

  lemma {:induction false} AppendBound(a: nat, m: nat, b: nat, n: nat)
    requires b < Pow2(n)
    ensures Append(a, m, b) < Pow2(m + n)
  {
    if m > 0 {
      AppendBound(a / 2, m - 1, b, n);
    }
  }

  lemma {:induction false} AppendNothing(x: nat, n: nat)
    requires x < Pow2(n)
    ensures Append(x, n, 0) == x
  {
    if n > 0 {
      AppendNothing(x / 2, n - 1);
    }
  }

  lemma {:induction false} AppendSplit(x: nat, n: nat)
    ensures Append(Low(x, n), n, Shr(x, n)) == x
  {
    if n > 0 {
      AppendSplit(x / 2, n - 1);
      assert Low(x, n) % 2 == x % 2 && Low(x, n) / 2 == Low(x / 2, n - 1);
    }
  }

  /** Bits put behind the first `d` ones leave those alone. */
  lemma {:induction false} AppendKeepsLow(low: nat, d: nat, high: nat)
    ensures Top(Append(low, d, high), d) == Top(low, d)
    ensures Low(Append(low, d, high), d) == Low(low, d)
    ensures Shr(Append(low, d, high), d) == high
    ensures Bit(Append(low, d, high), d) == high % 2
  {
    if d > 0 {
      AppendKeepsLow(low / 2, d - 1, high);
    }
  }

  lemma {:induction false} ShrBound(x: nat, m: nat, n: nat)
    requires m <= n && x < Pow2(n)
    ensures Shr(x, m) < Pow2(n - m)
  {
    if m > 0 {
      ShrBound(x / 2, m - 1, n - 1);
    }
  }

  /** The low bits are the remainder, and the other ones the quotient. */
  lemma LowIsRemainder(x: nat, n: nat, p: nat)
    requires p == Pow2(n)
    ensures x == Low(x, n) + Shr(x, n) * p
  {
    AppendSplit(x, n);
    AppendValue(Low(x, n), n, Shr(x, n));
  }

  lemma LowTen(x: nat)
    ensures Low(x, 10) == x % 1024
  {
    Pow2Values();
    LowIsRemainder(x, 10, 1024);
  }

  lemma LowEight(x: nat)
    ensures Low(x, 8) == x % 256 && Shr(x, 8) == x / 256
  {
    hide Low, Shr, Pow2;
    Pow2Values();
    LowIsRemainder(x, 8, 256);
  }

  // ---------------------------------------------------------------- reversal

  lemma {:induction false} AppendBit(low: nat, d: nat, b: nat)
    requires low < Pow2(d) && b < 2
    ensures Append(low, d, b) == low + if b == 1 then Pow2(d) else 0
  {
    if d > 0 {
      AppendBit(low / 2, d - 1, b);
    }
  }

  lemma ReverseStep(c: nat, n: nat)
    requires n > 0
    ensures Reverse(c, n) == Append(Reverse(c / 2, n - 1), n - 1, c % 2)
  {
    AppendBit(Reverse(c / 2, n - 1), n - 1, c % 2);
  }

  lemma NoWord(x: nat, c: nat)
    ensures Top(x, 0) == 0 && Pow2(0) == 1
  {
  }

  lemma Pow2Half(c: nat, n: nat)
    requires n > 0 && c < Pow2(n)
    ensures c / 2 < Pow2(n - 1)
  {
  }

  /** Written low bit first, a reversed code spells the code. */
  lemma {:induction false} TopOfReverse(c: nat, n: nat)
    requires c < Pow2(n)
    ensures Top(Reverse(c, n), n) == c
  {
    hide Reverse, Append, Bit, Top, Pow2;
    NoWord(Reverse(c, n), c);
    if n > 0 {
      var rest := Reverse(c / 2, n - 1);
      Pow2Half(c, n);
      TopOfReverse(c / 2, n - 1);
      ReverseStep(c, n);
      TopOneMore(Append(rest, n - 1, c % 2), n - 1);
      AppendKeepsLow(rest, n - 1, c % 2);
    }
  }

  // ---------------------------------------------------------------- bytes

  type Byte = b: int | 0 <= b < 256

  /** The bytes as one number, the first byte lowest. */
  function BytesValue(bytes: seq<Byte>): nat {
    if bytes == [] then 0 else Append(bytes[0], 8, BytesValue(bytes[1..]))
  }

  lemma {:induction false} BytesValueAppend(bytes: seq<Byte>, b: Byte)
    ensures BytesValue(bytes + [b]) == Append(BytesValue(bytes), 8 * |bytes|, b)
  {
    var more := bytes + [b];
    if bytes == [] {
      assert more[1..] == [];
      Pow2Values();
      AppendNothing(b, 8);
    } else {
      assert more[1..] == bytes[1..] + [b];
      BytesValueAppend(bytes[1..], b);
      AppendAssociates(bytes[0], 8, BytesValue(bytes[1..]), 8 * |bytes| - 8, b);
    }
  }
}
