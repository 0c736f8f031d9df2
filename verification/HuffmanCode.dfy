/** Canonical Huffman codes: how `tdefl_optimize_huffman_table` and `tinfl_decompress` of
    `src/miniz.c` number the symbols of a code-length vector (section 3.2.2 of RFC 1951). */
module HuffmanCode {
  import opened Bits

  const MAX_BITS := 15
  const MAX_SYMBOLS := 288

  /** One code length per symbol; 0 for a symbol without a code. */
  type Sizes = s: seq<nat> | forall i :: 0 <= i < |s| ==> s[i] <= MAX_BITS

  /** How many of the first `n` symbols have the given code length. */
  function CountIn(sizes: Sizes, n: nat, len: nat): (c: nat)
    requires n <= |sizes|
    ensures c <= n
  {
    if n == 0 then 0 else CountIn(sizes, n - 1, len) + if sizes[n - 1] == len then 1 else 0
  }

  function Count(sizes: Sizes, len: nat): nat {
    CountIn(sizes, |sizes|, len)
  }

  /** The first code of each length: `next_code` before any symbol is numbered. */
  function First(sizes: Sizes, len: nat): nat {
    if len <= 1 then 0 else 2 * (First(sizes, len - 1) + Count(sizes, len - 1))
  }

  /** How many symbols have a code shorter than `len` bits. */
  function UsedBelow(sizes: Sizes, len: nat): nat {
    if len <= 1 then 0 else UsedBelow(sizes, len - 1) + Count(sizes, len - 1)
  }

  /** The code of a symbol: codes of one length are handed out in symbol order. */
  function Code(sizes: Sizes, s: nat): nat
    requires s < |sizes|
  {
    First(sizes, sizes[s]) + CountIn(sizes, s, sizes[s])
  }

  ghost predicate Used(sizes: Sizes, s: nat) {
    s < |sizes| && sizes[s] > 0
  }

  /** The inflater's test: a full set of codes, or at most one code. */
  predicate Accepted(sizes: Sizes) {
    First(sizes, 16) == 65536 || UsedBelow(sizes, 16) <= 1
  }

  /** What section 3.2.7 of RFC 1951 knows: a full set of codes, or at most one code, of one bit. */
  predicate Standard(sizes: Sizes) {
    First(sizes, 16) == 65536 || (UsedBelow(sizes, 16) <= 1 && forall i :: 0 <= i < |sizes| ==> sizes[i] <= 1)
  }

  lemma StandardIsAccepted(sizes: Sizes)
    requires Standard(sizes)
    ensures Accepted(sizes)
  {
  }

  /** The buffer starts with the code of the symbol. */
  ghost predicate Spells(x: nat, sizes: Sizes, s: nat) {
    Used(sizes, s) && Top(x, sizes[s]) == Code(sizes, s)
  }

  // ---------------------------------------------------------------- counting

  lemma {:induction false} CountInMonotone(sizes: Sizes, m: nat, n: nat, len: nat)
    requires m <= n <= |sizes|
    ensures CountIn(sizes, m, len) <= CountIn(sizes, n, len)
  {
    if m < n {
      CountInMonotone(sizes, m, n - 1, len);
    }
  }

  lemma CountOfSymbol(sizes: Sizes, s: nat)
    requires s < |sizes|
    ensures CountIn(sizes, s, sizes[s]) < Count(sizes, sizes[s])
  {
    CountInMonotone(sizes, s + 1, |sizes|, sizes[s]);
  }

  /** At most `n` symbols in all. */
  lemma {:induction false} UsedAtMost(sizes: Sizes, n: nat, len: nat)
    requires n <= |sizes|
    ensures UsedIn(sizes, n, len) <= n
    decreases n, len
  {
    if n > 0 {
      UsedAtMost(sizes, n - 1, len);
      UsedInOneMore(sizes, n, len);
    } else if len > 1 {
      UsedAtMost(sizes, n, len - 1);
    }
  }

  /** The same count restricted to the first `n` symbols. */
  function UsedIn(sizes: Sizes, n: nat, len: nat): nat
    requires n <= |sizes|
  {
    if len <= 1 then 0 else UsedIn(sizes, n, len - 1) + CountIn(sizes, n, len - 1)
  }

  lemma {:induction false} UsedInOneMore(sizes: Sizes, n: nat, len: nat)
    requires 0 < n <= |sizes|
    ensures UsedIn(sizes, n, len) == UsedIn(sizes, n - 1, len) + if 1 <= sizes[n - 1] < len then 1 else 0
  {
    if len > 1 {
      UsedInOneMore(sizes, n, len - 1);
    } 
  }

  lemma {:induction false} UsedInAll(sizes: Sizes, len: nat)
    ensures UsedIn(sizes, |sizes|, len) == UsedBelow(sizes, len)
  {
    if len > 1 {
      UsedInAll(sizes, len - 1);
    }
  }

  // ---------------------------------------------------------------- the Kraft sum

  lemma {:induction false} FirstAtMost(sizes: Sizes, len: nat)
    requires len >= 1
    ensures First(sizes, len) <= UsedBelow(sizes, len) * Pow2(len - 1)
  {
    if len > 1 {
      hide CountIn;
      FirstAtMost(sizes, len - 1);
      DoubleSum(First(sizes, len - 1), UsedBelow(sizes, len - 1), Count(sizes, len - 1), Pow2(len - 2));
    }
  }

  lemma DoubleSum(f: nat, u: nat, c: nat, p: nat)
    requires p > 0 && f <= u * p
    ensures 2 * (f + c) <= (u + c) * (2 * p)
  {
    assert c * p >= c;
    assert (u + c) * (2 * p) == 2 * (u * p) + 2 * (c * p);
  }

  lemma AcceptedSum(sizes: Sizes)
    requires Accepted(sizes)
    ensures First(sizes, 16) <= 65536
  {
    FirstAtMost(sizes, 16);
    assert Pow2(15) == 32768;
    if UsedBelow(sizes, 16) <= 1 {
      assert UsedBelow(sizes, 16) * 32768 <= 32768;
    }
  }

  /** Codes of a length are all below the longer codes. */
  lemma {:induction false} FirstGrows(sizes: Sizes, l: nat, m: nat)
    requires 1 <= l < m
    ensures First(sizes, m) >= (First(sizes, l) + Count(sizes, l)) * Pow2(m - l)
  {
    hide CountIn;
    var a := First(sizes, l) + Count(sizes, l);
    if l + 1 < m {
      FirstGrows(sizes, l, m - 1);
      MulTwice(a, Pow2(m - 1 - l));
    } else {
      assert Pow2(1) == 2;
    }
  }

  lemma LevelFits(sizes: Sizes, l: nat)
    requires 1 <= l <= MAX_BITS && First(sizes, 16) <= 65536
    ensures First(sizes, l) + Count(sizes, l) <= Pow2(l)
  {
    hide CountIn, Count, First, Pow2;
    var a := First(sizes, l) + Count(sizes, l);
    FirstGrows(sizes, l, 16);
    Pow2Add(l, 16 - l);
    Pow2Values();
    MulCancel(a, Pow2(l), Pow2(16 - l));
  }

  lemma MulCancel(a: nat, b: nat, p: nat)
    requires p > 0 && a * p <= b * p
    ensures a <= b
  {
  }

  /** Every code fits its length. */
  lemma CodeFits(sizes: Sizes, s: nat)
    requires Used(sizes, s) && First(sizes, 16) <= 65536
    ensures Code(sizes, s) < Pow2(sizes[s])
  {
    LevelFits(sizes, sizes[s]);
    CountOfSymbol(sizes, s);
  }

  // ---------------------------------------------------------------- prefix-freeness

  lemma {:induction false} ShrAtLeast(c: nat, a: nat, k: nat)
    ensures c >= a * Pow2(k) <==> Shr(c, k) >= a
  {
    if k > 0 {
      assert a * Pow2(k) == 2 * (a * Pow2(k - 1));
      ShrAtLeast(c / 2, a, k - 1);
    }
  }

  /** No code is a prefix of another symbol's code. */
  lemma PrefixFree(sizes: Sizes, s: nat, t: nat)
    requires Used(sizes, s) && Used(sizes, t) && s != t && sizes[s] <= sizes[t]
    ensures Shr(Code(sizes, t), sizes[t] - sizes[s]) != Code(sizes, s)
  {
    var l, m := sizes[s], sizes[t];
    if l == m {
      if s < t {
        CountInMonotone(sizes, s + 1, t, l);
      } else {
        CountInMonotone(sizes, t + 1, s, l);
      }
    } else {
      FirstGrows(sizes, l, m);
      CountOfSymbol(sizes, s);
      ShrAtLeast(Code(sizes, t), First(sizes, l) + Count(sizes, l), m - l);
    }
  }

  /** A buffer starts with the code of at most one symbol. */
  lemma SpellsOne(x: nat, sizes: Sizes, s: nat, t: nat)
    requires Spells(x, sizes, s) && Spells(x, sizes, t)
    ensures s == t
  {
    if s != t {
      if sizes[s] <= sizes[t] {
        TopPrefix(x, sizes[s], sizes[t] - sizes[s]);
        PrefixFree(sizes, s, t);
      } else {
        TopPrefix(x, sizes[t], sizes[s] - sizes[t]);
        PrefixFree(sizes, t, s);
      }
    }
  }

  // ---------------------------------------------------------------- proper prefixes of codes

  /** `t`, read as `d` bits, is a proper prefix of the code of `s`. */
  ghost predicate PrefixOf(sizes: Sizes, s: nat, d: nat, t: nat) {
    Used(sizes, s) && d < sizes[s] && Shr(Code(sizes, s), sizes[s] - d) == t
  }

  ghost predicate IsPrefix(sizes: Sizes, d: nat, t: nat) {
    exists s: nat :: PrefixOf(sizes, s, d, t)
  }

  /** A code is no proper prefix of another code. */
  lemma CodeIsNoPrefix(sizes: Sizes, s: nat)
    requires Used(sizes, s)
    ensures !IsPrefix(sizes, sizes[s], Code(sizes, s))
  {
    if IsPrefix(sizes, sizes[s], Code(sizes, s)) {
      var t: nat :| PrefixOf(sizes, t, sizes[s], Code(sizes, s));
      PrefixFree(sizes, s, t);
    }
  }

  /** Nor does a code pass through one: a shorter code is no prefix of the prefix. */
  lemma PrefixPassesNoCode(sizes: Sizes, s: nat, x: nat, d: nat)
    requires Used(sizes, s) && sizes[s] <= d && IsPrefix(sizes, d, Top(x, d))
    ensures !Spells(x, sizes, s)
  {
    if Spells(x, sizes, s) {
      var t: nat :| PrefixOf(sizes, t, d, Top(x, d));
      TopPrefix(x, sizes[s], d - sizes[s]);
      ShrShr(Code(sizes, t), sizes[t] - d, d - sizes[s]);
      PrefixFree(sizes, s, t);
    }
  }

  /** What a spelled code's shorter beginnings are. */
  lemma SpellsPrefix(x: nat, sizes: Sizes, s: nat, d: nat)
    requires Spells(x, sizes, s) && d < sizes[s]
    ensures PrefixOf(sizes, s, d, Top(x, d)) && IsPrefix(sizes, d, Top(x, d))
  {
    TopPrefix(x, d, sizes[s] - d);
    assert PrefixOf(sizes, s, d, Top(x, d));
  }

  // ---------------------------------------------------------------- how many proper prefixes there are

  /** The prefixes of `d` bits that no code of up to `d` bits uses up. */
  ghost function Open(sizes: Sizes, d: nat): int {
    Pow2(d) - (First(sizes, d) + Count(sizes, d))
  }

  ghost function OpenPrefixes(sizes: Sizes, d: nat): set<(nat, nat)> {
    set t: nat | First(sizes, d) + Count(sizes, d) <= t < Pow2(d) :: (d, t)
  }

  ghost function OpenFrom(sizes: Sizes, d: nat): set<(nat, nat)>
    decreases 15 - d
  {
    if d >= 15 then {} else OpenPrefixes(sizes, d) + OpenFrom(sizes, d + 1)
  }

  lemma {:induction false} RangeSize(d: nat, a: nat, b: nat)
    requires a <= b
    ensures var r := (set t: nat | a <= t < b :: (d, t)); |r| == b - a
    decreases b
  {
    var r := set t: nat | a <= t < b :: (d, t);
    if a < b {
      RangeSize(d, a, b - 1);
      var r' := set t: nat | a <= t < b - 1 :: (d, t);
      assert r == r' + {(d, b - 1)};
    } else {
      assert r == {};
    }
  }

  lemma PrefixIsOpen(sizes: Sizes, d: nat, t: nat)
    requires 1 <= d && IsPrefix(sizes, d, t) && First(sizes, 16) <= 65536
    ensures First(sizes, d) + Count(sizes, d) <= t < Pow2(d)
  {
    hide Pow2, First, CountIn, Shr;
    var s: nat :| PrefixOf(sizes, s, d, t);
    var m, c := sizes[s], Code(sizes, s);
    FirstGrows(sizes, d, m);
    ShrAtLeast(c, First(sizes, d) + Count(sizes, d), m - d);
    CodeFits(sizes, s);
    Pow2Add(d, m - d);
    ShrAtLeast(c, Pow2(d), m - d);
  }

  lemma OpenSplit(sizes: Sizes, d: nat)
    requires 1 <= d < 15 && Open(sizes, d) >= 0
    ensures |OpenFrom(sizes, d)| == Open(sizes, d) + |OpenFrom(sizes, d + 1)|
  {
    hide First, Count, Pow2;
    RangeSize(d, First(sizes, d) + Count(sizes, d), Pow2(d));
    OpenDeeper(sizes, d + 1);
    assert OpenPrefixes(sizes, d) !! OpenFrom(sizes, d + 1);
  }

  lemma OpenNext(sizes: Sizes, d: nat)
    requires 1 <= d
    ensures Open(sizes, d + 1) == 2 * Open(sizes, d) - Count(sizes, d + 1)
  {
    hide Count;
  }

  lemma UsedNext(sizes: Sizes, d: nat)
    requires 1 <= d
    ensures UsedBelow(sizes, d + 1) == UsedBelow(sizes, d) + Count(sizes, d)
  {
  }

  lemma NoneOpenAtTheEnd(sizes: Sizes)
    requires First(sizes, 16) == 65536
    ensures Open(sizes, 15) == 0 && OpenFrom(sizes, 15) == {}
  {
    hide Count, UsedBelow;
    Pow2Values();
  }

  /** A full code has at most as many open prefixes from some length on as it has longer codes. */
  lemma {:induction false} OpenCount(sizes: Sizes, d: nat)
    requires 1 <= d <= 15 && First(sizes, 16) == 65536
    ensures |OpenFrom(sizes, d)| + Open(sizes, d) == UsedBelow(sizes, 16) - UsedBelow(sizes, d + 1)
    decreases 15 - d
  {
    hide Open, OpenFrom, UsedBelow, First, Count, Pow2;
    if d < 15 {
      OpenCount(sizes, d + 1);
      OpenNotNegative(sizes, d);
      OpenSplit(sizes, d);
      OpenNext(sizes, d);
      UsedNext(sizes, d + 1);
    } else {
      NoneOpenAtTheEnd(sizes);
    }
  }

  lemma OpenNotNegative(sizes: Sizes, d: nat)
    requires 1 <= d <= 15 && First(sizes, 16) == 65536
    ensures Open(sizes, d) >= 0
  {
    LevelFits(sizes, d);
  }

  lemma {:induction false} OpenDeeper(sizes: Sizes, d: nat)
    requires d <= 15
    ensures forall k :: k in OpenFrom(sizes, d) ==> k.0 >= d
    decreases 15 - d
  {
    if d < 15 {
      OpenDeeper(sizes, d + 1);
    }
  }

  lemma {:induction false} OpenContains(sizes: Sizes, d: nat, k: (nat, nat))
    requires d <= k.0 < 15 && First(sizes, k.0) + Count(sizes, k.0) <= k.1 < Pow2(k.0)
    ensures k in OpenFrom(sizes, d)
    decreases 15 - d
  {
    if d < k.0 {
      OpenContains(sizes, d + 1, k);
    }
  }

  lemma SubsetSize<T>(a: set<T>, b: set<T>)
    requires a <= b
    ensures |a| <= |b|
  {
    assert b == a + (b - a);
  }

  lemma FullCodePrefixesFit(sizes: Sizes, keys: set<(nat, nat)>)
    requires First(sizes, 16) == 65536
    requires forall k :: k in keys ==> 10 <= k.0 < 15 && IsPrefix(sizes, k.0, k.1)
    ensures |keys| <= |sizes|
  {
    hide First, Count, OpenFrom, IsPrefix;
    forall k | k in keys ensures k in OpenFrom(sizes, 10) {
      PrefixIsOpen(sizes, k.0, k.1);
      OpenContains(sizes, 10, k);
    }
    SubsetSize(keys, OpenFrom(sizes, 10));
    OpenCount(sizes, 10);
    LevelFits(sizes, 10);
    UsedInAll(sizes, 16);
    UsedAtMost(sizes, |sizes|, 16);
  }

  function BeginningOf(c: nat, m: nat, d: nat): (nat, nat) {
    (d, if d <= m then Shr(c, m - d) else 0)
  }

  lemma SingleCodePrefixesFit(sizes: Sizes, keys: set<(nat, nat)>)
    requires UsedBelow(sizes, 16) <= 1
    requires forall k :: k in keys ==> 10 <= k.0 < 15 && IsPrefix(sizes, k.0, k.1)
    ensures |keys| <= 5
  {
    hide UsedBelow, Code;
    if keys != {} {
      var k0 :| k0 in keys;
      var s: nat :| PrefixOf(sizes, s, k0.0, k0.1);
      var c, m := Code(sizes, s), sizes[s];
      var five := {BeginningOf(c, m, 10), BeginningOf(c, m, 11), BeginningOf(c, m, 12),
                   BeginningOf(c, m, 13), BeginningOf(c, m, 14)};
      forall k | k in keys ensures k in five {
        var t: nat :| PrefixOf(sizes, t, k.0, k.1);
        OnlyOneUsed(sizes, s, t);
        assert k == BeginningOf(c, m, k.0);
      }
      hide Shr;
      SubsetSize(keys, five);
    }
  }

  /** Distinct proper prefixes of ten or more bits are no more than a table of 288 symbols has room for. */
  lemma PrefixesFit(sizes: Sizes, keys: set<(nat, nat)>)
    requires Accepted(sizes) && |sizes| <= MAX_SYMBOLS
    requires forall k :: k in keys ==> 10 <= k.0 < 15 && IsPrefix(sizes, k.0, k.1)
    ensures |keys| <= MAX_SYMBOLS
  {
    if First(sizes, 16) == 65536 {
      FullCodePrefixesFit(sizes, keys);
    } else {
      SingleCodePrefixesFit(sizes, keys);
    }
  }

  lemma OnlyOneUsed(sizes: Sizes, s: nat, t: nat)
    requires UsedBelow(sizes, 16) <= 1 && Used(sizes, s) && Used(sizes, t)
    ensures s == t
  {
    if s != t {
      var a, b := if s < t then s else t, if s < t then t else s;
      UsedInAll(sizes, 16);
      UsedInMonotone(sizes, 0, a, 16);
      UsedInOneMore(sizes, a + 1, 16);
      UsedInMonotone(sizes, a + 1, b, 16);
      UsedInOneMore(sizes, b + 1, 16);
      UsedInMonotone(sizes, b + 1, |sizes|, 16);
    }
  }

  lemma {:induction false} UsedInMonotone(sizes: Sizes, m: nat, n: nat, len: nat)
    requires m <= n <= |sizes|
    ensures UsedIn(sizes, m, len) <= UsedIn(sizes, n, len)
  {
    if m < n {
      UsedInMonotone(sizes, m, n - 1, len);
      UsedInOneMore(sizes, n, len);
    }
  }
}
