/** The code with fixed lengths: `tdefl_start_static_block` of `src/miniz.c`, and the first lines of
    `tinfl_decompress` for such a block (section 3.2.6 of RFC 1951). */
module FixedCode {
  import opened Bits
  import opened HuffmanCode
  import opened HuffmanEncoder
  import opened DeflateBlock

  /** Lines 2003 to 2008, and 1499 to 1500. */
  function StaticLit(): (s: Sizes)
    ensures |s| == LIT_SYMBOLS && forall i :: 0 <= i < |s| ==> 7 <= s[i] <= 9
  {
    seq(LIT_SYMBOLS, i => if i <= 143 then 8 else if i <= 255 then 9 else if i <= 279 then 7 else 8)
  }

  function StaticDist(): (s: Sizes)
    ensures |s| == DIST_SYMBOLS && forall i :: 0 <= i < |s| ==> s[i] == 5
  {
    seq(DIST_SYMBOLS, _ => 5)
  }

  lemma {:induction false} CountStaticLit(n: nat, len: nat)
    requires n <= LIT_SYMBOLS
    ensures CountIn(StaticLit(), n, len)
         == if len == 7 then (if n <= 256 then 0 else if n <= 280 then n - 256 else 24)
            else if len == 8 then (if n <= 144 then n else if n <= 280 then 144 else n - 136)
            else if len == 9 then (if n <= 144 then 0 else if n <= 256 then n - 144 else 112)
            else 0
  {
    if n > 0 { CountStaticLit(n - 1, len); }
  }

  lemma {:induction false} CountStaticDist(n: nat, len: nat)
    requires n <= DIST_SYMBOLS
    ensures CountIn(StaticDist(), n, len) == if len == 5 then n else 0
  {
    if n > 0 { CountStaticDist(n - 1, len); }
  }

  lemma {:induction false} FirstLater(sizes: Sizes, k: nat, len: nat, first: nat)
    requires k <= len && k >= 1 && First(sizes, k) == first && forall m: nat :: m >= k ==> Count(sizes, m) == 0
    ensures First(sizes, len) == first * Pow2(len - k)
  {
    if k < len {
      FirstLater(sizes, k, len - 1, first);
      assert Count(sizes, len - 1) == 0;
      MulTwice(first, Pow2(len - 1 - k));
    }
  }

  /** The fixed codes are full. */
  lemma StaticAccepted()
    ensures First(StaticLit(), 16) == 65536 && First(StaticDist(), 16) == 65536
    ensures Accepted(StaticLit()) && Accepted(StaticDist())
  {
    hide UsedBelow, CountIn;
    StaticLitFull();
    StaticDistFull();
  }

  lemma StaticLitFull()
    ensures First(StaticLit(), 16) == 65536
  {
    hide CountIn, StaticLit;
    var s := StaticLit();
    forall m: nat ensures Count(s, m) == if m == 7 then 24 else if m == 8 then 152 else if m == 9 then 112 else 0 {
      CountStaticLit(LIT_SYMBOLS, m);
    }
    FirstNothing(s, 7);
    assert First(s, 8) == 48 && First(s, 9) == 400 && First(s, 10) == 1024;
    FirstLater(s, 10, 16, 1024);
    assert Pow2(6) == 64;
  }

  lemma StaticDistFull()
    ensures First(StaticDist(), 16) == 65536
  {
    hide CountIn, StaticDist;
    var s := StaticDist();
    forall m: nat ensures Count(s, m) == if m == 5 then 32 else 0 {
      CountStaticDist(DIST_SYMBOLS, m);
    }
    FirstNothing(s, 5);
    assert First(s, 6) == 64;
    FirstLater(s, 6, 16, 64);
    Pow2Values();
  }

  /** The codes of section 3.2.6 of RFC 1951. */
  lemma FixedCodes(s: nat)
    requires s < LIT_SYMBOLS
    ensures s <= 143 ==> StaticLit()[s] == 8 && Code(StaticLit(), s) == 0x30 + s
    ensures 144 <= s <= 255 ==> StaticLit()[s] == 9 && Code(StaticLit(), s) == 0x190 + (s - 144)
    ensures 256 <= s <= 279 ==> StaticLit()[s] == 7 && Code(StaticLit(), s) == s - 256
    ensures 280 <= s <= 287 ==> StaticLit()[s] == 8 && Code(StaticLit(), s) == 0xc0 + (s - 280)
    ensures s < DIST_SYMBOLS ==> StaticDist()[s] == 5 && Code(StaticDist(), s) == s
  {
    hide CountIn, First;
    CountStaticLit(s, StaticLit()[s]);
    StaticFirsts();
    if s < DIST_SYMBOLS { CountStaticDist(s, 5); }
  }

  lemma StaticFirsts()
    ensures First(StaticLit(), 7) == 0 && First(StaticLit(), 8) == 48 && First(StaticLit(), 9) == 400 && First(StaticDist(), 5) == 0
  {
    hide CountIn, StaticLit, StaticDist;
    var s, t := StaticLit(), StaticDist();
    forall m: nat ensures Count(s, m) == if m == 7 then 24 else if m == 8 then 152 else if m == 9 then 112 else 0 {
      CountStaticLit(LIT_SYMBOLS, m);
    }
    forall m: nat ensures Count(t, m) == if m == 5 then 32 else 0 {
      CountStaticDist(DIST_SYMBOLS, m);
    }
    FirstNothing(s, 7);
    FirstNothing(t, 5);
  }

  lemma {:induction false} FirstNothing(sizes: Sizes, len: nat)
    requires forall m: nat :: m < len ==> Count(sizes, m) == 0
    ensures First(sizes, len) == 0
  {
    if len > 1 {
      FirstNothing(sizes, len - 1);
      assert Count(sizes, len - 1) == 0;
    }
  }

  /** The branch of `tdefl_optimize_huffman_table` for given lengths (lines 1874 to 1877 and 1896 to 1903). */
  method StaticTable(sizes: Sizes) returns (codes: seq<nat>)
    ensures IsTable(sizes, codes, sizes)
  {
    hide CodeWord, CountIn;
    var numCodes: seq<nat> := seq(33, _ => 0);
    for i := 0 to |sizes|
      invariant |numCodes| == 33 && forall len :: 0 <= len <= MAX_BITS ==> numCodes[len] == CountIn(sizes, i, len)
    {
      CountNext(sizes, i);
      numCodes := numCodes[sizes[i] := numCodes[sizes[i]] + 1];
    }
    codes := AssignCodes(sizes, numCodes, MAX_BITS);
  }

  lemma CountNext(sizes: Sizes, i: nat)
    requires i < |sizes|
    ensures forall len :: CountIn(sizes, i + 1, len) == CountIn(sizes, i, len) + if sizes[i] == len then 1 else 0
  {
  }
}
