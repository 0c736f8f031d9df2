/** `tdefl_optimize_huffman_table` of `src/miniz.c`: from symbol counts to code lengths and codes. */
module HuffmanOptimizer {
  import opened Bits
  import opened Sequences
  import opened CodeCost
  import opened MergeTree
  import opened MinimumRedundancy
  import opened RadixSort
  import opened CodeLimiter
  import opened HuffmanCode
  import opened HuffmanEncoder
  import opened HuffmanDecoder

  // ---------------------------------------------------------------- the symbols that occur

  /** The symbols of the first `n` that occur, in symbol order. */
  function Present(counts: seq<nat>, n: nat): (r: seq<SymFreq>)
    requires n <= |counts|
    ensures |r| <= n
    ensures forall i :: 0 <= i < |r| ==> r[i].sym < n && r[i].key == counts[r[i].sym] > 0
    ensures forall i, j :: 0 <= i < j < |r| ==> r[i].sym < r[j].sym
  {
    if n == 0 then []
    else Present(counts, n - 1) + if counts[n - 1] > 0 then [SymFreq(counts[n - 1], n - 1)] else []
  }

  lemma {:induction false} PresentHas(counts: seq<nat>, n: nat, s: nat)
    requires s < n <= |counts| && counts[s] > 0
    ensures SymFreq(counts[s], s) in Present(counts, n)
  {
    if s < n - 1 {
      PresentHas(counts, n - 1, s);
    }
  }

  function Keys(t: seq<SymFreq>): (r: seq<nat>)
    ensures |r| == |t| && forall i :: 0 <= i < |t| ==> r[i] == t[i].key
  {
    seq(|t|, i requires 0 <= i < |t| => t[i].key)
  }

  lemma PresentNext(counts: seq<nat>, n: nat)
    requires n <= |counts|
    ensures n == 0 ==> Keys(Present(counts, n)) == []
    ensures n > 0 ==> Keys(Present(counts, n)) == Keys(Present(counts, n - 1)) + if counts[n - 1] > 0 then [counts[n - 1]] else []
  {
  }

  lemma {:induction false} PresentSum(counts: seq<nat>, n: nat)
    requires n <= |counts|
    ensures Sum(Keys(Present(counts, n))) == Sum(counts[..n])
  {
    hide Keys, Present, Sum;
    PresentNext(counts, n);
    if n > 0 {
      PresentSum(counts, n - 1);
      assert counts[..n] == counts[..n - 1] + [counts[n - 1]];
      SumConcat(counts[..n - 1], [counts[n - 1]]);
      SumOne(counts[n - 1]);
      if counts[n - 1] > 0 {
        SumConcat(Keys(Present(counts, n - 1)), [counts[n - 1]]);
      } else {
        assert Keys(Present(counts, n - 1)) + [] == Keys(Present(counts, n - 1));
      }
    } else {
      assert counts[..0] == [];
    }
  }

  // ---------------------------------------------------------------- what sorting keeps

  lemma {:induction false} SumWithout(t: seq<SymFreq>, i: nat)
    requires i < |t|
    ensures Sum(Keys(Without(t, i))) + t[i].key == Sum(Keys(t))
  {
    assert Keys(t)[1..] == Keys(t[1..]);
    if i == 0 {
      assert Without(t, 0) == t[1..];
    } else {
      SumWithout(t[1..], i - 1);
      assert Without(t, i) == [t[0]] + Without(t[1..], i - 1);
      assert Keys(Without(t, i))[1..] == Keys(Without(t[1..], i - 1));
    }
  }

  lemma {:induction false} SumOfPermutation(s: seq<SymFreq>, t: seq<SymFreq>)
    requires multiset(s) == multiset(t)
    ensures Sum(Keys(s)) == Sum(Keys(t)) && |s| == |t|
  {
    hide Sum, Keys;
    assert |multiset(s)| == |s| && |multiset(t)| == |t|;
    if s == [] {
      assert s == t;
    } else {
      assert s[0] in multiset(t);
      var i :| 0 <= i < |t| && t[i] == s[0];
      MultisetWithout(s, 0);
      MultisetWithout(t, i);
      SumWithout(s, 0);
      SumWithout(t, i);
      SumOfPermutation(Without(s, 0), Without(t, i));
    }
  }

  /** Each symbol that occurs is in the list once, with its count. */
  ghost predicate Lists(t: seq<SymFreq>, counts: seq<nat>) {
    && (forall i :: 0 <= i < |t| ==> t[i].sym < |counts| && t[i].key == counts[t[i].sym] > 0)
    && (forall i, j :: 0 <= i < j < |t| ==> t[i].sym != t[j].sym)
    && (forall s: nat :: s < |counts| && counts[s] > 0 ==> SymFreq(counts[s], s) in t)
  }

  lemma MemberOfPermutation(s: seq<SymFreq>, t: seq<SymFreq>, x: SymFreq)
    requires multiset(s) == multiset(t) && x in s
    ensures x in t
  {
    assert x in multiset(s);
  }

  lemma PermutedEntry(counts: seq<nat>, t: seq<SymFreq>, i: nat)
    requires multiset(t) == multiset(Present(counts, |counts|)) && i < |t|
    ensures t[i].sym < |counts| && t[i].key == counts[t[i].sym] > 0
  {
    var s := Present(counts, |counts|);
    MemberOfPermutation(t, s, t[i]);
    var k :| 0 <= k < |s| && s[k] == t[i];
  }

  lemma PermutedEntries(counts: seq<nat>, t: seq<SymFreq>, i: nat, j: nat)
    requires multiset(t) == multiset(Present(counts, |counts|)) && i < j < |t|
    ensures t[i].sym != t[j].sym
  {
    hide Present;
    PermutedEntry(counts, t, i);
    PermutedEntry(counts, t, j);
    DistinctInPermutation(t, Present(counts, |counts|), i, j);
  }

  lemma PermutedHas(counts: seq<nat>, t: seq<SymFreq>, x: nat)
    requires multiset(t) == multiset(Present(counts, |counts|)) && x < |counts| && counts[x] > 0
    ensures SymFreq(counts[x], x) in t
  {
    hide Present;
    PresentHas(counts, |counts|, x);
    MemberOfPermutation(Present(counts, |counts|), t, SymFreq(counts[x], x));
  }

  lemma PermutationLists(counts: seq<nat>, t: seq<SymFreq>)
    requires multiset(t) == multiset(Present(counts, |counts|))
    ensures Lists(t, counts) && |t| <= |counts|
  {
    hide Sum, Keys, Present;
    SumOfPermutation(t, Present(counts, |counts|));
    forall i | 0 <= i < |t| ensures t[i].sym < |counts| && t[i].key == counts[t[i].sym] > 0 {
      PermutedEntry(counts, t, i);
    }
    forall i, j | 0 <= i < j < |t| ensures t[i].sym != t[j].sym {
      PermutedEntries(counts, t, i, j);
    }
    forall x: nat | x < |counts| && counts[x] > 0 ensures SymFreq(counts[x], x) in t {
      PermutedHas(counts, t, x);
    }
  }

  lemma {:induction false} Twice(t: seq<SymFreq>, i: nat, j: nat)
    requires i < j < |t| && t[i] == t[j]
    ensures multiset(t)[t[i]] >= 2
  {
    assert t == t[..j] + [t[j]] + t[j + 1..];
    assert t[i] in t[..j];
    assert t[i] in multiset(t[..j]);
  }

  lemma {:induction false} Once(s: seq<SymFreq>, x: SymFreq)
    requires forall i, j :: 0 <= i < j < |s| ==> s[i].sym < s[j].sym
    ensures multiset(s)[x] <= 1
  {
    if s != [] {
      var t := s[..|s| - 1];
      Once(t, x);
      assert s == t + [s[|s| - 1]];
      if x in multiset(t) { assert x in t; }
    }
  }

  lemma DistinctInPermutation(t: seq<SymFreq>, s: seq<SymFreq>, i: nat, j: nat)
    requires multiset(t) == multiset(s) && i < j < |t|
    requires forall i, j :: 0 <= i < j < |s| ==> s[i].sym < s[j].sym
    ensures t[i] != t[j]
  {
    Once(s, t[i]);
    if t[i] == t[j] {
      Twice(t, i, j);
    }
  }

  // ---------------------------------------------------------------- counting the lengths

  lemma {:induction false} OneMoreCode(num: seq<int>, len: nat, k: nat)
    requires len < |num| && k < |num|
    ensures var r := num[len := num[len] + 1];
            && Space(r, k) == Space(num, k) + (if 1 <= len <= k then Pow2(k - len) else 0)
            && Number(r, k) == Number(num, k) + (if 1 <= len <= k then 1 else 0)
  {
    if k > 0 { OneMoreCode(num, len, k - 1); }
  }

  /** How many of the first `n` codes have up to `len` bits. */
  ghost function ShortIn(l: seq<nat>, n: nat, len: nat): nat
    requires n <= |l|
  {
    if n == 0 then 0 else ShortIn(l, n - 1, len) + if l[n - 1] <= len then 1 else 0
  }

  /** The counts of the lengths `l[..n]`. */
  ghost predicate Counts(num: seq<int>, l: seq<nat>, n: nat)
    requires n <= |l| && AtMost(l, LONGEST)
  {
    && |num| == LONGEST + 1 && NonNegative(num)
    && Space(num, LONGEST) == Kraft(l[..n], LONGEST)
    && forall k: nat :: k <= LONGEST ==> Number(num, k) == ShortIn(l, n, k)
  }

  lemma CountsNext(num: seq<int>, l: seq<nat>, n: nat)
    requires n < |l| && AtMost(l, LONGEST) && l[n] >= 1 && Counts(num, l, n)
    ensures Counts(num[l[n] := num[l[n]] + 1], l, n + 1)
  {
    hide Kraft, Pow2;
    var r := num[l[n] := num[l[n]] + 1];
    OneMoreCode(num, l[n], LONGEST);
    assert l[..n + 1] == l[..n] + [l[n]];
    KraftAppend(l[..n], l[n], LONGEST);
    forall k: nat | k <= LONGEST ensures Number(r, k) == ShortIn(l, n + 1, k) {
      OneMoreCode(num, l[n], k);
    }
  }

  lemma {:induction false} NoCodes(num: seq<int>, k: nat)
    requires k < |num| && forall i :: 0 <= i < |num| ==> num[i] == 0
    ensures Space(num, k) == 0 && Number(num, k) == 0
  {
    if k > 0 { NoCodes(num, k - 1); }
  }

  lemma {:induction false} AllShort(l: seq<nat>, n: nat, len: nat)
    requires n <= |l| && forall i :: 0 <= i < n ==> l[i] <= len
    ensures ShortIn(l, n, len) == n
  {
    if n > 0 {
      AllShort(l, n - 1, len);
    }
  }

  /** Line 1887. */
  method CountLengths(l: array<nat>) returns (num: array<int>)
    requires AtMost(l[..], LONGEST) && forall i :: 0 <= i < l.Length ==> l[i] >= 1
    ensures fresh(num) && num.Length == LONGEST + 1 && Counts(num[..], l[..], l.Length)
  {
    hide Counts;
    ghost var s := l[..];
    num := new int[LONGEST + 1](_ => 0);
    NothingCounted(num[..], s);
    for i := 0 to l.Length
      invariant num.Length == LONGEST + 1 && Counts(num[..], s, i)
    {
      ghost var was := num[..];
      CountsNext(was, s, i);
      num[l[i]] := num[l[i]] + 1;
      assert num[..] == was[s[i] := was[s[i]] + 1];
    }
  }

  lemma NothingCounted(num: seq<int>, l: seq<nat>)
    requires |num| == LONGEST + 1 && (forall i :: 0 <= i < |num| ==> num[i] == 0) && AtMost(l, LONGEST)
    ensures Counts(num, l, 0)
  {
    assert l[..0] == [];
    forall k: nat | k <= LONGEST ensures Number(num, k) == 0 && Space(num, k) == 0 {
      NoCodes(num, k);
    }
  }

  // ---------------------------------------------------------------- handing the lengths out

  /** The length of the symbol with `q` heavier ones: the shortest length that is not used up by those. */
  ghost function LengthOf(num: seq<int>, i: nat, q: nat): (len: nat)
    requires i < |num|
    ensures len <= i
  {
    if i > 0 && q < Number(num, i - 1) then LengthOf(num, i - 1, q) else i
  }

  lemma {:induction false} LengthOfIs(num: seq<int>, i: nat, q: nat, len: nat)
    requires 1 <= len <= i < |num| && NonNegative(num) && Number(num, len - 1) <= q < Number(num, len)
    ensures LengthOf(num, i, q) == len
  {
    if len < i {
      NumberGrows(num, len, i - 1);
      LengthOfIs(num, i - 1, q, len);
    }
  }

  lemma {:induction false} LengthOfRange(num: seq<int>, i: nat, q: nat)
    requires i < |num| && NonNegative(num) && q < Number(num, i)
    ensures var len := LengthOf(num, i, q); 1 <= len <= i && Number(num, len - 1) <= q < Number(num, len)
  {
    if i > 0 && q < Number(num, i - 1) {
      LengthOfRange(num, i - 1, q);
    }
  }

  /** Heavier symbols do not get longer codes. */
  lemma LengthOfGrows(num: seq<int>, i: nat, q: nat, r: nat)
    requires i < |num| && NonNegative(num) && q <= r < Number(num, i)
    ensures LengthOf(num, i, q) <= LengthOf(num, i, r)
  {
    LengthOfRange(num, i, q);
    LengthOfRange(num, i, r);
    var short, long: nat := LengthOf(num, i, r), LengthOf(num, i, q) - 1;
    if short <= long {
      NumberGrows(num, short, long);
    }
  }

  lemma {:induction false} CountSet(sizes: Sizes, s: nat, x: nat, n: nat, len: nat)
    requires s < |sizes| && n <= |sizes| && sizes[s] == 0 && 1 <= x <= MAX_BITS && len >= 1
    ensures CountIn(sizes[s := x], n, len) == CountIn(sizes, n, len) + if s < n && len == x then 1 else 0
  {
    if n > 0 { CountSet(sizes, s, x, n - 1, len); }
  }

  lemma {:induction false} CountZeros(sizes: Sizes, n: nat, len: nat)
    requires n <= |sizes| && len >= 1 && forall i :: 0 <= i < |sizes| ==> sizes[i] == 0
    ensures CountIn(sizes, n, len) == 0
  {
    if n > 0 { CountZeros(sizes, n - 1, len); }
  }

  /** The symbols from position `j` on have their lengths, the others have none. */
  ghost predicate HandedOut(sizes: seq<nat>, t: seq<SymFreq>, num: seq<int>, limit: nat, j: nat)
    requires limit < |num|
  {
    && (forall p :: 0 <= p < |t| ==> t[p].sym < |sizes|)
    && (forall p :: j <= p < |t| ==> sizes[t[p].sym] == LengthOf(num, limit, |t| - 1 - p))
    && (forall s :: 0 <= s < |sizes| && sizes[s] != 0 ==> exists p :: j <= p < |t| && t[p].sym == s)
  }

  lemma HandedOutNext(sizes: seq<nat>, t: seq<SymFreq>, num: seq<int>, limit: nat, j: nat, x: nat)
    requires limit < |num| && 0 < j <= |t| && HandedOut(sizes, t, num, limit, j)
    requires forall p, q :: 0 <= p < q < |t| ==> t[p].sym != t[q].sym
    requires x == LengthOf(num, limit, |t| - j)
    ensures sizes[t[j - 1].sym] == 0
    ensures HandedOut(sizes[t[j - 1].sym := x], t, num, limit, j - 1)
  {
    hide LengthOf;
    var r := sizes[t[j - 1].sym := x];
    forall s | 0 <= s < |r| && r[s] != 0 ensures exists p :: j - 1 <= p < |t| && t[p].sym == s {
      if s == t[j - 1].sym {
        assert j - 1 <= j - 1 < |t| && t[j - 1].sym == s;
      } else {
        var p :| j <= p < |t| && t[p].sym == s;
      }
    }
  }

  /** Lines 1891 to 1893: the shortest lengths go to the most frequent symbols. */
  method AssignSizes(num: seq<int>, t: seq<SymFreq>, limit: nat, tableLen: nat) returns (sizes: array<nat>)
    requires 1 <= limit <= MAX_BITS && |num| == LONGEST + 1 && NonNegative(num) && Number(num, limit) == |t|
    requires forall p :: 0 <= p < |t| ==> t[p].sym < tableLen
    requires forall p, q :: 0 <= p < q < |t| ==> t[p].sym != t[q].sym
    ensures fresh(sizes) && sizes.Length == tableLen && HandedOut(sizes[..], t, num, limit, 0)
    ensures forall s :: 0 <= s < tableLen ==> sizes[s] <= limit
    ensures forall len: nat :: 1 <= len <= limit ==> Count(sizes[..], len) == num[len]
  {
    hide LengthOf, Number, Count, HandedOut;
    sizes := new nat[tableLen](_ => 0);
    NoSizes(sizes[..], t, num, limit);
    var i: nat, j: nat := 1, |t|;
    while i <= limit
      invariant 1 <= i <= limit + 1 && 0 <= j <= |t|
      invariant j == |t| - Number(num, i - 1)
      invariant HandedOut(sizes[..], t, num, limit, j)
      invariant forall s :: 0 <= s < tableLen ==> sizes[s] <= limit
      invariant forall len: nat :: 1 <= len <= limit ==> Count(sizes[..], len) == if len < i then num[len] else 0
    {
      var l := num[i];
      NumberStep(num, i, limit);
      while l > 0
        invariant 0 <= l <= num[i] && 0 <= j <= |t|
        invariant j == |t| - Number(num, i - 1) - (num[i] - l)
        invariant HandedOut(sizes[..], t, num, limit, j)
        invariant forall s :: 0 <= s < tableLen ==> sizes[s] <= limit
        invariant forall len: nat :: 1 <= len <= limit ==> Count(sizes[..], len) == if len < i then num[len] else if len == i then num[i] - l else 0
      {
        ghost var was := sizes[..];
        LengthOfIs(num, limit, |t| - j, i);
        HandedOutNext(was, t, num, limit, j, i);
        SetCounts(was, t[j - 1].sym, i);
        ghost var became := was[t[j - 1].sym := i];
        j := j - 1;
        sizes[t[j].sym] := i;
        assert sizes[..] == became;
        forall len: nat | 1 <= len <= limit ensures Count(sizes[..], len) == if len < i then num[len] else if len == i then num[i] - (l - 1) else 0 {
          assert Count(became, len) == Count(was, len) + if len == i then 1 else 0;
          assert Count(was, len) == if len < i then num[len] else if len == i then num[i] - l else 0;
        }
        l := l - 1;
      }
      i := i + 1;
    }
  }

  lemma NoSizes(sizes: seq<nat>, t: seq<SymFreq>, num: seq<int>, limit: nat)
    requires forall i :: 0 <= i < |sizes| ==> sizes[i] == 0
    requires limit < |num| && forall p :: 0 <= p < |t| ==> t[p].sym < |sizes|
    ensures HandedOut(sizes, t, num, limit, |t|) && Number(num, 0) == 0
    ensures forall len: nat :: 1 <= len ==> Count(sizes, len) == 0
  {
    forall len: nat | 1 <= len ensures Count(sizes, len) == 0 {
      CountZeros(sizes, |sizes|, len);
    }
  }

  lemma NumberStep(num: seq<int>, i: nat, limit: nat)
    requires 1 <= i <= limit < |num| && NonNegative(num)
    ensures 0 <= Number(num, i - 1) && Number(num, i) == Number(num, i - 1) + num[i] <= Number(num, limit)
  {
    NumberGrows(num, i - 1, i);
    NumberGrows(num, i, limit);
  }

  lemma SetCounts(sizes: seq<nat>, s: nat, x: nat)
    requires (forall i :: 0 <= i < |sizes| ==> sizes[i] <= MAX_BITS) && s < |sizes| && sizes[s] == 0 && 1 <= x <= MAX_BITS
    ensures forall len: nat :: 1 <= len ==> Count(sizes[s := x], len) == Count(sizes, len) + if len == x then 1 else 0
  {
    forall len: nat | 1 <= len ensures Count(sizes[s := x], len) == Count(sizes, len) + if len == x then 1 else 0 {
      CountSet(sizes, s, x, |sizes|, len);
    }
  }

  // ---------------------------------------------------------------- a full table

  lemma {:induction false} FirstIsSpace(sizes: Sizes, num: seq<int>, limit: nat, k: nat)
    requires k <= limit < |num|
    requires forall len: nat :: 1 <= len <= limit ==> Count(sizes, len) == num[len]
    ensures First(sizes, k + 1) == 2 * Space(num, k) && UsedBelow(sizes, k + 1) == Number(num, k)
  {
    hide CountIn;
    if k > 0 { FirstIsSpace(sizes, num, limit, k - 1); }
  }

  lemma {:induction false} NoneLonger(sizes: Sizes, n: nat, limit: nat, len: nat)
    requires n <= |sizes| && limit < len && forall i :: 0 <= i < |sizes| ==> sizes[i] <= limit
    ensures CountIn(sizes, n, len) == 0
  {
    if n > 0 { NoneLonger(sizes, n - 1, limit, len); }
  }

  lemma {:induction false} NothingAbove(sizes: Sizes, limit: nat, k: nat)
    requires limit <= k && forall i :: 0 <= i < |sizes| ==> sizes[i] <= limit
    ensures UsedBelow(sizes, k + 1) == UsedBelow(sizes, limit + 1)
    ensures First(sizes, limit + 1) == 2 * Pow2(limit) ==> First(sizes, k + 1) == 2 * Pow2(k)
  {
    hide CountIn;
    if limit < k {
      NothingAbove(sizes, limit, k - 1);
      NoneLonger(sizes, |sizes|, limit, k);
    }
  }

  lemma FullTable(sizes: Sizes, num: seq<int>, limit: nat, used: nat)
    requires 1 <= limit <= MAX_BITS && |num| == LONGEST + 1 && forall i :: 0 <= i < |sizes| ==> sizes[i] <= limit
    requires forall len: nat :: 1 <= len <= limit ==> Count(sizes, len) == num[len]
    requires Number(num, limit) == used && (used >= 2 ==> Space(num, limit) == Pow2(limit))
    ensures if used >= 2 then First(sizes, 16) == 65536 else UsedBelow(sizes, 16) <= 1
  {
    hide Space, Number, First, UsedBelow, Pow2;
    FirstIsSpace(sizes, num, limit, limit);
    NothingAbove(sizes, limit, 15);
    Pow2Values();
  }

  // ---------------------------------------------------------------- the lengths before the limit

  /** In a descending list the codes of up to `k` bits come last. */
  lemma {:induction false} ShortAtTheEnd(l: seq<nat>, n: nat, p: nat, k: nat)
    requires p < n <= |l| && Descending(l)
    ensures l[p] <= k ==> ShortIn(l, n, k) >= n - p
    ensures l[p] > k ==> ShortIn(l, n, k) <= n - p - 1
  {
    if p < n - 1 {
      ShortAtTheEnd(l, n - 1, p, k);
    } else if l[p] > k {
      NoneShort(l, n, k);
    }
  }

  lemma {:induction false} NoneShort(l: seq<nat>, n: nat, k: nat)
    requires n <= |l| && forall i :: 0 <= i < n ==> l[i] > k
    ensures ShortIn(l, n, k) == 0
  {
    if n > 0 { NoneShort(l, n - 1, k); }
  }

  lemma SameLengths(num: seq<int>, l: seq<nat>, limit: nat, p: nat)
    requires AtMost(l, LONGEST) && Counts(num, l, |l|) && Descending(l)
    requires 1 <= limit <= LONGEST && p < |l| && 1 <= l[p] <= limit
    ensures LengthOf(num, limit, |l| - 1 - p) == l[p]
  {
    ShortAtTheEnd(l, |l|, p, l[p]);
    ShortAtTheEnd(l, |l|, p, l[p] - 1);
    LengthOfIs(num, limit, |l| - 1 - p, l[p]);
  }

  // ---------------------------------------------------------------- the whole function

  /** What the lengths are for: symbols that occur have a code within the limit, more frequent ones no
      longer code, and the inflater accepts the table. */
  ghost predicate FitsCounts(sizes: seq<nat>, counts: seq<nat>, limit: nat)
    requires limit <= MAX_BITS
  {
    && |sizes| == |counts|
    && (forall s :: 0 <= s < |sizes| ==> sizes[s] <= limit && (sizes[s] > 0 <==> counts[s] > 0))
    && (forall a, b :: 0 <= a < |counts| && 0 <= b < |counts| && counts[a] > counts[b] > 0 ==> sizes[a] <= sizes[b])
    && Standard(sizes)
  }

  /** If no length of a cheapest code exceeds the limit, the symbols have exactly those lengths. */
  ghost predicate CheapestIfWithin(sizes: seq<nat>, counts: seq<nat>, limit: nat, order: seq<SymFreq>, best: seq<nat>) {
    && Lists(order, counts) && |best| == |order| && |sizes| == |counts|
    && (|order| >= 2 ==> IsMinimal(Keys(order), best))
    && (|order| >= 2 && AtMost(best, limit) ==> forall p :: 0 <= p < |order| ==> sizes[order[p].sym] == best[p])
  }

  /** The lengths are cheapest, if the cheapest ones are within the limit. */
  ghost predicate IsCheapest(sizes: seq<nat>, counts: seq<nat>, limit: nat) {
    exists order: seq<SymFreq>, best: seq<nat> :: CheapestIfWithin(sizes, counts, limit, order, best)
  }

  lemma HandedOutFits(sizes: seq<nat>, t: seq<SymFreq>, num: seq<int>, counts: seq<nat>, limit: nat)
    requires limit <= MAX_BITS < |num| && NonNegative(num) && Number(num, limit) == |t|
    requires Lists(t, counts) && Sorted(t) && |sizes| == |counts| && HandedOut(sizes, t, num, limit, 0)
    requires (forall s :: 0 <= s < |sizes| ==> sizes[s] <= limit) && Standard(sizes)
    ensures FitsCounts(sizes, counts, limit)
  {
    hide Standard, LengthOf, Number;
    forall s: nat | s < |sizes| ensures sizes[s] > 0 <==> counts[s] > 0 {
      if counts[s] > 0 {
        var p := PositionOf(t, counts, s);
        LengthOfRange(num, limit, |t| - 1 - p);
      }
    }
    forall a: nat, b: nat | a < |counts| && b < |counts| && counts[a] > counts[b] > 0 ensures sizes[a] <= sizes[b] {
      var p := PositionOf(t, counts, a);
      var q := PositionOf(t, counts, b);
      assert q <= p by { SortedApart(t, p, q); }
      LengthOfGrows(num, limit, |t| - 1 - p, |t| - 1 - q);
    }
  }

  lemma SortedApart(t: seq<SymFreq>, p: nat, q: nat)
    requires Sorted(t) && p < |t| && q < |t| && t[q].key < t[p].key
    ensures q < p
  {
  }

  lemma PositionOf(t: seq<SymFreq>, counts: seq<nat>, s: nat) returns (p: nat)
    requires Lists(t, counts) && s < |counts| && counts[s] > 0
    ensures p < |t| && t[p] == SymFreq(counts[s], s)
  {
    p :| p < |t| && t[p] == SymFreq(counts[s], s);
  }

  lemma SortedKeys(t: seq<SymFreq>, counts: seq<nat>)
    requires Sorted(t) && Lists(t, counts)
    ensures Ascending(Keys(t)) && Positive(Keys(t))
  {
  }

  /** The symbols that occur (line 1883). */
  method UsedSymbols(counts: seq<nat>) returns (used: seq<SymFreq>)
    ensures used == Present(counts, |counts|)
  {
    used := [];
    for i := 0 to |counts|
      invariant used == Present(counts, i)
    {
      if counts[i] != 0 { used := used + [SymFreq(counts[i], i)]; }
    }
  }

  lemma PresentFits(counts: seq<nat>)
    requires forall i :: 0 <= i < |counts| ==> counts[i] < 65536
    ensures SixteenBit(Present(counts, |counts|))
  {
  }

  /** The frequencies in ascending order, with the symbols they belong to (lines 1880 to 1885). */
  method SortedSymbols(counts: seq<nat>) returns (t: seq<SymFreq>)
    requires forall i :: 0 <= i < |counts| ==> counts[i] < 65536
    ensures Lists(t, counts) && Sorted(t) && |t| <= |counts| && Sum(Keys(t)) == Sum(counts)
  {
    hide Lists, Sum, Keys, Sorted, WithKey, Present;
    var used := UsedSymbols(counts);
    PresentFits(counts);
    var syms0 := new SymFreq[|used|](i requires 0 <= i < |used| => used[i]);
    var syms1 := new SymFreq[|used|](_ => SymFreq(0, 0));
    assert syms0[..] == used;
    var sorted := RadixSortSyms(syms0, syms1);
    t := sorted[..];
    PermutationLists(counts, t);
    SumOfPermutation(t, used);
    PresentSum(counts, |counts|);
    assert counts[..|counts|] == counts;
  }

  /** The lengths that `CalculateMinimumRedundancy` leaves for these frequencies. */
  ghost predicate Redundancy(t: seq<SymFreq>, best: seq<nat>) {
    && |best| == |t| && AtMost(best, LONGEST) && Descending(best)
    && (forall i :: 0 <= i < |best| ==> best[i] >= 1)
    && (|t| == 1 ==> best[0] == 1)
    && (|t| >= 2 ==> IsMinimal(Keys(t), best))
  }

  method CodeLengths(t: seq<SymFreq>, ghost counts: seq<nat>) returns (lengths: array<nat>)
    requires Sorted(t) && Lists(t, counts) && Sum(Keys(t)) <= 65535
    ensures fresh(lengths) && Redundancy(t, lengths[..])
  {
    hide Sorted, Lists, Sum, Ascending, Positive, CostsAtLeast, Cost, Kraft;
    lengths := new nat[|t|](i requires 0 <= i < |t| => t[i].key);
    assert lengths[..] == Keys(t);
    SortedKeys(t, counts);
    CalculateMinimumRedundancy(lengths);
  }

  lemma CountsAreFull(t: seq<SymFreq>, best: seq<nat>, num: seq<int>, limit: nat)
    requires Redundancy(t, best) && Counts(num, best, |best|) && 1 <= limit <= LONGEST
    ensures NonNegative(num) && Number(num, LONGEST) == |t|
    ensures |t| >= 2 ==> Space(num, LONGEST) == Pow2(LONGEST)
    ensures |t| <= 1 || AtMost(best, limit) ==> Number(num, limit) == |t|
  {
    AllShort(best, |best|, LONGEST);
    if |t| <= 1 || AtMost(best, limit) {
      AllShort(best, |best|, limit);
    }
    assert best[..|best|] == best;
  }

  lemma BestIsKept(sizes: seq<nat>, t: seq<SymFreq>, counts: seq<nat>, best: seq<nat>, num: seq<int>, limit: nat)
    requires |sizes| == |counts| && Lists(t, counts) && Redundancy(t, best) && 1 <= limit <= LONGEST
    requires Counts(num, best, |best|) && AtMost(best, limit) && HandedOut(sizes, t, num, limit, 0)
    ensures forall p :: 0 <= p < |t| ==> sizes[t[p].sym] == best[p]
  {
    hide IsMinimal, LengthOf, Counts;
    forall p | 0 <= p < |t| ensures sizes[t[p].sym] == best[p] {
      SameLengths(num, best, limit, p);
    }
  }

  /** A single symbol has a code of one bit. */
  lemma OneBit(sizes: seq<nat>, t: seq<SymFreq>, best: seq<nat>, num: seq<int>, limit: nat)
    requires |t| <= 1 && limit < |num| && Redundancy(t, best) && HandedOut(sizes, t, num, limit, 0)
    requires forall p :: 0 <= p < |t| ==> sizes[t[p].sym] == best[p]
    ensures forall s :: 0 <= s < |sizes| ==> sizes[s] <= 1
  {
    hide IsMinimal, LengthOf;
  }

  /** The lengths and the codes of one table, from the counts of its symbols (lines 1871 to 1904 without
      the branch for static tables). */
  method OptimizeTable(counts: seq<nat>, limit: nat)
      returns (sizes: seq<nat>, codes: seq<nat>, ghost order: seq<SymFreq>, ghost best: seq<nat>)
    requires 1 <= limit <= MAX_BITS && |counts| <= Pow2(limit)
    requires (forall i :: 0 <= i < |counts| ==> counts[i] < 65536) && Sum(counts) <= 65535
    ensures FitsCounts(sizes, counts, limit) && CheapestIfWithin(sizes, counts, limit, order, best)
    ensures |codes| == |sizes| && forall s :: 0 <= s < |sizes| ==> codes[s] == if sizes[s] == 0 then 0 else CodeWord(sizes, s)
  {
    hide Lists, Sum, Sorted, IsMinimal, Counts, Pow2, Space, Number, HandedOut, CountIn, First, UsedBelow, Code, NonNegative;
    var t := SortedSymbols(counts);
    var lengths := CodeLengths(t, counts);
    order, best := t, lengths[..];
    var num := CountLengths(lengths);
    ghost var full := num[..];
    CountsAreFull(t, best, full, limit);
    EnforceMaxCodeSize(num, |t|, limit);
    ListedSymbols(t, counts);
    var handed := AssignSizes(num[..], t, limit, |counts|);
    sizes := handed[..];
    FullTable(sizes, num[..], limit, |t|);
    if AtMost(best, limit) {
      BestIsKept(sizes, t, counts, best, full, limit);
    }
    if |t| <= 1 {
      OneBit(sizes, t, best, num[..], limit);
    }
    HandedOutFits(sizes, t, num[..], counts, limit);
    var numCodes := LimitCounts(num, limit, sizes);
    codes := AssignCodes(sizes, numCodes, limit);
  }

  lemma ListedSymbols(t: seq<SymFreq>, counts: seq<nat>)
    requires Lists(t, counts)
    ensures forall p :: 0 <= p < |t| ==> t[p].sym < |counts|
    ensures forall p, q :: 0 <= p < q < |t| ==> t[p].sym != t[q].sym
  {
  }

  /** `num_codes` as natural numbers. */
  method LimitCounts(num: array<int>, limit: nat, ghost sizes: Sizes) returns (r: seq<nat>)
    requires num.Length == LONGEST + 1 && NonNegative(num[..]) && limit <= MAX_BITS
    requires forall len: nat :: 1 <= len <= limit ==> Count(sizes, len) == num[len]
    ensures |r| == 33 && forall len :: 1 <= len <= limit ==> r[len] == Count(sizes, len)
  {
    hide Count;
    var s := num[..];
    r := seq(33, i requires 0 <= i < 33 && NonNegative(s) && |s| == 33 => s[i]);
  }

  /** Counting symbols, choosing their codes, writing them and decoding them gives the symbols back. */
  method CompressAndInflate(symbols: seq<nat>, counts: seq<nat>) returns (decoded: seq<nat>)
    requires |counts| <= MAX_SYMBOLS && (forall i :: 0 <= i < |counts| ==> counts[i] < 65536) && Sum(counts) <= 65535
    requires forall i :: 0 <= i < |symbols| ==> symbols[i] < |counts| && counts[symbols[i]] > 0
    ensures decoded == symbols
  {
    hide Sum, First, UsedBelow, Lists, IsMinimal;
    Pow2Values();
    var sizes, codes, _, _ := OptimizeTable(counts, MAX_BITS);
    decoded := RoundTrip(sizes, codes, symbols);
  }
}
