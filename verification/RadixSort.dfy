/** `tdefl_radix_sort_syms` of `src/miniz.c`: a least-significant-digit radix sort of symbols by their
    16-bit frequency, in two passes over bytes, the second of which is skipped when it would do nothing. */
module RadixSort {

  datatype SymFreq = SymFreq(key: nat, sym: nat)

  ghost predicate SixteenBit(s: seq<SymFreq>) {
    forall i :: 0 <= i < |s| ==> s[i].key < 65536
  }

  ghost predicate Sorted(s: seq<SymFreq>) {
    forall i, j :: 0 <= i <= j < |s| ==> s[i].key <= s[j].key
  }

  /** The symbols of one frequency, in order. */
  ghost function WithKey(s: seq<SymFreq>, k: nat): seq<SymFreq> {
    if s == [] then []
    else
      var rest := WithKey(s[..|s| - 1], k);
      if s[|s| - 1].key == k then rest + [s[|s| - 1]] else rest
  }

  /** The same symbols in ascending order; those of equal frequency keep their order. */
  ghost predicate IsStableSort(s: seq<SymFreq>, r: seq<SymFreq>) {
    Sorted(r) && multiset(r) == multiset(s) && forall k: nat :: WithKey(r, k) == WithKey(s, k)
  }

  // ---------------------------------------------------------------- one pass, as a function

  function Digit(x: SymFreq, pass: nat): (d: nat)
    ensures d < 256
  {
    if pass == 0 then x.key % 256 else x.key / 256 % 256
  }

  ghost function Bucket(s: seq<SymFreq>, pass: nat, d: nat): (r: seq<SymFreq>)
    ensures forall i :: 0 <= i < |r| ==> Digit(r[i], pass) == d
  {
    if s == [] then []
    else
      var rest := Bucket(s[..|s| - 1], pass, d);
      if Digit(s[|s| - 1], pass) == d then rest + [s[|s| - 1]] else rest
  }

  /** The first `n` buckets, one after the other. */
  ghost function Buckets(s: seq<SymFreq>, pass: nat, n: nat): (r: seq<SymFreq>)
  {
    if n == 0 then [] else Buckets(s, pass, n - 1) + Bucket(s, pass, n - 1)
  }

  function Tally(s: seq<SymFreq>, pass: nat, d: nat): nat {
    if s == [] then 0 else Tally(s[..|s| - 1], pass, d) + if Digit(s[|s| - 1], pass) == d then 1 else 0
  }

  lemma {:induction false} BucketSize(s: seq<SymFreq>, pass: nat, d: nat)
    ensures |Bucket(s, pass, d)| == Tally(s, pass, d)
  {
    if s != [] { BucketSize(s[..|s| - 1], pass, d); }
  }

  // ---------------------------------------------------------------- a pass permutes

  lemma {:induction false} TallyConcat(a: seq<SymFreq>, b: seq<SymFreq>, pass: nat, d: nat)
    ensures Tally(a + b, pass, d) == Tally(a, pass, d) + Tally(b, pass, d)
  {
    if b == [] {
      assert a + b == a;
    } else {
      assert (a + b)[..|a + b| - 1] == a + b[..|b| - 1];
      TallyConcat(a, b[..|b| - 1], pass, d);
    }
  }

  lemma BucketOneMore(s: seq<SymFreq>, x: SymFreq, pass: nat, d: nat)
    ensures Bucket(s + [x], pass, d) == Bucket(s, pass, d) + if Digit(x, pass) == d then [x] else []
  {
    hide Digit;
    assert (s + [x])[..|s + [x]| - 1] == s;
  }

  lemma BucketsNext(s: seq<SymFreq>, pass: nat, n: nat)
    ensures Buckets(s, pass, 0) == [] && Buckets(s, pass, n + 1) == Buckets(s, pass, n) + Bucket(s, pass, n)
  {
  }

  ghost function Only(x: SymFreq, yes: bool): multiset<SymFreq> {
    if yes then multiset{x} else multiset{}
  }

  lemma OnlyOnce(x: SymFreq, a: bool, b: bool)
    requires !(a && b)
    ensures Only(x, a) + multiset(if b then [x] else []) == Only(x, a || b)
  {
  }

  lemma MoreInBucket(before: seq<SymFreq>, after: seq<SymFreq>, more: seq<SymFreq>, all: seq<SymFreq>, b: seq<SymFreq>,
                     x: SymFreq, a: bool, here: bool)
    requires more == before + (b + if here then [x] else []) && all == after + b && !(a && here)
    requires multiset(before) == multiset(after) + Only(x, a)
    ensures multiset(more) == multiset(all) + Only(x, a || here)
  {
    hide Only;
    var e := if here then [x] else [];
    OnlyOnce(x, a, here);
    assert multiset(more) == multiset(before) + (multiset(b) + multiset(e));
    assert multiset(all) == multiset(after) + multiset(b);
  }

  lemma {:induction false} BucketsOneMore(s: seq<SymFreq>, x: SymFreq, pass: nat, n: nat)
    ensures multiset(Buckets(s + [x], pass, n)) == multiset(Buckets(s, pass, n)) + Only(x, Digit(x, pass) < n)
  {
    hide Digit, Bucket, Buckets, Only;
    if n == 0 {
      BucketsNext(s, pass, 0);
      BucketsNext(s + [x], pass, 0);
      NotOnly(x);
    } else {
      var d := Digit(x, pass);
      BucketsOneMore(s, x, pass, n - 1);
      BucketOneMore(s, x, pass, n - 1);
      BucketsNext(s, pass, n - 1);
      BucketsNext(s + [x], pass, n - 1);
      MoreInBucket(Buckets(s + [x], pass, n - 1), Buckets(s, pass, n - 1), Buckets(s + [x], pass, n), Buckets(s, pass, n),
                   Bucket(s, pass, n - 1), x, d < n - 1, d == n - 1);
    }
  }

  lemma NotOnly(x: SymFreq)
    ensures Only(x, false) == multiset{}
  {
  }

  lemma TallyOfFew(x: SymFreq, p: nat, d: nat)
    ensures Tally([], p, d) == 0 && Tally([x], p, d) == if Digit(x, p) == d then 1 else 0
  {
    assert [x][..0] == [];
  }

  lemma {:induction false} TallyOneMore(s: seq<SymFreq>, x: SymFreq, pass: nat, n: nat, p: nat, d: nat)
    ensures Tally(Buckets(s + [x], pass, n), p, d)
         == Tally(Buckets(s, pass, n), p, d) + if Digit(x, pass) < n && Digit(x, p) == d then 1 else 0
  {
    hide Digit, Bucket, Buckets, Tally;
    if n == 0 {
      BucketsNext(s, pass, 0);
      BucketsNext(s + [x], pass, 0);
    } else {
      TallyOneMore(s, x, pass, n - 1, p, d);
      BucketOneMore(s, x, pass, n - 1);
      BucketsNext(s, pass, n - 1);
      BucketsNext(s + [x], pass, n - 1);
      var b, e := Bucket(s, pass, n - 1), if Digit(x, pass) == n - 1 then [x] else [];
      TallyConcat(Buckets(s + [x], pass, n - 1), b + e, p, d);
      TallyConcat(Buckets(s, pass, n - 1), b, p, d);
      TallyConcat(b, e, p, d);
      TallyOfFew(x, p, d);
    }
  }

  lemma {:induction false} NoBuckets(pass: nat, n: nat)
    ensures Buckets([], pass, n) == []
  {
    if n > 0 { NoBuckets(pass, n - 1); }
  }

  lemma {:induction false} PassPermutes(s: seq<SymFreq>, pass: nat)
    ensures multiset(Buckets(s, pass, 256)) == multiset(s)
  {
    if s == [] {
      NoBuckets(pass, 256);
    } else {
      var t := s[..|s| - 1];
      assert s == t + [s[|s| - 1]];
      PassPermutes(t, pass);
      BucketsOneMore(t, s[|s| - 1], pass, 256);
    }
  }

  /** The histogram of the other byte, taken before the pass, stays right. */
  lemma {:induction false} PassKeepsTally(s: seq<SymFreq>, pass: nat, p: nat, d: nat)
    ensures Tally(Buckets(s, pass, 256), p, d) == Tally(s, p, d)
  {
    if s == [] {
      NoBuckets(pass, 256);
    } else {
      var t := s[..|s| - 1];
      assert s == t + [s[|s| - 1]];
      PassKeepsTally(t, pass, p, d);
      TallyOneMore(t, s[|s| - 1], pass, 256, p, d);
    }
  }

  // ---------------------------------------------------------------- a pass is stable

  lemma {:induction false} WithKeyConcat(a: seq<SymFreq>, b: seq<SymFreq>, k: nat)
    ensures WithKey(a + b, k) == WithKey(a, k) + WithKey(b, k)
  {
    if b == [] {
      assert a + b == a;
    } else {
      assert (a + b)[..|a + b| - 1] == a + b[..|b| - 1];
      WithKeyConcat(a, b[..|b| - 1], k);
    }
  }

  lemma {:induction false} BucketKeepsKey(s: seq<SymFreq>, pass: nat, d: nat, k: nat)
    ensures WithKey(Bucket(s, pass, d), k) == if Digit(SymFreq(k, 0), pass) == d then WithKey(s, k) else []
  {
    if s != [] {
      var t := s[..|s| - 1];
      BucketKeepsKey(t, pass, d, k);
      WithKeyConcat(Bucket(t, pass, d), [s[|s| - 1]], k);
      assert [s[|s| - 1]][..0] == [];
      assert WithKey([s[|s| - 1]], k) == if s[|s| - 1].key == k then [s[|s| - 1]] else [];
    }
  }

  lemma {:induction false} BucketsKeepKey(s: seq<SymFreq>, pass: nat, n: nat, k: nat)
    ensures WithKey(Buckets(s, pass, n), k) == if Digit(SymFreq(k, 0), pass) < n then WithKey(s, k) else []
  {
    hide Digit, Bucket;
    if n > 0 {
      BucketsKeepKey(s, pass, n - 1, k);
      BucketKeepsKey(s, pass, n - 1, k);
      WithKeyConcat(Buckets(s, pass, n - 1), Bucket(s, pass, n - 1), k);
    }
  }

  lemma PassIsStable(s: seq<SymFreq>, pass: nat)
    ensures forall k: nat :: WithKey(Buckets(s, pass, 256), k) == WithKey(s, k)
  {
    forall k: nat ensures WithKey(Buckets(s, pass, 256), k) == WithKey(s, k) {
      BucketsKeepKey(s, pass, 256, k);
    }
  }

  // ---------------------------------------------------------------- the passes sort

  /** Ascending in the digits of the passes done: none, the low byte, or both. */
  ghost predicate SortedBy(s: seq<SymFreq>, passes: nat) {
    forall i, j :: 0 <= i <= j < |s| ==> Rank(s[i], passes) <= Rank(s[j], passes)
  }

  function Rank(x: SymFreq, passes: nat): nat {
    if passes == 0 then 0 else if passes == 1 then x.key % 256 else x.key % 65536
  }

  lemma TwoDigits(k: nat)
    ensures k % 65536 == k / 256 % 256 * 256 + k % 256
  {
    var q := k / 256;
    var low, middle, high := k % 256, q % 256, q / 256;
    assert k == 65536 * high + (256 * middle + low);
    SplitIs(k, high, 256 * middle + low);
  }

  lemma SplitIs(k: nat, high: nat, rest: nat)
    requires k == 65536 * high + rest && rest < 65536
    ensures k % 65536 == rest
  {
  }

  lemma RankStep(x: SymFreq, y: SymFreq, pass: nat)
    requires pass < 2
    requires Digit(x, pass) < Digit(y, pass) || (Digit(x, pass) == Digit(y, pass) && Rank(x, pass) <= Rank(y, pass))
    ensures Rank(x, pass + 1) <= Rank(y, pass + 1)
  {
    TwoDigits(x.key);
    TwoDigits(y.key);
  }

  /** A bucket is a part of the sequence in its order. */
  lemma {:induction false} BucketSorted(s: seq<SymFreq>, pass: nat, d: nat, passes: nat)
    requires SortedBy(s, passes)
    ensures SortedBy(Bucket(s, pass, d), passes)
    ensures forall i :: 0 <= i < |Bucket(s, pass, d)| ==> s != [] && Rank(Bucket(s, pass, d)[i], passes) <= Rank(s[|s| - 1], passes)
  {
    hide Rank, Digit;
    if s != [] {
      var t := s[..|s| - 1];
      BucketSorted(t, pass, d, passes);
    }
  }

  lemma {:induction false} BucketsSorted(s: seq<SymFreq>, pass: nat, n: nat)
    requires pass < 2 && SortedBy(s, pass)
    ensures SortedBy(Buckets(s, pass, n), pass + 1)
    ensures forall i :: 0 <= i < |Buckets(s, pass, n)| ==> Digit(Buckets(s, pass, n)[i], pass) < n
  {
    hide Rank, Digit;
    if n > 0 {
      BucketsSorted(s, pass, n - 1);
      BucketSorted(s, pass, n - 1, pass);
      var a, b := Buckets(s, pass, n - 1), Bucket(s, pass, n - 1);
      var r := Buckets(s, pass, n);
      forall i, j | 0 <= i <= j < |r| ensures Rank(r[i], pass + 1) <= Rank(r[j], pass + 1) {
        if j >= |a| { RankStep(r[i], r[j], pass); }
      }
    }
  }

  /** No symbol has a high byte: the second pass would change nothing. */
  lemma {:induction false} AllInBucketZero(s: seq<SymFreq>, pass: nat, d: nat)
    ensures Tally(s, pass, d) <= |s|
    ensures Tally(s, pass, d) == |s| ==> forall i :: 0 <= i < |s| ==> Digit(s[i], pass) == d
  {
    if s != [] { AllInBucketZero(s[..|s| - 1], pass, d); }
  }

  // ---------------------------------------------------------------- the passes, in place

  /** How many symbols fall into the buckets before `d`. */
  ghost function Before(s: seq<SymFreq>, pass: nat, d: nat): nat {
    if d == 0 then 0 else Before(s, pass, d - 1) + Tally(s, pass, d - 1)
  }

  lemma {:induction false} BucketsSize(s: seq<SymFreq>, pass: nat, n: nat)
    ensures |Buckets(s, pass, n)| == Before(s, pass, n)
  {
    if n > 0 {
      BucketsSize(s, pass, n - 1);
      BucketSize(s, pass, n - 1);
    }
  }

  lemma {:induction false} BeforeMonotone(s: seq<SymFreq>, pass: nat, d: nat, e: nat)
    requires d <= e
    ensures Before(s, pass, d) <= Before(s, pass, e)
  {
    if d < e { BeforeMonotone(s, pass, d, e - 1); }
  }

  lemma BeforeAll(s: seq<SymFreq>, pass: nat)
    ensures Before(s, pass, 256) == |s|
  {
    BucketsSize(s, pass, 256);
    PassPermutes(s, pass);
    assert |multiset(Buckets(s, pass, 256))| == |multiset(s)|;
  }

  /** A pass under way: the first `i` symbols are in their buckets. */
  ghost predicate Placed(s: seq<SymFreq>, out: seq<SymFreq>, offsets: seq<nat>, pass: nat, i: nat)
    requires i <= |s| == |out| && |offsets| == 256
  {
    forall d: nat :: d < 256 ==> BucketPlaced(s, out, offsets, pass, i, d)
  }

  ghost predicate BucketPlaced(s: seq<SymFreq>, out: seq<SymFreq>, offsets: seq<nat>, pass: nat, i: nat, d: nat)
    requires i <= |s| == |out| && |offsets| == 256 && d < 256
  {
    && offsets[d] == Before(s, pass, d) + Tally(s[..i], pass, d) <= |out|
    && out[Before(s, pass, d)..offsets[d]] == Bucket(s[..i], pass, d)
  }

  lemma {:induction false} TallyGrows(s: seq<SymFreq>, i: nat, pass: nat, d: nat)
    requires i <= |s|
    ensures Tally(s[..i], pass, d) <= Tally(s, pass, d)
    decreases |s|
  {
    if i < |s| {
      TallyGrows(s[..|s| - 1], i, pass, d);
      assert s[..|s| - 1][..i] == s[..i];
    } else {
      assert s[..i] == s;
    }
  }

  /** There is room for the next symbol, before the next bucket. */
  lemma RoomInBucket(s: seq<SymFreq>, i: nat, pass: nat)
    requires i < |s|
    ensures var d := Digit(s[i], pass); Before(s, pass, d) + Tally(s[..i], pass, d) < Before(s, pass, d + 1) <= |s|
  {
    var d := Digit(s[i], pass);
    TallyGrows(s, i + 1, pass, d);
    assert s[..i + 1][..i] == s[..i];
    BeforeMonotone(s, pass, d + 1, 256);
    BeforeAll(s, pass);
  }

  lemma BucketPlacedNext(s: seq<SymFreq>, out: seq<SymFreq>, offsets: seq<nat>, pass: nat, i: nat, d: nat)
    requires i < |s| == |out| && |offsets| == 256 && d < 256 && BucketPlaced(s, out, offsets, pass, i, d)
    requires var e := Digit(s[i], pass); BucketPlaced(s, out, offsets, pass, i, e)
    ensures var e := Digit(s[i], pass);
            offsets[e] < |out| && BucketPlaced(s, out[offsets[e] := s[i]], offsets[e := offsets[e] + 1], pass, i + 1, d)
  {
    hide Digit;
    var e := Digit(s[i], pass);
    RoomInBucket(s, i, pass);
    assert s[..i + 1][..i] == s[..i];
    TallyGrows(s, i, pass, d);
    if d < e {
      BeforeMonotone(s, pass, d + 1, e);
    } else if e < d {
      BeforeMonotone(s, pass, e + 1, d);
    }
  }

  lemma PlacedNext(s: seq<SymFreq>, out: seq<SymFreq>, offsets: seq<nat>, pass: nat, i: nat)
    requires i < |s| == |out| && |offsets| == 256 && Placed(s, out, offsets, pass, i)
    ensures var e := Digit(s[i], pass);
            offsets[e] < |out| && Placed(s, out[offsets[e] := s[i]], offsets[e := offsets[e] + 1], pass, i + 1)
  {
    hide BucketPlaced, Digit;
    var e := Digit(s[i], pass);
    assert BucketPlaced(s, out, offsets, pass, i, e);
    BucketPlacedNext(s, out, offsets, pass, i, e);
    var out', offsets', n := out[offsets[e] := s[i]], offsets[e := offsets[e] + 1], i + 1;
    forall d: nat | d < 256 ensures BucketPlaced(s, out', offsets', pass, n, d) {
      BucketPlacedNext(s, out, offsets, pass, i, d);
    }
  }

  lemma NothingPlaced(s: seq<SymFreq>, out: seq<SymFreq>, offsets: seq<nat>, pass: nat)
    requires |s| == |out| && |offsets| == 256 && forall d :: 0 <= d < 256 ==> offsets[d] == Before(s, pass, d)
    ensures Placed(s, out, offsets, pass, 0)
  {
    forall d: nat | d < 256 ensures BucketPlaced(s, out, offsets, pass, 0, d) {
      BeforeMonotone(s, pass, d, 256);
      BeforeAll(s, pass);
    }
  }

  lemma {:induction false} BucketsPlaced(s: seq<SymFreq>, out: seq<SymFreq>, offsets: seq<nat>, pass: nat, n: nat)
    requires |s| == |out| && |offsets| == 256 && n <= 256 && Placed(s, out, offsets, pass, |s|)
    ensures Before(s, pass, n) <= |out| && out[..Before(s, pass, n)] == Buckets(s, pass, n)
  {
    BeforeMonotone(s, pass, n, 256);
    BeforeAll(s, pass);
    if n > 0 {
      BucketsPlaced(s, out, offsets, pass, n - 1);
      assert BucketPlaced(s, out, offsets, pass, |s|, n - 1);
      assert s[..|s|] == s;
    }
  }

  lemma AllPlaced(s: seq<SymFreq>, out: seq<SymFreq>, offsets: seq<nat>, pass: nat)
    requires |s| == |out| && |offsets| == 256 && Placed(s, out, offsets, pass, |s|)
    ensures out == Buckets(s, pass, 256)
  {
    BucketsPlaced(s, out, offsets, pass, 256);
    BeforeAll(s, pass);
    assert out[..|s|] == out;
  }

  /** The histogram of a byte starts at `256 * pass`. */
  ghost predicate Histogram(hist: seq<nat>, s: seq<SymFreq>) {
    |hist| == 512 && forall d: nat :: d < 256 ==> hist[d] == Tally(s, 0, d) && hist[256 + d] == Tally(s, 1, d)
  }

  /** Line 1822. */
  method CountDigits(syms: array<SymFreq>) returns (hist: array<nat>)
    requires SixteenBit(syms[..])
    ensures fresh(hist) && hist.Length == 512 && Histogram(hist[..], syms[..])
  {
    hide SixteenBit, Histogram, Tally;
    hist := new nat[512](_ => 0);
    ghost var s := syms[..];
    EmptyHistogram(hist[..], s[..0]);
    for i := 0 to syms.Length
      invariant Histogram(hist[..], s[..i])
    {
      var freq := syms[i].key;
      assert s[..i + 1] == s[..i] + [syms[i]];
      ghost var h := hist[..];
      HistogramNext(h, s[..i], syms[i]);
      hist[freq % 256] := hist[freq % 256] + 1;
      hist[256 + freq / 256 % 256] := hist[256 + freq / 256 % 256] + 1;
      assert hist[..] == CountedOnce(h, syms[i]);
    }
    assert s[..syms.Length] == s;
  }

  ghost function CountedOnce(hist: seq<nat>, x: SymFreq): (r: seq<nat>)
    requires |hist| == 512
    ensures |r| == 512
  {
    var lo, hi := x.key % 256, 256 + x.key / 256 % 256;
    var h := hist[lo := hist[lo] + 1];
    h[hi := h[hi] + 1]
  }

  lemma EmptyHistogram(hist: seq<nat>, s: seq<SymFreq>)
    requires |hist| == 512 && (forall i :: 0 <= i < 512 ==> hist[i] == 0) && s == []
    ensures Histogram(hist, s)
  {
  }

  lemma HistogramNext(hist: seq<nat>, s: seq<SymFreq>, x: SymFreq)
    requires Histogram(hist, s)
    ensures |hist| == 512 && Histogram(CountedOnce(hist, x), s + [x])
  {
    var r := CountedOnce(hist, x);
    forall d: nat | d < 256 ensures r[d] == Tally(s + [x], 0, d) && r[256 + d] == Tally(s + [x], 1, d) {
      TallyConcat(s, [x], 0, d);
      TallyConcat(s, [x], 1, d);
      assert [x][..0] == [] && hist[d] == Tally(s, 0, d);
    }
  }

  /** Line 1828: where each bucket starts. */
  method Offsets(hist: array<nat>, pass: nat, ghost s: seq<SymFreq>) returns (offsets: seq<nat>)
    requires hist.Length == 512 && Histogram(hist[..], s) && pass < 2
    ensures |offsets| == 256 && forall d :: 0 <= d < 256 ==> offsets[d] == Before(s, pass, d)
  {
    hide Histogram;
    offsets := seq(256, _ => 0);
    var curOfs := 0;
    for i := 0 to 256
      invariant |offsets| == 256 && curOfs == Before(s, pass, i)
      invariant forall d :: 0 <= d < i ==> offsets[d] == Before(s, pass, d)
    {
      offsets := offsets[i := curOfs];
      HistogramAt(hist[..], s, pass, i);
      assert hist[256 * pass + i] == hist[..][256 * pass + i];
      curOfs := curOfs + hist[256 * pass + i];
    }
  }

  lemma HistogramAt(hist: seq<nat>, s: seq<SymFreq>, pass: nat, d: nat)
    requires Histogram(hist, s) && pass < 2 && d < 256
    ensures hist[256 * pass + d] == Tally(s, pass, d)
  {
    assert hist[d] == Tally(s, 0, d) && hist[256 + d] == Tally(s, 1, d);
  }

  /** Lines 1826 to 1830: one counting pass from one array into the other. */
  method Pass(cur: array<SymFreq>, out: array<SymFreq>, hist: array<nat>, pass: nat)
    requires cur != out && cur.Length == out.Length && pass < 2
    requires hist.Length == 512 && Histogram(hist[..], cur[..])
    modifies out
    ensures out[..] == Buckets(cur[..], pass, 256)
  {
    hide Digit, Placed, Histogram;
    ghost var s := cur[..];
    var offsets := Offsets(hist, pass, s);
    NothingPlaced(s, out[..], offsets, pass);
    for i := 0 to cur.Length
      invariant |offsets| == 256 && Placed(s, out[..], offsets, pass, i) && cur[..] == s
    {
      var x := cur[i];
      var d := Digit(x, pass);
      PlacedNext(s, out[..], offsets, pass, i);
      ghost var before := out[..];
      out[offsets[d]] := x;
      assert out[..] == before[offsets[d] := x];
      offsets := offsets[d := offsets[d] + 1];
    }
    AllPlaced(s, out[..], offsets, pass);
  }

  lemma OneBucketIsEnough(s: seq<SymFreq>, t: seq<SymFreq>, hist: seq<nat>)
    requires SixteenBit(s) && Histogram(hist, s) && hist[256] == |s| && multiset(t) == multiset(s) && SortedBy(t, 1)
    ensures Sorted(t)
  {
    hide Digit, Tally;
    assert hist[256 + 0] == Tally(s, 1, 0);
    AllInBucketZero(s, 1, 0);
    forall i | 0 <= i < |t| ensures t[i].key < 256 {
      assert t[i] in multiset(s);
      var j :| 0 <= j < |s| && s[j] == t[i];
      HighByteZero(s[j]);
    }
  }

  lemma HighByteZero(x: SymFreq)
    requires Digit(x, 1) == 0 && x.key < 65536
    ensures x.key < 256
  {
  }

  lemma TwoPassesSort(s: seq<SymFreq>, t: seq<SymFreq>)
    requires SixteenBit(s) && multiset(t) == multiset(s) && SortedBy(t, 2)
    ensures Sorted(t)
  {
    forall i | 0 <= i < |t| ensures t[i].key < 65536 {
      assert t[i] in multiset(s);
    }
  }

  /** What the passes done so far have made of the symbols. */
  ghost predicate SortedSoFar(s: seq<SymFreq>, t: seq<SymFreq>, hist: seq<nat>, passes: nat) {
    && multiset(t) == multiset(s) && (forall k: nat :: WithKey(t, k) == WithKey(s, k))
    && SortedBy(t, passes) && Histogram(hist, t)
  }

  lemma PassSorts(s: seq<SymFreq>, t: seq<SymFreq>, hist: seq<nat>, pass: nat)
    requires pass < 2 && SortedSoFar(s, t, hist, pass)
    ensures SortedSoFar(s, Buckets(t, pass, 256), hist, pass + 1)
  {
    hide SortedBy, Buckets, Tally, WithKey;
    PassPermutes(t, pass);
    PassIsStable(t, pass);
    BucketsSorted(t, pass, 256);
    forall d: nat | d < 256 ensures hist[d] == Tally(Buckets(t, pass, 256), 0, d) && hist[256 + d] == Tally(Buckets(t, pass, 256), 1, d) {
      PassKeepsTally(t, pass, 0, d);
      PassKeepsTally(t, pass, 1, d);
    }
  }

  /** The symbols in ascending order of frequency, symbols of equal frequency in their old order; the
      result is in whichever of the two arrays the last pass wrote. */
  method RadixSortSyms(syms0: array<SymFreq>, syms1: array<SymFreq>) returns (sorted: array<SymFreq>)
    requires syms0 != syms1 && syms0.Length == syms1.Length && SixteenBit(syms0[..])
    modifies syms0, syms1
    ensures sorted == syms0 || sorted == syms1
    ensures IsStableSort(old(syms0[..]), sorted[..])
  {
    hide SortedBy, Buckets, SixteenBit, Sorted, WithKey, Tally;
    ghost var s := syms0[..];
    var hist := CountDigits(syms0);
    ghost var counted := hist[..];
    var totalPasses := 2;
    while totalPasses > 1 && syms0.Length == hist[(totalPasses - 1) * 256]
      invariant 1 <= totalPasses <= 2
      invariant totalPasses == 1 ==> hist[256] == |s|
    {
      totalPasses := totalPasses - 1;
    }
    var cur, new', pass := syms0, syms1, 0;
    NothingSorted(s, hist[..]);
    while pass < totalPasses
      invariant 0 <= pass <= totalPasses
      invariant (cur == syms0 && new' == syms1) || (cur == syms1 && new' == syms0)
      invariant hist[..] == counted
      invariant SortedSoFar(s, cur[..], hist[..], pass)
    {
      PassSorts(s, cur[..], hist[..], pass);
      Pass(cur, new', hist, pass);
      cur, new' := new', cur;
      pass := pass + 1;
    }
    if totalPasses == 1 {
      OneBucketIsEnough(s, cur[..], hist[..]);
    } else {
      TwoPassesSort(s, cur[..]);
    }
    return cur;
  }

  lemma NothingSorted(s: seq<SymFreq>, hist: seq<nat>)
    requires Histogram(hist, s)
    ensures SortedSoFar(s, s, hist, 0)
  {
  }
}
