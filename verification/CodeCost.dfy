/** What a code-length vector costs, and what the cheapest one must cost at least: the yardstick for
    `tdefl_calculate_minimum_redundancy` of `src/miniz.c`. */
module CodeCost {
  import opened Bits
  import opened Sequences

  function Sum(s: seq<nat>): nat {
    if s == [] then 0 else s[0] + Sum(s[1..])
  }

  /** The bits needed when a symbol of weight `w[i]` has a code of `l[i]` bits. */
  function Cost(w: seq<nat>, l: seq<nat>): nat
    requires |w| == |l|
  {
    if w == [] then 0 else w[0] * l[0] + Cost(w[1..], l[1..])
  }

  ghost predicate AtMost(l: seq<nat>, m: nat) {
    forall i :: 0 <= i < |l| ==> l[i] <= m
  }

  /** The share of the code space that the lengths take, in units of `1 / Pow2(m)`. */
  ghost function Kraft(l: seq<nat>, m: nat): nat
    requires AtMost(l, m)
  {
    if l == [] then 0 else Pow2(m - l[0]) + Kraft(l[1..], m)
  }

  /** Code lengths of some prefix code. */
  ghost predicate Feasible(l: seq<nat>, m: nat) {
    AtMost(l, m) && Kraft(l, m) <= Pow2(m)
  }

  // ---------------------------------------------------------------- changing one length

  lemma {:induction false} CostUpdate(w: seq<nat>, l: seq<nat>, i: nat, x: nat)
    requires |w| == |l| && i < |l|
    ensures Cost(w, l[i := x]) + w[i] * l[i] == Cost(w, l) + w[i] * x
  {
    if i == 0 {
      assert l[i := x][1..] == l[1..];
    } else {
      assert l[i := x][1..] == l[1..][i - 1 := x];
      CostUpdate(w[1..], l[1..], i - 1, x);
    }
  }

  lemma {:induction false} KraftUpdate(l: seq<nat>, i: nat, x: nat, m: nat)
    requires i < |l| && AtMost(l, m) && x <= m
    ensures AtMost(l[i := x], m) && Kraft(l[i := x], m) + Pow2(m - l[i]) == Kraft(l, m) + Pow2(m - x)
  {
    if i == 0 {
      assert l[i := x][1..] == l[1..];
    } else {
      assert l[i := x][1..] == l[1..][i - 1 := x];
      KraftUpdate(l[1..], i - 1, x, m);
    }
  }

  lemma {:induction false} CostWithout(w: seq<nat>, l: seq<nat>, i: nat)
    requires |w| == |l| && i < |l|
    ensures Cost(Without(w, i), Without(l, i)) + w[i] * l[i] == Cost(w, l)
  {
    if i == 0 {
      assert Without(w, i) == w[1..] && Without(l, i) == l[1..];
    } else {
      assert Without(w, i)[1..] == Without(w[1..], i - 1) && Without(l, i)[1..] == Without(l[1..], i - 1);
      CostWithout(w[1..], l[1..], i - 1);
    }
  }

  lemma {:induction false} KraftWithout(l: seq<nat>, i: nat, m: nat)
    requires i < |l| && AtMost(l, m)
    ensures AtMost(Without(l, i), m) && Kraft(Without(l, i), m) + Pow2(m - l[i]) == Kraft(l, m)
  {
    if i == 0 {
      assert Without(l, i) == l[1..];
    } else {
      assert Without(l, i)[1..] == Without(l[1..], i - 1);
      KraftWithout(l[1..], i - 1, m);
    }
  }

  lemma {:induction false} CostAppend(w: seq<nat>, l: seq<nat>, a: nat, x: nat)
    requires |w| == |l|
    ensures Cost(w + [a], l + [x]) == Cost(w, l) + a * x
  {
    if w == [] {
      assert (w + [a])[1..] == [] && (l + [x])[1..] == [];
    } else {
      assert (w + [a])[1..] == w[1..] + [a] && (l + [x])[1..] == l[1..] + [x];
      CostAppend(w[1..], l[1..], a, x);
    }
  }

  lemma {:induction false} KraftAppend(l: seq<nat>, x: nat, m: nat)
    requires AtMost(l, m) && x <= m
    ensures AtMost(l + [x], m) && Kraft(l + [x], m) == Kraft(l, m) + Pow2(m - x)
  {
    if l == [] {
      assert (l + [x])[1..] == [];
    } else {
      assert (l + [x])[1..] == l[1..] + [x];
      KraftAppend(l[1..], x, m);
    }
  }

  // ---------------------------------------------------------------- exchanging lengths

  lemma Exchange(a: nat, b: nat, x: nat, y: nat)
    requires a <= b && x <= y
    ensures a * y + b * x <= a * x + b * y
  {
    var d, e := b - a, y - x;
    assert (a + d) * (x + e) == a * x + a * e + d * x + d * e;
    assert a * (x + e) == a * x + a * e;
    assert (a + d) * x == a * x + d * x;
  }

  function Swapped(l: seq<nat>, i: nat, j: nat): seq<nat>
    requires i < |l| && j < |l|
  {
    l[i := l[j]][j := l[i]]
  }

  /** Giving the longer of two codes to the lighter symbol costs no more and takes the same space. */
  lemma SwapIsNoWorse(w: seq<nat>, l: seq<nat>, i: nat, j: nat, m: nat)
    requires |w| == |l| && i < |l| && j < |l| && Feasible(l, m)
    requires w[i] <= w[j] && l[i] <= l[j]
    ensures Cost(w, Swapped(l, i, j)) <= Cost(w, l) && Feasible(Swapped(l, i, j), m)
  {
    hide Cost, Kraft, Pow2;
    var l1 := l[i := l[j]];
    CostUpdate(w, l, i, l[j]);
    CostUpdate(w, l1, j, l[i]);
    KraftUpdate(l, i, l[j], m);
    KraftUpdate(l1, j, l[i], m);
    Exchange(w[i], w[j], l[i], l[j]);
  }

  // ---------------------------------------------------------------- the two longest codes

  lemma {:induction false} LongestExists(l: seq<nat>, skip: nat) returns (t: nat)
    requires |l| >= 1 && (skip < |l| ==> |l| >= 2)
    ensures t < |l| && t != skip && forall i :: 0 <= i < |l| && i != skip ==> l[i] <= l[t]
  {
    t := if skip == 0 then 1 else 0;
    for k := 0 to |l|
      invariant t < |l| && t != skip
      invariant forall i :: 0 <= i < k && i != skip ==> l[i] <= l[t]
    {
      if k != skip && l[k] > l[t] { t := k; }
    }
  }

  /** The lengths at most `x` take a whole number of units of `1 / Pow2(x)`. */
  lemma {:induction false} KraftCoarse(l: seq<nat>, x: nat, m: nat)
    requires x <= m && AtMost(l, x)
    ensures AtMost(l, m) && Kraft(l, m) == Kraft(l, x) * Pow2(m - x)
  {
    if l != [] {
      KraftCoarse(l[1..], x, m);
      Pow2Add(x - l[0], m - x);
      var p := Pow2(m - x);
      assert (Pow2(x - l[0]) + Kraft(l[1..], x)) * p == Pow2(x - l[0]) * p + Kraft(l[1..], x) * p;
    }
  }

  lemma RoundUp(k: nat, p: nat, q: nat, extra: nat)
    requires k * p + extra <= q * p && extra > 0
    ensures k + 1 <= q
  {
    assert (q - k) * p > 0;
  }

  /** If one code is longer than all others, it can be made as short as the next longest. */
  lemma ShortenLongest(l: seq<nat>, i: nat, x: nat, m: nat)
    requires i < |l| && Feasible(l, m) && x <= l[i]
    requires forall t :: 0 <= t < |l| && t != i ==> l[t] <= x
    ensures Feasible(l[i := x], m)
  {
    hide Kraft, Pow2;
    var rest := Without(l, i);
    KraftWithout(l, i, m);
    assert AtMost(rest, x) by {
      assert forall t :: 0 <= t < |rest| ==> rest[t] == l[if t < i then t else t + 1];
    }
    KraftCoarse(rest, x, m);
    Pow2Add(x, m - x);
    RoundUp(Kraft(rest, x), Pow2(m - x), Pow2(x), Pow2(m - l[i]));
    assert Kraft(rest, x) + 1 <= Pow2(x);
    KraftUpdate(l, i, x, m);
    OneMoreUnit(Kraft(rest, x), Pow2(x), Pow2(m - x));
  }

  lemma OneMoreUnit(k: nat, q: nat, p: nat)
    requires k + 1 <= q
    ensures k * p + p <= q * p
  {
    assert (k + 1) * p == k * p + p;
  }

  // ---------------------------------------------------------------- the lower bound

  /** No prefix code for symbols of these weights costs less than `bound`. */
  ghost predicate CostsAtLeast(weights: multiset<nat>, bound: nat) {
    forall w: seq<nat>, l: seq<nat>, m: nat :: multiset(w) == weights && |w| == |l| && Feasible(l, m) ==> Cost(w, l) >= bound
  }

  /** The two weights replaced by their sum. */
  ghost function Merged(weights: multiset<nat>, a: nat, b: nat): multiset<nat> {
    var sum: nat := a + b;
    weights - multiset{a, b} + multiset{sum}
  }

  ghost predicate TwoSmallest(weights: multiset<nat>, a: nat, b: nat) {
    && a <= b && multiset{a, b} <= weights
    && forall x :: x in weights - multiset{a, b} ==> b <= x
  }

  lemma IndexOf(w: seq<nat>, x: nat) returns (i: nat)
    requires x in multiset(w)
    ensures i < |w| && w[i] == x
  {
    i :| i < |w| && w[i] == x;
  }

  /** Where an element of the shortened sequence was before. */
  function Before(i: nat, k: nat): nat { if k < i then k else k + 1 }

  lemma WithoutAt<T>(s: seq<T>, i: nat)
    requires i < |s|
    ensures forall k: nat :: k < |s| - 1 ==> Without(s, i)[k] == s[Before(i, k)]
    ensures forall t: nat :: t < |s| && t != i ==> s[t] in Without(s, i)
  {
    var v := Without(s, i);
    forall t: nat | t < |s| && t != i ensures s[t] in v {
      assert v[if t < i then t else t - 1] == s[t];
    }
  }

  lemma TwoIndices(w: seq<nat>, a: nat, b: nat) returns (i: nat, j: nat)
    requires TwoSmallest(multiset(w), a, b)
    ensures i < |w| && j < |w| && i != j && w[i] == a && w[j] == b && a <= b
    ensures forall t :: 0 <= t < |w| && t != i && t != j ==> b <= w[t]
  {
    hide Without;
    var pair: multiset<nat> := multiset{a, b};
    assert a in pair && b in pair - multiset{a};
    i := IndexOf(w, a);
    var v := Without(w, i);
    MultisetWithout(w, i);
    WithoutSize(w, i);
    WithoutAt(w, i);
    assert b in multiset(v);
    var k := IndexOf(v, b);
    j := Before(i, k);
    MultisetWithout(v, k);
    assert multiset(Without(v, k)) == multiset(w) - pair;
    RestIsHeavier(w, i, k, b);
  }

  lemma WithoutFrom(s: seq<nat>, i: nat, t: nat)
    requires i < |s| && t < |s| && t != i
    ensures var t' := if t < i then t else t - 1;
            t' < |Without(s, i)| == |s| - 1 && Without(s, i)[t'] == s[t]
  {
  }

  lemma RestIsHeavier(w: seq<nat>, i: nat, k: nat, b: nat)
    requires i < |w| && k < |w| - 1 == |Without(w, i)|
    requires forall x :: x in multiset(Without(Without(w, i), k)) ==> b <= x
    ensures forall t :: 0 <= t < |w| && t != i && t != Before(i, k) ==> b <= w[t]
  {
    hide Without;
    var v := Without(w, i);
    var u := Without(v, k);
    forall t | 0 <= t < |w| && t != i && t != Before(i, k) ensures b <= w[t] {
      WithoutFrom(w, i, t);
      var t1 := if t < i then t else t - 1;
      WithoutFrom(v, k, t1);
      var t2 := if t1 < k then t1 else t1 - 1;
      assert u[t2] in multiset(u);
    }
  }

  /** Replacing the two lightest symbols by one of their joint weight saves exactly that weight: a
      bound for the smaller alphabet gives one for the larger. */
  lemma MergeBound(weights: multiset<nat>, a: nat, b: nat, bound: nat)
    requires TwoSmallest(weights, a, b)
    requires CostsAtLeast(Merged(weights, a, b), bound)
    ensures CostsAtLeast(weights, bound + a + b)
  {
    forall w: seq<nat>, l: seq<nat>, m: nat | multiset(w) == weights && |w| == |l| && Feasible(l, m)
      ensures Cost(w, l) >= bound + a + b
    {
      MergeBoundFor(w, l, m, a, b, bound);
    }
  }

  lemma MergeBoundFor(w: seq<nat>, l: seq<nat>, m: nat, a: nat, b: nat, bound: nat)
    requires TwoSmallest(multiset(w), a, b) && |w| == |l| && Feasible(l, m)
    requires CostsAtLeast(Merged(multiset(w), a, b), bound)
    ensures Cost(w, l) >= bound + a + b
  {
    hide Cost, Feasible, TwoSmallest, CostsAtLeast;
    var i, j := TwoIndices(w, a, b);
    var l3 := LongestToLightest(w, l, m, i, j);
    MergeEqual(w, l3, m, i, j, bound);
  }

  /** Rearranged and shortened, the two lightest symbols have codes of the same, greatest length. */
  lemma LongestToLightest(w: seq<nat>, l: seq<nat>, m: nat, i: nat, j: nat) returns (l3: seq<nat>)
    requires |w| == |l| && Feasible(l, m) && i < |w| && j < |w| && i != j
    requires w[i] <= w[j] && forall t :: 0 <= t < |w| && t != i && t != j ==> w[j] <= w[t]
    ensures |l3| == |l| && Feasible(l3, m) && Cost(w, l3) <= Cost(w, l)
    ensures l3[i] == l3[j] && forall t :: 0 <= t < |l3| ==> l3[t] <= l3[i]
  {
    hide Cost, Feasible;
    var t := LongestExists(l, |l|);
    SwapIsNoWorse(w, l, i, t, m);
    var l1 := Swapped(l, i, t);
    var u := LongestExists(l1, i);
    SwapIsNoWorse(w, l1, j, u, m);
    var l2 := Swapped(l1, j, u);
    assert forall s :: 0 <= s < |l2| && s != i ==> l2[s] <= l2[j];
    ShortenLongest(l2, i, l2[j], m);
    CostUpdate(w, l2, i, l2[j]);
    l3 := l2[i := l2[j]];
    MulMonotone(w[i], l2[j], l2[i]);
  }

  lemma MulMonotone(a: nat, x: nat, y: nat)
    requires x <= y
    ensures a * x <= a * y
  {
  }

  lemma UseBound(weights: multiset<nat>, bound: nat, w: seq<nat>, l: seq<nat>, m: nat)
    requires CostsAtLeast(weights, bound) && multiset(w) == weights && |w| == |l| && Feasible(l, m)
    ensures Cost(w, l) >= bound
  {
  }

  lemma MergedWeights(w: seq<nat>, i: nat, k: nat)
    requires i < |w| && k < |w| - 1
    ensures var v := Without(w, i);
            var sum: nat := w[i] + v[k];
            |v| == |w| - 1 && multiset(Without(v, k) + [sum]) == Merged(multiset(w), w[i], v[k])
  {
    hide Without;
    WithoutSize(w, i);
    MultisetWithout(w, i);
    MultisetWithout(Without(w, i), k);
  }

  lemma MergedLengths(l: seq<nat>, m: nat, i: nat, k: nat)
    requires Feasible(l, m) && i < |l| && k < |l| - 1 && Without(l, i)[k] == l[i]
    ensures l[i] > 0 && Feasible(Without(Without(l, i), k) + [l[i] - 1], m)
  {
    hide Kraft;
    var x, l1 := l[i], Without(l, i);
    var l2 := Without(l1, k);
    KraftWithout(l, i, m);
    KraftWithout(l1, k, m);
    LengthIsPositive(l2, x, m);
    KraftAppend(l2, x - 1, m);
    assert Pow2(m - (x - 1)) == 2 * Pow2(m - x);
  }

  /** Two symbols with codes of the same length cost one symbol's code, and one bit more. */
  lemma MergedCost(w: seq<nat>, l: seq<nat>, i: nat, k: nat)
    requires |w| == |l| && i < |w| && k < |w| - 1 && |Without(w, i)| == |Without(l, i)| == |w| - 1
    requires l[i] > 0 && Without(l, i)[k] == l[i]
    ensures var w1, l1 := Without(w, i), Without(l, i);
            var sum: nat := w[i] + w1[k];
            var w3, l3 := Without(w1, k) + [sum], Without(l1, k) + [l[i] - 1];
            |w3| == |l3| && Cost(w, l) == Cost(w3, l3) + sum
  {
    hide Cost, Without;
    var w1, l1 := Without(w, i), Without(l, i);
    CostWithout(w, l, i);
    CostWithout(w1, l1, k);
    WithoutSize(w1, k);
    WithoutSize(l1, k);
    var sum: nat := w[i] + w1[k];
    CostAppend(Without(w1, k), Without(l1, k), sum, l[i] - 1);
    JointCost(w[i], w1[k], l[i]);
  }

  lemma MergeEqual(w: seq<nat>, l: seq<nat>, m: nat, i: nat, j: nat, bound: nat)
    requires |w| == |l| && Feasible(l, m) && i < |w| && j < |w| && i != j
    requires l[i] == l[j]
    requires CostsAtLeast(Merged(multiset(w), w[i], w[j]), bound)
    ensures Cost(w, l) >= bound + w[i] + w[j]
  {
    hide Cost, CostsAtLeast, Feasible, Merged, Without;
    var k: nat := if j < i then j else j - 1;
    WithoutFrom(w, i, j);
    WithoutFrom(l, i, j);
    MergedWeights(w, i, k);
    MergedLengths(l, m, i, k);
    MergedCost(w, l, i, k);
    var sum: nat := w[i] + w[j];
    UseBound(Merged(multiset(w), w[i], w[j]), bound,
             Without(Without(w, i), k) + [sum], Without(Without(l, i), k) + [l[i] - 1], m);
  }

  lemma WithoutSize(s: seq<nat>, i: nat)
    requires i < |s|
    ensures |Without(s, i)| == |s| - 1
  {
  }

  lemma JointCost(a: nat, b: nat, x: nat)
    requires x > 0
    ensures (a + b) * (x - 1) + a + b == a * x + b * x
  {
  }

  lemma LengthIsPositive(l2: seq<nat>, x: nat, m: nat)
    requires AtMost(l2, m) && x <= m && Kraft(l2, m) + 2 * Pow2(m - x) <= Pow2(m)
    ensures x > 0
  {
  }

  lemma NothingCostsLess(weights: multiset<nat>)
    ensures CostsAtLeast(weights, 0)
  {
  }
}
