/** The tree that a run of merges builds: the depths of its nodes, their cost and their Kraft sum. */
module MergeTree {
  import opened Bits
  import opened CodeCost
  import opened MergeRun

  /** Which step joins inner node `i`. */
  ghost predicate JoinedAt(r: Run, i: nat, k: nat) {
    k + 1 < |r.roots| && r.roots[k] <= i < r.roots[k + 1]
  }

  ghost predicate StepDepths(r: Run, d: seq<nat>, ld: seq<nat>, k: nat)
    requires r.Shape() && k < |r.w| == |d| && |ld| == |r.f|
  {
    r.LeafBounds(k);
    && (forall i :: r.roots[k] <= i < r.roots[k + 1] ==> d[i] == d[k] + 1)
    && (forall i :: r.Leaf(k) <= i < r.Leaf(k + 1) ==> ld[i] == d[k] + 1)
  }

  /** `d` and `ld` are the depths of the inner nodes and of the leaves. */
  ghost predicate Depths(r: Run, d: seq<nat>, ld: seq<nat>)
    requires r.Complete()
  {
    && |d| == |r.w| && |ld| == |r.f| && d[|d| - 1] == 0
    && forall k :: 0 <= k < |r.w| ==> StepDepths(r, d, ld, k)
  }

  // ---------------------------------------------------------------- sums over parts of a sequence

  lemma {:induction false} CostConcat(w: seq<nat>, l: seq<nat>, v: seq<nat>, m: seq<nat>)
    requires |w| == |l| && |v| == |m|
    ensures Cost(w + v, l + m) == Cost(w, l) + Cost(v, m)
  {
    if w == [] {
      assert w + v == v && l + m == m;
    } else {
      assert (w + v)[1..] == w[1..] + v && (l + m)[1..] == l[1..] + m;
      CostConcat(w[1..], l[1..], v, m);
    }
  }

  lemma CostCut(w: seq<nat>, l: seq<nat>, a: nat, b: nat, c: nat)
    requires |w| == |l| && a <= b <= c <= |w|
    ensures Cost(w[a..c], l[a..c]) == Cost(w[a..b], l[a..b]) + Cost(w[b..c], l[b..c])
  {
    assert w[a..c] == w[a..b] + w[b..c] && l[a..c] == l[a..b] + l[b..c];
    CostConcat(w[a..b], l[a..b], w[b..c], l[b..c]);
  }

  lemma {:induction false} CostLevel(w: seq<nat>, l: seq<nat>, x: nat)
    requires |w| == |l| && forall i :: 0 <= i < |l| ==> l[i] == x
    ensures Cost(w, l) == x * Sum(w)
  {
    if w != [] {
      CostLevel(w[1..], l[1..], x);
      assert x * (w[0] + Sum(w[1..])) == x * w[0] + x * Sum(w[1..]);
    }
  }

  lemma {:induction false} SumConcat(v: seq<nat>, w: seq<nat>)
    ensures Sum(v + w) == Sum(v) + Sum(w)
  {
    if v == [] {
      assert v + w == w;
    } else {
      assert (v + w)[1..] == v[1..] + w;
      SumConcat(v[1..], w);
    }
  }

  lemma SumCut(s: seq<nat>, a: nat, b: nat, c: nat)
    requires a <= b <= c <= |s|
    ensures Sum(s[a..c]) == Sum(s[a..b]) + Sum(s[b..c])
  {
    assert s[a..c] == s[a..b] + s[b..c];
    SumConcat(s[a..b], s[b..c]);
  }

  lemma SumPair(s: seq<nat>)
    requires |s| == 2
    ensures Sum(s) == s[0] + s[1]
  {
    assert Sum(s) == s[0] + Sum(s[1..]);
    assert Sum(s[1..]) == s[1..][0] + Sum(s[1..][1..]);
    assert s[1..][1..] == [];
  }

  lemma SumOne(x: nat)
    ensures Sum([x]) == x
  {
    assert [x][1..] == [];
  }

  lemma {:induction false} KraftConcat(l: seq<nat>, n: seq<nat>, m: nat)
    requires AtMost(l, m) && AtMost(n, m)
    ensures AtMost(l + n, m) && Kraft(l + n, m) == Kraft(l, m) + Kraft(n, m)
  {
    if l == [] {
      assert l + n == n;
    } else {
      assert (l + n)[1..] == l[1..] + n;
      KraftConcat(l[1..], n, m);
    }
  }

  lemma KraftCut(l: seq<nat>, a: nat, b: nat, c: nat, m: nat)
    requires a <= b <= c <= |l| && AtMost(l, m)
    ensures Kraft(l[a..c], m) == Kraft(l[a..b], m) + Kraft(l[b..c], m)
  {
    assert l[a..c] == l[a..b] + l[b..c];
    KraftConcat(l[a..b], l[b..c], m);
  }

  lemma {:induction false} KraftLevel(l: seq<nat>, x: nat, m: nat)
    requires x <= m && forall i :: 0 <= i < |l| ==> l[i] == x
    ensures AtMost(l, m) && Kraft(l, m) == |l| * Pow2(m - x)
  {
    if l != [] {
      KraftLevel(l[1..], x, m);
      assert |l| * Pow2(m - x) == Pow2(m - x) + (|l| - 1) * Pow2(m - x);
    }
  }

  // ---------------------------------------------------------------- cost

  /** What the nodes before step `k` cost with their depths in the finished tree. */
  ghost function StateCost(r: Run, d: seq<nat>, ld: seq<nat>, k: nat): nat
    requires r.Complete() && |d| == |r.w| && |ld| == |r.f| && k <= |r.w|
  {
    r.ItemBounds(k);
    Cost(r.w[r.roots[k]..k], d[r.roots[k]..k]) + Cost(r.f[r.Leaf(k)..], ld[r.Leaf(k)..])
  }

  lemma TakenSum(r: Run, k: nat)
    requires r.Shape() && k < |r.w| && r.StepGreedy(k)
    ensures 0 <= r.roots[k] <= r.roots[k + 1] <= k && 0 <= r.Leaf(k) <= r.Leaf(k + 1) <= |r.f|
    ensures Sum(r.w[r.roots[k]..r.roots[k + 1]]) + Sum(r.f[r.Leaf(k)..r.Leaf(k + 1)]) == r.w[k]
  {
    r.LeafBounds(k);
    SumConcat(r.w[r.roots[k]..r.roots[k + 1]], r.f[r.Leaf(k)..r.Leaf(k + 1)]);
    SumPair(r.Taken(k));
  }

  /** Joining two nodes one level below the new one costs the new node's weight. */
  lemma StepCost(r: Run, d: seq<nat>, ld: seq<nat>, k: nat)
    requires r.Complete() && Depths(r, d, ld) && k < |r.w| && r.StepGreedy(k)
    ensures StateCost(r, d, ld, k) == StateCost(r, d, ld, k + 1) + r.w[k]
  {
    hide Cost, Sum;
    r.LeafBounds(k);
    r.ItemBounds(k + 1);
    assert StepDepths(r, d, ld, k);
    var a, b, x, y, n := r.roots[k], r.roots[k + 1], r.Leaf(k), r.Leaf(k + 1), |r.f|;
    CostCut(r.w, d, a, b, k);
    CostCut(r.w, d, b, k, k + 1);
    CostCut(r.f, ld, x, y, n);
    assert r.f[x..n] == r.f[x..] && r.f[y..n] == r.f[y..] && ld[x..n] == ld[x..] && ld[y..n] == ld[y..];
    CostLevel(r.w[a..b], d[a..b], d[k] + 1);
    CostLevel(r.f[x..y], ld[x..y], d[k] + 1);
    CostLevel(r.w[k..k + 1], d[k..k + 1], d[k]);
    assert r.w[k..k + 1] == [r.w[k]];
    SumOne(r.w[k]);
    TakenSum(r, k);
    LevelSum(d[k], Sum(r.w[a..b]), Sum(r.f[x..y]), r.w[k]);
  }

  lemma LevelSum(d: nat, a: nat, b: nat, w: nat)
    requires a + b == w
    ensures (d + 1) * a + (d + 1) * b == d * w + w
  {
    assert (d + 1) * a + (d + 1) * b == (d + 1) * (a + b);
  }

  lemma {:induction false} StateCostIs(r: Run, d: seq<nat>, ld: seq<nat>, k: nat)
    requires r.Complete() && r.Greedy() && Depths(r, d, ld) && k <= |r.w|
    ensures StateCost(r, d, ld, k) == Sum(r.w[k..])
    decreases |r.w| - k
  {
    hide Depths;
    var n := |r.w|;
    if k == n {
      OneNodeCost(r, d, ld);
    } else {
      assert r.StepGreedy(k);
      StateCostIs(r, d, ld, k + 1);
      StepCost(r, d, ld, k);
      assert r.w[k..][1..] == r.w[k + 1..];
    }
  }

  lemma OneNodeCost(r: Run, d: seq<nat>, ld: seq<nat>)
    requires r.Complete() && Depths(r, d, ld)
    ensures StateCost(r, d, ld, |r.w|) == 0 == Sum(r.w[|r.w|..])
  {
    var n := |r.w|;
    r.ItemBounds(n);
    assert r.roots[n] == n - 1 && r.Leaf(n) == n + 1 == |r.f|;
    CostLevel(r.w[n - 1..n], d[n - 1..n], 0);
    assert Cost(r.f[r.Leaf(n)..], ld[r.Leaf(n)..]) == 0;
  }

  // ---------------------------------------------------------------- Kraft sum

  ghost function StateKraft(r: Run, d: seq<nat>, ld: seq<nat>, k: nat, m: nat): nat
    requires r.Complete() && |d| == |r.w| && |ld| == |r.f| && k <= |r.w| && AtMost(d, m) && AtMost(ld, m)
  {
    r.ItemBounds(k);
    Kraft(d[r.roots[k]..k], m) + Kraft(ld[r.Leaf(k)..], m)
  }

  lemma StepKraft(r: Run, d: seq<nat>, ld: seq<nat>, k: nat, m: nat)
    requires r.Complete() && Depths(r, d, ld) && k < |r.w| && AtMost(d, m) && AtMost(ld, m)
    ensures StateKraft(r, d, ld, k, m) == StateKraft(r, d, ld, k + 1, m)
  {
    hide Kraft;
    r.LeafBounds(k);
    r.ItemBounds(k + 1);
    assert StepDepths(r, d, ld, k);
    var a, b, x, y, n := r.roots[k], r.roots[k + 1], r.Leaf(k), r.Leaf(k + 1), |r.f|;
    assert b - a + y - x == 2;
    KraftCut(d, a, b, k, m);
    KraftCut(d, b, k, k + 1, m);
    KraftCut(ld, x, y, n, m);
    assert ld[x..n] == ld[x..] && ld[y..n] == ld[y..];
    assert d[k] + 1 <= m by {
      if b > a { assert d[a] == d[k] + 1; } else { assert ld[x] == d[k] + 1; }
    }
    KraftLevel(d[a..b], d[k] + 1, m);
    KraftLevel(ld[x..y], d[k] + 1, m);
    KraftLevel(d[k..k + 1], d[k], m);
    TwoHalves(b - a, y - x, m - d[k]);
  }

  lemma TwoHalves(a: nat, b: nat, n: nat)
    requires a + b == 2 && n > 0
    ensures a * Pow2(n - 1) + b * Pow2(n - 1) == 1 * Pow2(n)
  {
    assert a * Pow2(n - 1) + b * Pow2(n - 1) == (a + b) * Pow2(n - 1);
  }

  lemma {:induction false} StateKraftIs(r: Run, d: seq<nat>, ld: seq<nat>, k: nat, m: nat)
    requires r.Complete() && Depths(r, d, ld) && k <= |r.w| && AtMost(d, m) && AtMost(ld, m)
    ensures StateKraft(r, d, ld, k, m) == Pow2(m)
    decreases |r.w| - k
  {
    hide Depths;
    if k == |r.w| {
      OneNodeKraft(r, d, ld, m);
    } else {
      StateKraftIs(r, d, ld, k + 1, m);
      StepKraft(r, d, ld, k, m);
    }
  }

  lemma OneNodeKraft(r: Run, d: seq<nat>, ld: seq<nat>, m: nat)
    requires r.Complete() && Depths(r, d, ld) && AtMost(d, m) && AtMost(ld, m)
    ensures StateKraft(r, d, ld, |r.w|, m) == Pow2(m)
  {
    var n := |r.w|;
    r.ItemBounds(n);
    assert r.roots[n] == n - 1 && r.Leaf(n) == n + 1 == |r.f|;
    KraftLevel(d[n - 1..n], 0, m);
    assert Kraft(ld[r.Leaf(n)..], m) == 0;
  }

  // ---------------------------------------------------------------- the results about the leaves

  /** The leaf depths are those of a full prefix code, and no prefix code costs less. */
  lemma LeavesAreOptimal(r: Run, d: seq<nat>, ld: seq<nat>)
    requires r.Complete() && r.Greedy() && Depths(r, d, ld)
    ensures CostsAtLeast(multiset(r.f), Cost(r.f, ld))
  {
    r.LowerBound(0);
    StateCostIs(r, d, ld, 0);
    r.ItemBounds(0);
    hide Cost, CostsAtLeast, Depths;
    assert r.f[r.Leaf(0)..] == r.f && ld[r.Leaf(0)..] == ld;
    assert r.w[r.roots[0]..0] == [] && d[r.roots[0]..0] == [];
    NoCost(r.w[r.roots[0]..0], d[r.roots[0]..0]);
    assert r.Items(0) == multiset(r.f);
  }

  lemma NoCost(w: seq<nat>, l: seq<nat>)
    requires w == [] && l == []
    ensures Cost(w, l) == 0 && multiset(w) == multiset{}
  {
  }

  lemma LeavesAreFull(r: Run, d: seq<nat>, ld: seq<nat>, m: nat)
    requires r.Complete() && Depths(r, d, ld) && AtMost(d, m) && AtMost(ld, m)
    ensures Kraft(ld, m) == Pow2(m)
  {
    StateKraftIs(r, d, ld, 0, m);
    r.ItemBounds(0);
    assert ld[r.Leaf(0)..] == ld && d[r.roots[0]..0] == [];
  }

  // ---------------------------------------------------------------- the order of the depths

  lemma {:induction false} RootsMonotone(r: Run, j: nat, k: nat)
    requires r.Shape() && j <= k <= |r.w|
    ensures r.roots[j] <= r.roots[k] && r.Leaf(j) <= r.Leaf(k)
  {
    if j < k {
      RootsMonotone(r, j, k - 1);
      r.LeafBounds(k - 1);
    }
  }

  /** The step that joins inner node `i`, before `top` steps are done. */
  lemma {:induction false} FindStep(r: Run, i: nat, top: nat) returns (k: nat)
    requires r.Shape() && top <= |r.w| && i < r.roots[top]
    ensures k < top && r.roots[k] <= i < r.roots[k + 1] && i < k
  {
    r.LeafBounds(top - 1);
    if i < r.roots[top - 1] {
      k := FindStep(r, i, top - 1);
    } else {
      k := top - 1;
    }
  }

  lemma {:induction false} FindLeafStep(r: Run, i: nat, top: nat) returns (k: nat)
    requires r.Shape() && top <= |r.w| && i < r.Leaf(top)
    ensures k < top && r.Leaf(k) <= i < r.Leaf(k + 1)
  {
    if i < r.Leaf(top - 1) {
      k := FindLeafStep(r, i, top - 1);
    } else {
      k := top - 1;
    }
  }

  /** A node is at most as deep as the ones before it. */
  lemma {:induction false} InnerDepthsFall(r: Run, d: seq<nat>, ld: seq<nat>, i: nat, j: nat)
    requires r.Complete() && Depths(r, d, ld) && i <= j < |r.w|
    ensures d[i] >= d[j]
    decreases |r.w| - i
  {
    if i < j && j < |r.w| - 1 {
      var p := FindStep(r, i, |r.w|);
      var q := FindStep(r, j, |r.w|);
      if q < p { RootsMonotone(r, q + 1, p); }
      assert StepDepths(r, d, ld, p) && StepDepths(r, d, ld, q);
      InnerDepthsFall(r, d, ld, p, q);
    }
  }

  lemma LeafDepthsFall(r: Run, d: seq<nat>, ld: seq<nat>, i: nat, j: nat)
    requires r.Complete() && Depths(r, d, ld) && i <= j < |r.f|
    ensures ld[i] >= ld[j] >= 1
  {
    var p := FindLeafStep(r, i, |r.w|);
    var q := FindLeafStep(r, j, |r.w|);
    if q < p { RootsMonotone(r, q + 1, p); }
    assert StepDepths(r, d, ld, p) && StepDepths(r, d, ld, q);
    InnerDepthsFall(r, d, ld, p, q);
  }

  // ---------------------------------------------------------------- how deep the tree can get

  ghost predicate AllAtLeast(items: multiset<nat>, t: nat) {
    forall x :: x in items ==> t <= x
  }

  /** Whatever a later step has to choose from is at least as heavy as what was joined before. */
  lemma {:induction false} ItemsGrow(r: Run, p: nat, g: nat, t: nat)
    requires r.Shape() && r.Greedy() && p < g <= |r.w| && t in r.Taken(p)
    ensures AllAtLeast(r.Items(g), t)
  {
    hide r.Taken, r.Items, r.Rest;
    var k := g - 1;
    if p < k {
      ItemsGrow(r, p, k, t);
    }
    ItemsAfter(r, k, t, p < k);
  }

  lemma ItemsAfter(r: Run, k: nat, t: nat, later: bool)
    requires r.Shape() && r.Greedy() && k < |r.w|
    requires if later then AllAtLeast(r.Items(k), t) else t in r.Taken(k)
    ensures AllAtLeast(r.Items(k + 1), t)
  {
    hide r.Taken, r.Items, r.Rest;
    assert r.StepGreedy(k);
    r.TakenPair(k);
    r.ItemsSplit(k);
    TakenAreItems(r, k);
    if later {
      assert forall x :: x in r.Rest(k) ==> x in r.Items(k);
    }
  }

  lemma TakenAreItems(r: Run, k: nat)
    requires r.Shape() && k < |r.w|
    ensures |r.Taken(k)| == 2 && forall i :: 0 <= i < 2 ==> r.Taken(k)[i] in r.Items(k)
  {
    hide r.Taken, r.Items;
    r.TakenPair(k);
    r.ItemsSplit(k);
    assert r.Taken(k)[0] in multiset(r.Taken(k)) && r.Taken(k)[1] in multiset(r.Taken(k));
  }

  /** A node's grandparent weighs at least twice as much. */
  lemma GrandparentDoubles(r: Run, i: nat, p: nat, g: nat)
    requires r.Shape() && r.Greedy() && p < g < |r.w| && i < |r.w|
    requires JoinedAt(r, i, p) && JoinedAt(r, p, g)
    ensures r.w[g] >= 2 * r.w[i]
  {
    r.LeafBounds(p);
    r.LeafBounds(g);
    assert r.StepGreedy(p) && r.StepGreedy(g);
    var a, b := i - r.roots[p], p - r.roots[g];
    assert r.Taken(p)[a] == r.w[i] && r.Taken(g)[b] == r.w[p];
    ItemsGrow(r, p, g, r.w[i]);
    TakenAreItems(r, g);
  }

  lemma JoinedParentIsHeavier(r: Run, i: nat, p: nat)
    requires r.Shape() && r.Greedy() && p < |r.w| && i < |r.w| && JoinedAt(r, i, p)
    ensures r.w[p] >= r.w[i]
  {
    r.LeafBounds(p);
    assert r.StepGreedy(p);
    assert r.Taken(p)[i - r.roots[p]] == r.w[i];
  }

  /** Two levels up, the weight doubles. */
  lemma {:induction false} WeightAtDepth(r: Run, d: seq<nat>, ld: seq<nat>, i: nat)
    requires r.Complete() && r.Greedy() && Depths(r, d, ld) && i < |r.w|
    ensures r.w[i] * Pow2(d[i] / 2) <= r.w[|r.w| - 1]
    decreases |r.w| - i
  {
    var last := |r.w| - 1;
    if i < last {
      var p := FindStep(r, i, |r.w|);
      assert StepDepths(r, d, ld, p);
      JoinedParentIsHeavier(r, i, p);
      if p < last {
        var g := FindStep(r, p, |r.w|);
        assert StepDepths(r, d, ld, g);
        GrandparentDoubles(r, i, p, g);
        WeightAtDepth(r, d, ld, g);
        assert d[i] / 2 == d[g] / 2 + 1;
        DoublePower(r.w[i], r.w[g], Pow2(d[g] / 2), r.w[last]);
      } else {
        assert d[i] / 2 == 0 && Pow2(0) == 1;
      }
    } else {
      assert Pow2(0) == 1;
    }
  }

  lemma DoublePower(x: nat, y: nat, p: nat, bound: nat)
    requires y >= 2 * x && y * p <= bound
    ensures x * (2 * p) <= bound
  {
    assert x * (2 * p) == (2 * x) * p;
    assert (2 * x) * p <= y * p;
  }

  ghost predicate Positive(s: seq<nat>) {
    forall i :: 0 <= i < |s| ==> s[i] > 0
  }

  lemma {:induction false} InnerAtLeastTwo(r: Run, k: nat)
    requires r.Shape() && r.Greedy() && Positive(r.f) && k < |r.w|
    ensures r.w[k] >= 2
  {
    r.LeafBounds(k);
    assert r.StepGreedy(k);
    forall i | 0 <= i < 2 ensures r.Taken(k)[i] >= 1 {
      var n := r.roots[k + 1] - r.roots[k];
      if i < n {
        InnerAtLeastTwo(r, r.roots[k] + i);
        assert r.Taken(k)[i] == r.w[r.roots[k] + i];
      } else {
        assert r.Taken(k)[i] == r.f[r.Leaf(k) + i - n];
      }
    }
  }

  /** The weights in play always add up to the same. */
  lemma {:induction false} WeightIsKept(r: Run, k: nat)
    requires r.Shape() && r.Greedy() && k <= |r.w|
    ensures 0 <= r.roots[k] <= k && 0 <= r.Leaf(k) <= |r.f|
    ensures Sum(r.w[r.roots[k]..k]) + Sum(r.f[r.Leaf(k)..]) == Sum(r.f)
  {
    hide Sum, r.StepGreedy, r.StepShape;
    r.ItemBounds(k);
    if k == 0 {
      assert r.f[0..] == r.f && r.w[r.roots[0]..0] == [];
      SumNothing();
    } else {
      WeightIsKept(r, k - 1);
      assert r.StepGreedy(k - 1);
      StepKeepsWeight(r, k - 1);
    }
  }

  lemma SumNothing()
    ensures Sum([]) == 0
  {
  }

  lemma StepKeepsWeight(r: Run, k: nat)
    requires r.Shape() && k < |r.w| && r.StepGreedy(k)
    ensures 0 <= r.roots[k] <= r.roots[k + 1] <= k && 0 <= r.Leaf(k) <= r.Leaf(k + 1) <= |r.f|
    ensures Sum(r.w[r.roots[k + 1]..k + 1]) + Sum(r.f[r.Leaf(k + 1)..]) == Sum(r.w[r.roots[k]..k]) + Sum(r.f[r.Leaf(k)..])
  {
    hide Sum;
    r.LeafBounds(k);
    TakenSum(r, k);
    var a, b, x, y, n := r.roots[k], r.roots[k + 1], r.Leaf(k), r.Leaf(k + 1), |r.f|;
    SumCut(r.w, a, b, k);
    SumCut(r.w, b, k, k + 1);
    SumCut(r.f, x, y, n);
    assert r.f[x..n] == r.f[x..] && r.f[y..n] == r.f[y..];
    assert r.w[k..k + 1] == [r.w[k]];
    SumOne(r.w[k]);
  }

  /** A total below 65536 keeps every leaf within 30 levels. */
  lemma DepthIsBounded(r: Run, d: seq<nat>, ld: seq<nat>)
    requires r.Complete() && r.Greedy() && Depths(r, d, ld) && Positive(r.f) && Sum(r.f) <= 65535
    ensures (forall i :: 0 <= i < |d| ==> d[i] <= 29) && (forall i :: 0 <= i < |ld| ==> ld[i] <= 30)
  {
    forall i | 0 <= i < |d| ensures d[i] <= 29 {
      WeightAtDepth(r, d, ld, i);
      InnerAtLeastTwo(r, i);
      RootWeight(r);
      if d[i] / 2 >= 15 {
        Pow2Monotone(15, d[i] / 2);
        Pow2Values();
        TooHeavy(r.w[i], Pow2(d[i] / 2));
        assert false;
      }
    }
    forall i | 0 <= i < |ld| ensures ld[i] <= 30 {
      var p := FindLeafStep(r, i, |r.w|);
      assert StepDepths(r, d, ld, p);
    }
  }

  lemma TooHeavy(w: nat, p: nat)
    requires w >= 2 && p >= 32768
    ensures w * p >= 65536
  {
    assert w * p >= 2 * p;
  }

  lemma RootWeight(r: Run)
    requires r.Complete() && r.Greedy()
    ensures r.w[|r.w| - 1] == Sum(r.f)
  {
    var n := |r.w|;
    WeightIsKept(r, n);
    assert r.w[n - 1..n] == [r.w[n - 1]] && r.f[r.Leaf(n)..] == [];
    SumOne(r.w[n - 1]);
  }
}
