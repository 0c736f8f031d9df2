/** `tdefl_calculate_minimum_redundancy` of `src/miniz.c`: turns sorted frequencies into the code
    lengths of a cheapest prefix code, in the array they come in. */
module MinimumRedundancy {
  import opened Bits
  import opened CodeCost
  import opened MergeRun
  import opened MergeTree
  import opened Sequences

  ghost predicate Ascending(s: seq<nat>) {
    forall i, j :: 0 <= i <= j < |s| ==> s[i] <= s[j]
  }

  ghost predicate Descending(s: seq<nat>) {
    forall i, j :: 0 <= i <= j < |s| ==> s[i] >= s[j]
  }

  /** The lengths of a full prefix code, none longer than 30, the heavier symbols' not longer than the
      lighter ones', and no prefix code costs less. */
  ghost predicate IsMinimal(f: seq<nat>, l: seq<nat>) {
    && |l| == |f|
    && (forall i :: 0 <= i < |l| ==> 1 <= l[i] <= 30)
    && Descending(l)
    && AtMost(l, 32) && Kraft(l, 32) == Pow2(32)
    && CostsAtLeast(multiset(f), Cost(f, l))
  }

  // ---------------------------------------------------------------- one more step of the run

  function Extended(r: Run, sum: nat, root: nat): Run {
    Run(r.f, r.w + [sum], r.roots + [root])
  }

  /** The state between two steps. */
  ghost predicate Running(r: Run) {
    r.Shape() && r.Greedy() && Ascending(r.f) && Ascending(r.w)
  }

  /** A step may join the nodes up to `root` and `leaf` if the heads of both queues are then no lighter. */
  ghost predicate Heads(r: Run, root: nat, leaf: nat)
    requires r.Shape()
  {
    var k := |r.w|;
    r.ItemBounds(k);
    && r.roots[k] <= root <= k && r.Leaf(k) <= leaf <= |r.f|
    && root - r.roots[k] + leaf - r.Leaf(k) == 2
    && (root > r.roots[k] && leaf < |r.f| ==> r.w[root - 1] <= r.f[leaf])
    && (leaf > r.Leaf(k) && root < k ==> r.f[leaf - 1] <= r.w[root])
  }

  ghost function Picked(r: Run, root: nat, leaf: nat): seq<nat>
    requires r.Shape() && Heads(r, root, leaf)
  {
    r.ItemBounds(|r.w|);
    r.w[r.roots[|r.w|]..root] + r.f[r.Leaf(|r.w|)..leaf]
  }

  lemma ExtendedShape(r: Run, sum: nat, root: nat, leaf: nat)
    requires r.Shape() && Heads(r, root, leaf)
    ensures Extended(r, sum, root).Shape() && Extended(r, sum, root).Leaf(|r.w| + 1) == leaf
  {
    var r' := Extended(r, sum, root);
    r.ItemBounds(|r.w|);
    forall k | 0 <= k < |r'.w| ensures r'.StepShape(k) {
      if k < |r.w| { assert r.StepShape(k); }
    }
  }

  lemma ExtendedKeeps(r: Run, sum: nat, root: nat, k: nat)
    requires r.Shape() && Extended(r, sum, root).Shape() && k < |r.w|
    ensures var r' := Extended(r, sum, root); r'.Taken(k) == r.Taken(k) && r'.Rest(k) == r.Rest(k) && r'.w[k] == r.w[k]
  {
    var r' := Extended(r, sum, root);
    r.LeafBounds(k);
    r'.LeafBounds(k);
    assert r'.w[r.roots[k]..r.roots[k + 1]] == r.w[r.roots[k]..r.roots[k + 1]];
    assert r'.w[r.roots[k + 1]..k] == r.w[r.roots[k + 1]..k];
  }

  lemma ExtendedNew(r: Run, sum: nat, root: nat, leaf: nat)
    requires r.Shape() && Heads(r, root, leaf) && Extended(r, sum, root).Shape()
    ensures root <= |r.w| && leaf <= |r.f|
    ensures var r' := Extended(r, sum, root);
            && r'.Taken(|r.w|) == Picked(r, root, leaf)
            && r'.Rest(|r.w|) == multiset(r.w[root..]) + multiset(r.f[leaf..])
  {
    ExtendedTaken(r, sum, root, leaf);
    ExtendedRest(r, sum, root, leaf);
  }

  lemma ExtendedTaken(r: Run, sum: nat, root: nat, leaf: nat)
    requires r.Shape() && Heads(r, root, leaf) && Extended(r, sum, root).Shape()
    ensures Extended(r, sum, root).Taken(|r.w|) == Picked(r, root, leaf)
  {
    hide r.Shape;
    var r' := Extended(r, sum, root);
    var n := |r.w|;
    HeadBounds(r, root, leaf);
    r'.LeafBounds(n);
    assert r'.roots[n] == r.roots[n] && r'.roots[n + 1] == root;
    assert r'.Leaf(n) == r.Leaf(n) && r'.Leaf(n + 1) == leaf;
    assert r'.w[r.roots[n]..root] == r.w[r.roots[n]..root];
  }

  lemma ExtendedRest(r: Run, sum: nat, root: nat, leaf: nat)
    requires r.Shape() && Heads(r, root, leaf) && Extended(r, sum, root).Shape()
    ensures root <= |r.w| && leaf <= |r.f|
    ensures Extended(r, sum, root).Rest(|r.w|) == multiset(r.w[root..]) + multiset(r.f[leaf..])
  {
    var r' := Extended(r, sum, root);
    var n := |r.w|;
    r.ItemBounds(n);
    r'.LeafBounds(n);
    assert r'.w[root..n] == r.w[root..];
  }

  lemma ExtendedGreedy(r: Run, sum: nat, root: nat, k: nat)
    requires r.Shape() && Extended(r, sum, root).Shape() && k < |r.w| && r.StepGreedy(k)
    ensures Extended(r, sum, root).StepGreedy(k)
  {
    hide r.Taken, r.Rest, r.Shape, Extended;
    ExtendedKeeps(r, sum, root, k);
  }

  ghost predicate NoneBelow(picked: seq<nat>, rest: multiset<nat>) {
    forall x, t :: x in rest && t in picked ==> t <= x
  }

  lemma HeadBounds(r: Run, root: nat, leaf: nat)
    requires r.Shape() && Heads(r, root, leaf)
    ensures |r.roots| == |r.w| + 1 && 0 <= r.roots[|r.w|] <= root <= |r.w| && 0 <= r.Leaf(|r.w|) <= leaf <= |r.f|
    ensures |Picked(r, root, leaf)| == 2
  {
    r.ItemBounds(|r.w|);
  }

  lemma HeadIsLight(r: Run, root: nat, leaf: nat, i: nat)
    requires Running(r) && Heads(r, root, leaf) && i < 2
    ensures |Picked(r, root, leaf)| == 2
    ensures root < |r.w| ==> Picked(r, root, leaf)[i] <= r.w[root]
    ensures leaf < |r.f| ==> Picked(r, root, leaf)[i] <= r.f[leaf]
  {
    hide r.Greedy, r.Shape;
    HeadBounds(r, root, leaf);
    var k := |r.w|;
    if i < root - r.roots[k] {
      assert Picked(r, root, leaf)[i] == r.w[r.roots[k] + i] <= r.w[root - 1];
    } else {
      assert Picked(r, root, leaf)[i] == r.f[r.Leaf(k) + i - (root - r.roots[k])] <= r.f[leaf - 1];
    }
  }

  lemma HeadsAreGreedy(r: Run, root: nat, leaf: nat)
    requires Running(r) && Heads(r, root, leaf)
    ensures |Picked(r, root, leaf)| == 2 && root <= |r.w| && leaf <= |r.f|
    ensures NoneBelow(Picked(r, root, leaf), multiset(r.w[root..]) + multiset(r.f[leaf..]))
  {
    hide r.Shape, r.Greedy, Picked, Heads;
    HeadBounds(r, root, leaf);
    var p := Picked(r, root, leaf);
    forall x, t | x in multiset(r.w[root..]) + multiset(r.f[leaf..]) && t in p ensures t <= x {
      var i :| 0 <= i < |p| && p[i] == t;
      HeadIsLight(r, root, leaf, i);
      if x in multiset(r.w[root..]) {
        var j :| 0 <= j < |r.w[root..]| && r.w[root..][j] == x;
      } else {
        assert x in r.f[leaf..];
        var j :| 0 <= j < |r.f[leaf..]| && r.f[leaf..][j] == x;
      }
    }
  }

  lemma IsGreedyStep(r: Run, k: nat, p: seq<nat>, rest: multiset<nat>)
    requires r.Shape() && k < |r.w| && r.Taken(k) == p && r.Rest(k) == rest
    requires |p| == 2 && r.w[k] == p[0] + p[1] && NoneBelow(p, rest)
    ensures r.StepGreedy(k)
  {
    hide r.Taken, r.Rest, r.Shape;
    assert p[0] in p && p[1] in p;
  }

  lemma NewStepIsGreedy(r: Run, root: nat, leaf: nat)
    requires Running(r) && Heads(r, root, leaf)
    ensures |Picked(r, root, leaf)| == 2
    ensures var p := Picked(r, root, leaf); var r' := Extended(r, p[0] + p[1], root); r'.Shape() && r'.StepGreedy(|r.w|)
  {
    hide r.Taken, r.Rest, r.Shape, r.StepGreedy, r.Greedy, Picked, Heads, NoneBelow, Ascending;
    HeadsAreGreedy(r, root, leaf);
    var p := Picked(r, root, leaf);
    ExtendedShape(r, p[0] + p[1], root, leaf);
    ExtendedNew(r, p[0] + p[1], root, leaf);
    IsGreedyStep(Extended(r, p[0] + p[1], root), |r.w|, p, multiset(r.w[root..]) + multiset(r.f[leaf..]));
  }

  /** The sums come out in ascending order. */
  lemma NewestIsHeaviest(r: Run, k: nat)
    requires r.Shape() && r.Greedy() && k + 1 < |r.w|
    ensures r.w[k] <= r.w[k + 1]
  {
    hide r.Taken, r.Rest, r.Items, r.Shape;
    r.TakenPair(k);
    r.TakenPair(k + 1);
    assert r.StepGreedy(k) && r.StepGreedy(k + 1);
    TakenAreItems(r, k + 1);
    ItemsGrow(r, k, k + 1, r.Taken(k)[0]);
    ItemsGrow(r, k, k + 1, r.Taken(k)[1]);
  }

  lemma Extend(r: Run, root: nat, leaf: nat)
    requires Running(r) && Heads(r, root, leaf)
    ensures |Picked(r, root, leaf)| == 2
    ensures var p := Picked(r, root, leaf); var r' := Extended(r, p[0] + p[1], root);
            Running(r') && r'.Leaf(|r.w| + 1) == leaf
  {
    hide r.StepGreedy, Heads, Picked, r.Shape;
    NewStepIsGreedy(r, root, leaf);
    var p := Picked(r, root, leaf);
    var r' := Extended(r, p[0] + p[1], root);
    ExtendedShape(r, p[0] + p[1], root, leaf);
    forall k | 0 <= k < |r'.w| ensures r'.StepGreedy(k) {
      if k < |r.w| { ExtendedGreedy(r, p[0] + p[1], root, k); }
    }
    if |r.w| > 0 {
      NewestIsHeaviest(r', |r.w| - 1);
    }
  }

  // ---------------------------------------------------------------- choosing the two lightest heads

  /** Taking the lighter head twice, the leaf on a tie. */
  lemma TwoLighterHeads(r: Run, root: nat, leaf: nat, inner1: bool, inner2: bool)
    requires Running(r) && 1 <= |r.w| < |r.f| - 1 && |r.roots| == |r.w| + 1
    requires root == r.roots[|r.w|] < |r.w| && leaf == r.Leaf(|r.w|)
    requires inner1 <==> leaf >= |r.f| || r.w[root] < r.f[leaf]
    requires var root1, leaf1 := if inner1 then root + 1 else root, if inner1 then leaf else leaf + 1;
             inner2 <==> leaf1 >= |r.f| || (root1 < |r.w| && r.w[root1] < r.f[leaf1])
    ensures (inner1 && inner2 ==> root + 1 < |r.w|) && (!inner1 ==> leaf < |r.f|)
    ensures !inner2 ==> (if inner1 then leaf else leaf + 1) < |r.f|
    ensures Heads(r, root + (if inner1 then 1 else 0) + (if inner2 then 1 else 0), leaf + (if inner1 then 0 else 1) + (if inner2 then 0 else 1))
  {
    hide r.Greedy, r.Shape;
    r.ItemBounds(|r.w|);
  }

  lemma PickedSum(r: Run, root: nat, leaf: nat, inner1: bool, inner2: bool, root2: nat, leaf2: nat)
    requires r.Shape() && root == r.roots[|r.w|] < |r.w| && leaf == r.Leaf(|r.w|) && Heads(r, root2, leaf2)
    requires (inner1 && inner2 ==> root + 1 < |r.w|) && (!inner1 ==> leaf < |r.f|)
    requires !inner2 ==> (if inner1 then leaf else leaf + 1) < |r.f|
    requires root2 == root + (if inner1 then 1 else 0) + if inner2 then 1 else 0
    ensures |Picked(r, root2, leaf2)| == 2
    ensures Picked(r, root2, leaf2)[0] + Picked(r, root2, leaf2)[1]
            == (if inner1 then r.w[root] else r.f[leaf])
               + if inner2 then (if inner1 then r.w[root + 1] else r.w[root]) else (if inner1 then r.f[leaf] else r.f[leaf + 1])
  {
    HeadBounds(r, root2, leaf2);
    TwoInAll(r.w, root, root2, r.f, leaf, leaf2);
  }

  lemma TwoInAll(w: seq<nat>, i: nat, j: nat, f: seq<nat>, k: nat, l: nat)
    requires i <= j <= |w| && k <= l <= |f| && j - i + (l - k) == 2
    ensures var p := w[i..j] + f[k..l];
            && |p| == 2 && p[0] == (if j > i then w[i] else f[k])
            && p[1] == if j > i + 1 then w[i + 1] else if j == i + 1 then f[k] else f[k + 1]
  {
  }

  /** The first step has only leaves to take. */
  lemma FirstStep(f: seq<nat>)
    requires |f| >= 2 && Ascending(f)
    ensures Running(Run(f, [f[0] + f[1]], [0, 0])) && Run(f, [f[0] + f[1]], [0, 0]).Leaf(1) == 2
  {
    hide Running, Ascending, Picked, Extended, Heads;
    NothingTaken(f);
    Extend(Run(f, [], [0]), 0, 2);
  }

  lemma NothingTaken(f: seq<nat>)
    requires |f| >= 2 && Ascending(f)
    ensures var r := Run(f, [], [0]);
            && Running(r) && Heads(r, 0, 2) && Picked(r, 0, 2) == [f[0], f[1]]
            && Extended(r, f[0] + f[1], 0) == Run(f, [f[0] + f[1]], [0, 0])
  {
  }

  lemma {:induction false} SumAtLeast(s: seq<nat>, i: nat)
    requires i < |s|
    ensures s[i] <= Sum(s)
  {
    if i > 0 { SumAtLeast(s[1..], i - 1); }
  }

  lemma {:induction false} PositiveSum(s: seq<nat>)
    requires Positive(s)
    ensures |s| <= Sum(s)
  {
    if s != [] { PositiveSum(s[1..]); }
  }

  /** No sum exceeds the total. */
  lemma SumsFit(r: Run, k: nat)
    requires r.Shape() && r.Greedy() && k < |r.w| && |r.f| >= 2
    ensures r.w[k] <= Sum(r.f)
  {
    WeightIsKept(r, k + 1);
    r.LeafBounds(k);
    SumAtLeast(r.w[r.roots[k + 1]..k + 1], k - r.roots[k + 1]);
  }

  // ---------------------------------------------------------------- joining, in place

  /** What the array holds between two steps: parents, weights and leaves not joined yet. */
  ghost predicate Holds(s: seq<nat>, r: Run)
    requires r.Shape() && |s| == |r.f| > |r.w|
  {
    r.ItemBounds(|r.w|);
    && (forall i :: r.roots[|r.w|] <= i < |r.w| ==> s[i] == r.w[i])
    && (forall i :: r.Leaf(|r.w|) <= i < |r.f| ==> s[i] == r.f[i])
    && HoldsParents(s, r)
  }

  lemma HoldsTheParents(s: seq<nat>, r: Run)
    requires r.Shape() && |s| == |r.f| > |r.w| && Holds(s, r)
    ensures HoldsParents(s, r)
  {
  }

  lemma HoldsNodes(s: seq<nat>, r: Run)
    requires r.Shape() && |s| == |r.f| > |r.w| && Holds(s, r)
    ensures |r.roots| == |r.w| + 1 && 0 <= r.roots[|r.w|] <= |r.w| && 0 <= r.Leaf(|r.w|) && (|r.w| > 0 ==> r.roots[|r.w|] < |r.w|)
    ensures forall i :: r.roots[|r.w|] <= i < |r.w| ==> s[i] == r.w[i]
    ensures forall i :: r.Leaf(|r.w|) <= i < |r.f| ==> s[i] == r.f[i]
  {
    r.ItemBounds(|r.w|);
  }

  ghost predicate HoldsParents(s: seq<nat>, r: Run)
    requires |s| == |r.f|
  {
    forall i: nat, k: nat :: i < |s| && JoinedAt(r, i, k) ==> s[i] == k
  }

  /** What one step writes. */
  ghost predicate Written(s: seq<nat>, t: seq<nat>, r: Run, root: nat, leaf: nat)
    requires r.Shape() && |s| == |t| == |r.f| && Heads(r, root, leaf) && |r.w| < |r.f|
  {
    HeadBounds(r, root, leaf);
    var k := |r.w|;
    && t[k] == Picked(r, root, leaf)[0] + Picked(r, root, leaf)[1]
    && (forall i :: r.roots[k] <= i < root ==> t[i] == k)
    && (forall i :: 0 <= i < |s| && i != k && !(r.roots[k] <= i < root) ==> t[i] == s[i])
  }

  lemma WrittenHolds(s: seq<nat>, t: seq<nat>, r: Run, root: nat, leaf: nat)
    requires r.Shape() && |s| == |t| == |r.f| && Heads(r, root, leaf) && |r.w| < |r.f| - 1
    requires Holds(s, r) && Written(s, t, r, root, leaf) && |Picked(r, root, leaf)| == 2
    requires Extended(r, Picked(r, root, leaf)[0] + Picked(r, root, leaf)[1], root).Shape()
    ensures Holds(t, Extended(r, Picked(r, root, leaf)[0] + Picked(r, root, leaf)[1], root))
  {
    hide r.Shape, r.StepShape, Picked;
    HeadBounds(r, root, leaf);
    var r' := Extended(r, Picked(r, root, leaf)[0] + Picked(r, root, leaf)[1], root);
    var n := |r.w|;
    r'.ItemBounds(n + 1);
    forall i: nat, k: nat | i < |t| && JoinedAt(r', i, k) ensures t[i] == k {
      if k < n {
        RootsMonotone(r, k + 1, n);
        assert JoinedAt(r, i, k);
      }
    }
  }

  /** The array after a step. */
  ghost function Stepped(s: seq<nat>, next: nat, root: nat, leaf: nat, inner1: bool, inner2: bool): (t: seq<nat>)
    requires root < next < leaf && next < |s| && (inner1 || leaf < |s|)
    requires if inner2 then inner1 ==> root + 1 < next else (if inner1 then leaf else leaf + 1) < |s|
    ensures |t| == |s|
  {
    var x := s[if inner1 then root else leaf];
    var y := s[if inner2 then (if inner1 then root + 1 else root) else (if inner1 then leaf else leaf + 1)];
    var t := s[next := (x + y) % 65536];
    if inner1 && inner2 then t[root := next][root + 1 := next]
    else if inner1 || inner2 then t[root := next]
    else t
  }

  ghost predicate Inner1(s: seq<nat>, root: nat, leaf: nat)
    requires root < |s|
  {
    leaf >= |s| || s[root] < s[leaf]
  }

  ghost predicate Inner2(s: seq<nat>, next: nat, root: nat, leaf: nat)
    requires root < next <= |s|
  {
    var root1, leaf1 := if Inner1(s, root, leaf) then root + 1 else root, if Inner1(s, root, leaf) then leaf else leaf + 1;
    leaf1 >= |s| || (root1 < next && s[root1] < s[leaf1])
  }

  lemma StepTaken(s: seq<nat>, r: Run, root: nat, leaf: nat, inner1: bool, inner2: bool)
    requires Running(r) && 1 <= |r.w| < |r.f| - 1 && |s| == |r.f| && |r.roots| == |r.w| + 1
    requires Sum(r.f) <= 65535 && Holds(s, r)
    requires root == r.roots[|r.w|] < |r.w| && leaf == r.Leaf(|r.w|)
    requires inner1 == Inner1(s, root, leaf) && inner2 == Inner2(s, |r.w|, root, leaf)
    ensures |r.w| < leaf && (!inner1 ==> leaf < |s|) && (inner2 && inner1 ==> root + 1 < |r.w|)
    ensures !inner2 ==> leaf < |s| && (!inner1 ==> leaf + 1 < |s|)
    ensures var next := |r.w|;
            var root2 := root + (if inner1 then 1 else 0) + (if inner2 then 1 else 0);
            var leaf2 := leaf + (if inner1 then 0 else 1) + (if inner2 then 0 else 1);
            var t := Stepped(s, next, root, leaf, inner1, inner2);
            var r' := Extended(r, t[next], root2);
            Running(r') && r'.Leaf(next + 1) == leaf2 && Holds(t, r')
  {
    hide r.Shape, r.StepShape, r.Greedy, Ascending, Sum, Heads, Picked, Holds, HoldsParents, Written, Stepped;
    HoldsNodes(s, r);
    var next := |r.w|;
    var root2 := root + (if inner1 then 1 else 0) + (if inner2 then 1 else 0);
    var leaf2 := leaf + (if inner1 then 0 else 1) + (if inner2 then 0 else 1);
    TwoLighterHeads(r, root, leaf, inner1, inner2);
    PickedSum(r, root, leaf, inner1, inner2, root2, leaf2);
    Extend(r, root2, leaf2);
    var r' := Extended(r, Picked(r, root2, leaf2)[0] + Picked(r, root2, leaf2)[1], root2);
    SumsFit(r', next);
    var t := Stepped(s, next, root, leaf, inner1, inner2);
    SteppedIsWritten(s, r, root, leaf, inner1, inner2, root2, leaf2);
    WrittenHolds(s, t, r, root2, leaf2);
    WrittenSum(s, t, r, root2, leaf2);
  }

  lemma WrittenSum(s: seq<nat>, t: seq<nat>, r: Run, root: nat, leaf: nat)
    requires r.Shape() && |s| == |t| == |r.f| && Heads(r, root, leaf) && |r.w| < |r.f|
    requires Written(s, t, r, root, leaf) && |Picked(r, root, leaf)| == 2
    ensures t[|r.w|] == Picked(r, root, leaf)[0] + Picked(r, root, leaf)[1]
  {
  }

  lemma SteppedIsWritten(s: seq<nat>, r: Run, root: nat, leaf: nat, inner1: bool, inner2: bool, root2: nat, leaf2: nat)
    requires r.Shape() && |s| == |r.f| && Heads(r, root2, leaf2) && |r.w| < |r.f| && |r.roots| == |r.w| + 1
    requires root == r.roots[|r.w|] && leaf == r.Leaf(|r.w|)
    requires root < |r.w| < leaf && (inner1 || leaf < |s|)
    requires if inner2 then inner1 ==> root + 1 < |r.w| else (if inner1 then leaf else leaf + 1) < |s|
    requires root2 == root + (if inner1 then 1 else 0) + if inner2 then 1 else 0
    requires Holds(s, r) && |Picked(r, root2, leaf2)| == 2
    requires Picked(r, root2, leaf2)[0] + Picked(r, root2, leaf2)[1] <= 65535
    requires Picked(r, root2, leaf2)[0] + Picked(r, root2, leaf2)[1]
             == (if inner1 then r.w[root] else r.f[leaf])
                + if inner2 then (if inner1 then r.w[root + 1] else r.w[root]) else (if inner1 then r.f[leaf] else r.f[leaf + 1])
    ensures Written(s, Stepped(s, |r.w|, root, leaf, inner1, inner2), r, root2, leaf2)
  {
    hide r.Shape, Picked, Holds, Heads;
    HoldsNodes(s, r);
  }

  lemma FirstHolds(f: seq<nat>, s: seq<nat>, r: Run)
    requires |f| >= 2 && r == Run(f, [f[0] + f[1]], [0, 0]) && s == f[0 := f[0] + f[1]] && r.Shape()
    ensures Holds(s, r)
  {
  }

  lemma Complete(r: Run)
    requires r.Shape() && |r.f| >= 2 && |r.w| == |r.f| - 1
    ensures r.Complete()
  {
    r.LeafBounds(|r.w| - 1);
  }

  /** One step: the lighter of the two heads, then the lighter of the two heads that are left. */
  method JoinTwo(a: array<nat>, root0: nat, leaf0: nat, next: nat) returns (root: nat, leaf: nat)
    requires root0 < next < leaf0 && next < a.Length <= 65535
    requires Inner2(a[..], next, root0, leaf0) && Inner1(a[..], root0, leaf0) ==> root0 + 1 < next
    requires !Inner2(a[..], next, root0, leaf0) && !Inner1(a[..], root0, leaf0) ==> leaf0 + 1 < a.Length
    modifies a
    ensures var s := old(a[..]);
            var inner1, inner2 := Inner1(s, root0, leaf0), Inner2(s, next, root0, leaf0);
            && root == root0 + (if inner1 then 1 else 0) + (if inner2 then 1 else 0)
            && leaf == leaf0 + (if inner1 then 0 else 1) + (if inner2 then 0 else 1)
            && a[..] == Stepped(s, next, root0, leaf0, inner1, inner2)
  {
    root, leaf := root0, leaf0;
    if leaf >= a.Length || a[root] < a[leaf] {
      a[next] := a[root];
      a[root], root := next % 65536, root + 1;
    } else {
      a[next] := a[leaf];
      leaf := leaf + 1;
    }
    if leaf >= a.Length || (root < next && a[root] < a[leaf]) {
      a[next] := (a[next] + a[root]) % 65536;
      a[root], root := next % 65536, root + 1;
    } else {
      a[next] := (a[next] + a[leaf]) % 65536;
      leaf := leaf + 1;
    }
  }

  /** The loop that joins the two lightest nodes until one is left (lines 1840 to 1845). */
  method Join(a: array<nat>) returns (ghost r: Run)
    requires a.Length >= 2 && Ascending(a[..]) && Positive(a[..]) && Sum(a[..]) <= 65535
    modifies a
    ensures r.Complete() && r.Greedy() && r.f == old(a[..])
    ensures HoldsParents(a[..], r)
  {
    hide r.Shape, r.StepShape, r.Greedy, Ascending, Sum, Positive, Heads, Picked, Holds, HoldsParents, Inner1, Inner2, Stepped;
    var n := a.Length;
    ghost var f := a[..];
    FirstStep(f);
    r := Run(f, [f[0] + f[1]], [0, 0]);
    SumsFit(r, 0);
    PositiveSum(f);
    assert f[0] == a[0] && f[1] == a[1];
    a[0] := (a[0] + a[1]) % 65536;
    var root, leaf, next := 0, 2, 1;
    FirstHolds(f, a[..], r);
    while next < n - 1
      invariant 1 <= next <= n - 1 && |r.w| == next && r.f == f && Running(r)
      invariant |r.roots| == next + 1 && root == r.roots[next] && leaf == r.Leaf(next)
      invariant Holds(a[..], r)
    {
      ghost var s := a[..];
      HoldsNodes(s, r);
      ghost var inner1, inner2 := Inner1(s, root, leaf), Inner2(s, next, root, leaf);
      StepTaken(s, r, root, leaf, inner1, inner2);
      ghost var t := Stepped(s, next, root, leaf, inner1, inner2);
      root, leaf := JoinTwo(a, root, leaf, next);
      r := Extended(r, t[next], root);
      next := next + 1;
    }
    Complete(r);
    HoldsTheParents(a[..], r);
  }

  // ---------------------------------------------------------------- depths of the inner nodes, in place

  /** Every inner node above `low` is one level below the node it was joined into. */
  ghost predicate DeepAbove(s: seq<nat>, r: Run, low: int)
    requires r.Complete() && |s| == |r.f|
  {
    forall i: nat, k: nat :: low < i < |r.w| - 1 && JoinedAt(r, i, k) ==> k < |r.w| && s[i] == s[k] + 1
  }

  ghost predicate ParentsUpTo(s: seq<nat>, r: Run, low: int)
    requires |s| == |r.f|
  {
    forall i: nat, k: nat :: i <= low && i < |s| && JoinedAt(r, i, k) ==> s[i] == k
  }

  lemma ParentOf(r: Run, i: nat) returns (k: nat)
    requires r.Complete() && i < |r.w| - 1
    ensures i < k < |r.w| && JoinedAt(r, i, k) && forall j: nat :: JoinedAt(r, i, j) ==> j == k
  {
    k := FindStep(r, i, |r.w|);
    forall j: nat | JoinedAt(r, i, j) ensures j == k {
      if j < k { RootsMonotone(r, j + 1, k); } else if k < j { RootsMonotone(r, k + 1, j); }
    }
  }

  lemma DeepOneMore(s: seq<nat>, r: Run, i: nat)
    requires r.Complete() && |s| == |r.f| && i < |r.w| - 1
    requires DeepAbove(s, r, i) && ParentsUpTo(s, r, i)
    ensures i < s[i] < |r.w|
    ensures var t := s[i := s[s[i]] + 1]; DeepAbove(t, r, i - 1) && ParentsUpTo(t, r, i - 1)
  {
    hide r.Shape;
    var p := ParentOf(r, i);
    var t := s[i := s[p] + 1];
    forall j: nat, k: nat | i - 1 < j < |r.w| - 1 && JoinedAt(r, j, k) ensures k < |r.w| && t[j] == t[k] + 1 {
      var q := ParentOf(r, j);
    }
  }

  /** The loop that turns parents into depths (line 1846). */
  method ParentsToDepths(a: array<nat>, ghost r: Run)
    requires r.Complete() && a.Length == |r.f| && HoldsParents(a[..], r)
    modifies a
    ensures DeepAbove(a[..], r, -1) && a[|r.w| - 1] == 0
  {
    hide DeepAbove, ParentsUpTo;
    var n := a.Length;
    a[n - 2] := 0;
    DeepStart(a[..], r);
    var next := n - 3;
    while next >= 0
      invariant -1 <= next <= n - 3 && a[n - 2] == 0
      invariant DeepAbove(a[..], r, next) && ParentsUpTo(a[..], r, next)
    {
      DeepOneMore(a[..], r, next);
      ghost var s := a[..];
      a[next] := a[a[next]] + 1;
      assert a[..] == s[next := s[s[next]] + 1];
      next := next - 1;
    }
  }

  lemma DeepStart(s: seq<nat>, r: Run)
    requires r.Complete() && |s| == |r.f|
    requires exists t :: |t| == |s| && HoldsParents(t, r) && s == t[|s| - 2 := 0]
    ensures DeepAbove(s, r, |s| - 3) && ParentsUpTo(s, r, |s| - 3)
  {
  }

  // ---------------------------------------------------------------- depths of the leaves

  ghost function LeafDepths(r: Run, d: seq<nat>, k: nat): (ld: seq<nat>)
    requires r.Shape() && |d| == |r.w| && k <= |r.w|
    ensures r.Leaf(k) >= 0 && |ld| == r.Leaf(k)
  {
    r.ItemBounds(k);
    if k == 0 then [] else
      r.LeafBounds(k - 1);
      LeafDepths(r, d, k - 1) + Repeated(d[k - 1] + 1, r.Leaf(k) - r.Leaf(k - 1))
  }

  lemma {:induction false} LeafDepthsAt(r: Run, d: seq<nat>, top: nat, k: nat)
    requires r.Shape() && |d| == |r.w| && k < top <= |r.w|
    ensures 0 <= r.Leaf(k) <= r.Leaf(k + 1) <= r.Leaf(top)
    ensures forall i :: r.Leaf(k) <= i < r.Leaf(k + 1) ==> LeafDepths(r, d, top)[i] == d[k] + 1
  {
    r.LeafBounds(top - 1);
    r.LeafBounds(k);
    RootsMonotone(r, k + 1, top);
    if k < top - 1 {
      LeafDepthsAt(r, d, top - 1, k);
    }
  }

  lemma DepthsHold(r: Run, s: seq<nat>) returns (ld: seq<nat>)
    requires r.Complete() && |s| == |r.f| && DeepAbove(s, r, -1) && s[|r.w| - 1] == 0
    ensures Depths(r, s[..|r.w|], ld)
  {
    var d := s[..|r.w|];
    var n := |r.w|;
    ld := LeafDepths(r, d, n);
    forall k | 0 <= k < n ensures StepDepths(r, d, ld, k) {
      r.LeafBounds(k);
      LeafDepthsAt(r, d, n, k);
      RootsMonotone(r, k + 1, n);
      forall i | r.roots[k] <= i < r.roots[k + 1] ensures d[i] == d[k] + 1 {
        assert JoinedAt(r, i, k);
      }
    }
  }

  // ---------------------------------------------------------------- the lengths of the leaves, in place

  /** The inner nodes up to `root` and the leaves up to `next` are the ones at depth `level` and below. */
  ghost predicate Level(r: Run, d: seq<nat>, ld: seq<nat>, level: nat, root: int, next: int)
    requires |d| == |r.w| && |ld| == |r.f|
  {
    && -1 <= root < |d| && -1 <= next < |ld|
    && (forall i :: 0 <= i < |d| ==> (i <= root <==> d[i] >= level))
    && (forall j :: 0 <= j < |ld| ==> (j <= next <==> ld[j] >= level))
  }

  lemma CompleteSizes(r: Run, d: seq<nat>, ld: seq<nat>)
    requires r.Complete() && Depths(r, d, ld)
    ensures |d| == |r.w| >= 1 && |ld| == |r.f| == |r.w| + 1 == |r.roots| && d[|d| - 1] == 0
  {
  }

  lemma FirstLevel(r: Run, d: seq<nat>, ld: seq<nat>, s: seq<nat>)
    requires r.Complete() && Depths(r, d, ld) && |s| == |ld| && s[..|d|] == d
    ensures Level(r, d, ld, 0, |d| - 1, |ld| - 1) && HoldsDepths(s, d, ld, |d| - 1, |ld| - 1)
  {
    hide r.Shape;
    assert forall i :: 0 <= i < |d| ==> s[i] == s[..|d|][i];
  }

  /** With the inner nodes of this level counted, the leaves of this level are known. */
  lemma NextLevel(r: Run, d: seq<nat>, ld: seq<nat>, level: nat, root: int, next: int, root': int)
    requires r.Complete() && Depths(r, d, ld) && Level(r, d, ld, level, root, next)
    requires -1 <= root' <= root && forall i :: 0 <= i < |d| ==> (i <= root' <==> d[i] >= level + 1)
    ensures Level(r, d, ld, level + 1, root', 2 * root - root')
    ensures 2 * root - root' <= next && (0 <= root ==> root' < root)
  {
    hide Depths, StepDepths, r.Shape;
    CompleteSizes(r, d, ld);
    LevelRoots(r, d, ld, level, root, next, root');
    LevelLeaves(r, d, ld, level, root, next);
    if 0 <= root { r.LeafBounds(root); }
    assert r.Leaf(root + 1) == 2 * root - root' + 1;
    assert 2 * root - root' <= next by { LevelFits(ld, level, next, 2 * root - root'); }
  }

  lemma LevelFits(ld: seq<nat>, level: nat, next: int, last: int)
    requires -1 <= next < |ld| && last < |ld| && forall j :: 0 <= j < |ld| ==> (j <= next <==> ld[j] >= level)
    requires 0 <= last ==> ld[last] >= level
    ensures last <= next
  {
  }

  lemma LevelRoot(r: Run, d: seq<nat>, ld: seq<nat>, level: nat, root: int, next: int, i: nat)
    requires r.Complete() && Depths(r, d, ld) && Level(r, d, ld, level, root, next) && i < |d|
    ensures i < r.roots[root + 1] <==> d[i] >= level + 1
  {
    var n := |d|;
    RootsMonotone(r, root + 1, n);
    if i < n - 1 {
      var p := FindStep(r, i, n);
      assert StepDepths(r, d, ld, p);
      if p <= root { RootsMonotone(r, p + 1, root + 1); } else { RootsMonotone(r, root + 1, p); }
    }
  }

  lemma LevelRoots(r: Run, d: seq<nat>, ld: seq<nat>, level: nat, root: int, next: int, root': int)
    requires r.Complete() && Depths(r, d, ld) && Level(r, d, ld, level, root, next)
    requires -1 <= root' <= root && forall i :: 0 <= i < |d| ==> (i <= root' <==> d[i] >= level + 1)
    ensures r.roots[root + 1] == root' + 1
  {
    RootsMonotone(r, root + 1, |d|);
    if r.roots[root + 1] > root' + 1 {
      LevelRoot(r, d, ld, level, root, next, root' + 1);
    } else if r.roots[root + 1] < root' + 1 {
      LevelRoot(r, d, ld, level, root, next, root');
    }
  }

  lemma LevelLeaves(r: Run, d: seq<nat>, ld: seq<nat>, level: nat, root: int, next: int)
    requires r.Complete() && Depths(r, d, ld) && Level(r, d, ld, level, root, next)
    ensures forall j :: 0 <= j < |ld| ==> (j < r.Leaf(root + 1) <==> ld[j] >= level + 1)
    ensures 0 <= r.Leaf(root + 1) <= |ld|
  {
    var n := |d|;
    RootsMonotone(r, root + 1, n);
    r.ItemBounds(root + 1);
    forall j: nat | j < |ld| ensures j < r.Leaf(root + 1) <==> ld[j] >= level + 1 {
      var p := FindLeafStep(r, j, n);
      assert StepDepths(r, d, ld, p);
      if p <= root { RootsMonotone(r, p + 1, root + 1); } else { RootsMonotone(r, root + 1, p); }
    }
  }

  /** What the array holds while the leaves' lengths are written over the depths. */
  ghost predicate HoldsDepths(s: seq<nat>, d: seq<nat>, ld: seq<nat>, root: int, next: int)
    requires |s| == |ld| > |d|
  {
    && (forall i :: 0 <= i <= root && i < |d| ==> s[i] == d[i])
    && (forall j :: 0 <= j && next < j < |ld| ==> s[j] == ld[j])
  }

  /** The loop that counts the nodes of each level and hands their depth to the leaves (lines 1847 to 1853). */
  method DepthsToLengths(a: array<nat>, ghost r: Run, ghost d: seq<nat>, ghost ld: seq<nat>)
    requires r.Complete() && Depths(r, d, ld) && a.Length == |r.f| && a[..|r.w|] == d
    requires (forall i :: 0 <= i < |d| ==> d[i] <= 29) && forall i :: 0 <= i < |ld| ==> ld[i] <= 30
    modifies a
    ensures a[..] == ld
  {
    hide Depths, r.Shape;
    var n := a.Length;
    CompleteSizes(r, d, ld);
    FirstLevel(r, d, ld, a[..]);
    var avbl, used, dpth, root, next := 1, 0, 0, n - 2, n - 1;
    while avbl > 0
      invariant Level(r, d, ld, dpth, root, next) && HoldsDepths(a[..], d, ld, root, next)
      invariant 0 <= avbl == next - root && used == 0 && (avbl == 0 ==> next == -1)
      decreases root + next + 2
    {
      ghost var root0, next0 := root, next;
      while root >= 0 && a[root] == dpth
        invariant -1 <= root <= root0 && used == root0 - root
        invariant forall i :: root < i <= root0 ==> d[i] == dpth
      {
        used, root := used + 1, root - 1;
      }
      BelowRoot(r, d, ld, dpth, root0, next0, root);
      NextLevel(r, d, ld, dpth, root0, next0, root);
      while avbl > used
        invariant used <= avbl <= next0 - root0 && next == next0 - (next0 - root0 - avbl)
        invariant HoldsDepths(a[..], d, ld, root, next)
      {
        a[next] := dpth % 65536;
        next, avbl := next - 1, avbl - 1;
      }
      avbl, dpth, used := 2 * used, dpth + 1, 0;
    }
  }

  lemma BelowRoot(r: Run, d: seq<nat>, ld: seq<nat>, level: nat, root0: int, next: int, root: int)
    requires r.Complete() && Depths(r, d, ld) && Level(r, d, ld, level, root0, next) && -1 <= root <= root0
    requires forall i :: root < i <= root0 ==> d[i] == level
    requires root < 0 || d[root] != level
    ensures forall i :: 0 <= i < |d| ==> (i <= root <==> d[i] >= level + 1)
  {
    forall i: nat | i <= root ensures d[i] >= level + 1 {
      InnerDepthsFall(r, d, ld, i, root);
    }
  }

  // ---------------------------------------------------------------- the whole function

  /** Lines 1836 to 1854: the frequencies are replaced by the lengths of a cheapest prefix code, without any
      16-bit field overflowing. */
  method CalculateMinimumRedundancy(a: array<nat>)
    requires Ascending(a[..]) && Positive(a[..]) && Sum(a[..]) <= 65535
    modifies a
    ensures a.Length == 1 ==> a[0] == 1
    ensures a.Length >= 2 ==> IsMinimal(old(a[..]), a[..])
  {
    hide Ascending, Positive, Sum, IsMinimal;
    if a.Length == 0 {
    } else if a.Length == 1 {
      a[0] := 1;
    } else {
      ghost var f := a[..];
      ghost var r := Join(a);
      ParentsToDepths(a, r);
      ghost var d := a[..|r.w|];
      assert a[..][..|r.w|] == d;
      ghost var ld := DepthsHold(r, a[..]);
      DepthIsBounded(r, d, ld);
      DepthsToLengths(a, r, d, ld);
      LeavesAreMinimal(r, d, ld);
    }
  }

  lemma LeavesAreMinimal(r: Run, d: seq<nat>, ld: seq<nat>)
    requires r.Complete() && r.Greedy() && Depths(r, d, ld)
    requires (forall i :: 0 <= i < |d| ==> d[i] <= 29) && (forall i :: 0 <= i < |ld| ==> ld[i] <= 30)
    ensures IsMinimal(r.f, ld)
  {
    hide r.Greedy, r.Shape, Cost, Kraft;
    LeavesAreOptimal(r, d, ld);
    LeavesAreFull(r, d, ld, 32);
    forall i: nat, j: nat | i <= j < |ld| ensures ld[i] >= ld[j] >= 1 {
      LeafDepthsFall(r, d, ld, i, j);
    }
  }
}
