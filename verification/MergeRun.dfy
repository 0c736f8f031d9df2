/** The run that `tdefl_calculate_minimum_redundancy` of `src/miniz.c` goes through: which of the sorted
    weights and of the sums made so far each step joins, the tree this gives, and what it costs. */
module MergeRun {
  import opened CodeCost

  /** The leaf weights `f` in ascending order, the weights `w` of the inner nodes in the order they are
      made, and how many inner nodes (`roots[k]`) were joined before step `k`.  Each step joins two nodes. */
  datatype Run = Run(f: seq<nat>, w: seq<nat>, roots: seq<nat>) {

    /** How many leaves were joined before step `k`. */
    function Leaf(k: nat): int
      requires k < |roots|
    {
      2 * k - roots[k]
    }

    ghost predicate Shape() {
      && |roots| == |w| + 1 && roots[0] == 0
      && forall k :: 0 <= k < |w| ==> StepShape(k)
    }

    ghost predicate StepShape(k: nat)
      requires k + 1 < |roots|
    {
      roots[k] <= roots[k + 1] <= roots[k] + 2 && roots[k + 1] <= k && Leaf(k + 1) <= |f|
    }

    /** The two nodes that step `k` joins. */
    ghost function Taken(k: nat): seq<nat>
      requires Shape() && k < |w|
    {
      LeafBounds(k);
      w[roots[k]..roots[k + 1]] + f[Leaf(k)..Leaf(k + 1)]
    }

    /** The nodes that are left then. */
    ghost function Rest(k: nat): multiset<nat>
      requires Shape() && k < |w|
    {
      LeafBounds(k);
      multiset(w[roots[k + 1]..k]) + multiset(f[Leaf(k + 1)..])
    }

    /** The nodes to choose from before step `k`. */
    ghost function Items(k: nat): multiset<nat>
      requires Shape() && k <= |w|
    {
      ItemBounds(k);
      multiset(w[roots[k]..k]) + multiset(f[Leaf(k)..])
    }

    lemma ItemBounds(k: nat)
      requires Shape() && k <= |w|
      ensures roots[k] <= k && 0 <= Leaf(k) && (k > 0 ==> roots[k] < k && Leaf(k) <= |f|) && Leaf(0) == 0
    {
      if k > 0 {
        assert StepShape(k - 1);
      }
    }

    lemma LeafBounds(k: nat)
      requires Shape() && k < |w|
      ensures roots[k] <= roots[k + 1] <= k && 0 <= Leaf(k) <= Leaf(k + 1) <= |f|
      ensures |w[roots[k]..roots[k + 1]] + f[Leaf(k)..Leaf(k + 1)]| == 2
    {
      assert StepShape(k);
      ItemBounds(k);
    }

    /** Each step joins two nodes that nothing left is lighter than. */
    ghost predicate StepGreedy(k: nat)
      requires Shape() && k < |w|
    {
      LeafBounds(k);
      && w[k] == Taken(k)[0] + Taken(k)[1]
      && forall x :: x in Rest(k) ==> Taken(k)[0] <= x && Taken(k)[1] <= x
    }

    ghost predicate Greedy()
      requires Shape()
    {
      forall k :: 0 <= k < |w| ==> StepGreedy(k)
    }

    /** All leaves are joined into one tree. */
    ghost predicate Complete() {
      Shape() && |f| >= 2 && |w| == |f| - 1 && roots[|w|] == |w| - 1
    }

    // ------------------------------------------------------------ the items

    lemma ItemsSplit(k: nat)
      requires Shape() && k < |w|
      ensures Items(k) == multiset(Taken(k)) + Rest(k)
      ensures Items(k + 1) == Rest(k) + multiset([w[k]])
    {
      ItemsAre(k);
      ItemsAreNext(k);
    }

    lemma ItemsAre(k: nat)
      requires Shape() && k < |w|
      ensures Items(k) == multiset(Taken(k)) + Rest(k)
    {
      LeafBounds(k);
      MultisetCut(w, roots[k], roots[k + 1], k);
      MultisetCut(f, Leaf(k), Leaf(k + 1), |f|);
      assert f[Leaf(k)..|f|] == f[Leaf(k)..] && f[Leaf(k + 1)..|f|] == f[Leaf(k + 1)..];
      MultisetConcat(w[roots[k]..roots[k + 1]], f[Leaf(k)..Leaf(k + 1)]);
      Regroup(multiset(w[roots[k]..roots[k + 1]]), multiset(w[roots[k + 1]..k]), multiset(f[Leaf(k)..Leaf(k + 1)]), multiset(f[Leaf(k + 1)..]));
    }

    lemma ItemsAreNext(k: nat)
      requires Shape() && k < |w|
      ensures Items(k + 1) == Rest(k) + multiset([w[k]])
    {
      LeafBounds(k);
      ItemBounds(k + 1);
      MultisetCut(w, roots[k + 1], k, k + 1);
      assert w[k..k + 1] == [w[k]];
      RegroupThree(multiset(w[roots[k + 1]..k]), multiset([w[k]]), multiset(f[Leaf(k + 1)..]));
    }

    lemma TakenPair(k: nat)
      requires Shape() && k < |w|
      ensures |Taken(k)| == 2 && Taken(k) == [Taken(k)[0], Taken(k)[1]]
    {
      LeafBounds(k);
    }

    // ------------------------------------------------------------ the lower bound

    lemma StepBound(k: nat, bound: nat)
      requires Shape() && k < |w| && StepGreedy(k)
      requires CostsAtLeast(Items(k + 1), bound)
      ensures CostsAtLeast(Items(k), bound + w[k])
    {
      hide CostsAtLeast, Items, Rest, Taken;
      ItemsSplit(k);
      TakenPair(k);
      var x, y := Taken(k)[0], Taken(k)[1];
      var a: nat, b: nat := if x <= y then x else y, if x <= y then y else x;
      PairSplit(Items(k), Rest(k), x, y, w[k]);
      MergeBound(Items(k), a, b, bound);
    }

    /** No prefix code for the nodes before step `k` costs less than the sums still to be made. */
    lemma LowerBound(k: nat)
      requires Complete() && Greedy() && k <= |w|
      ensures CostsAtLeast(Items(k), Sum(w[k..]))
      decreases |w| - k
    {
      hide CostsAtLeast, Items, StepGreedy;
      if k == |w| {
        NothingCostsLess(Items(k));
        assert w[k..] == [];
      } else {
        LowerBound(k + 1);
        StepBound(k, Sum(w[k + 1..]));
        assert w[k..][1..] == w[k + 1..];
      }
    }
  }

  lemma MultisetConcat(s: seq<nat>, t: seq<nat>)
    ensures multiset(s + t) == multiset(s) + multiset(t)
  {
  }

  lemma Regroup(a: multiset<nat>, b: multiset<nat>, c: multiset<nat>, d: multiset<nat>)
    ensures (a + b) + (c + d) == (a + c) + (b + d)
  {
  }

  lemma RegroupThree(a: multiset<nat>, b: multiset<nat>, c: multiset<nat>)
    ensures (a + b) + c == (a + c) + b
  {
  }

  lemma MultisetCut(s: seq<nat>, a: nat, b: nat, c: nat)
    requires a <= b <= c <= |s|
    ensures multiset(s[a..c]) == multiset(s[a..b]) + multiset(s[b..c])
  {
    assert s[a..c] == s[a..b] + s[b..c];
  }

  lemma PairSplit(items: multiset<nat>, rest: multiset<nat>, x: nat, y: nat, sum: nat)
    requires items == multiset([x, y]) + rest && sum == x + y
    requires forall z :: z in rest ==> x <= z && y <= z
    ensures var a: nat, b: nat := if x <= y then x else y, if x <= y then y else x;
            TwoSmallest(items, a, b) && Merged(items, a, b) == rest + multiset([sum])
  {
    hide TwoSmallest, Merged;
    if x <= y {
      PairOf(x, y);
      LightPair(items, rest, x, y, sum);
    } else {
      PairOf(x, y);
      PairTurned(x, y);
      LightPair(items, rest, y, x, sum);
    }
  }

  lemma PairOf(x: nat, y: nat)
    ensures multiset([x, y]) == multiset{x, y}
  {
  }

  lemma PairTurned(x: nat, y: nat)
    ensures var there: multiset<nat>, back: multiset<nat> := multiset{x, y}, multiset{y, x}; there == back
  {
  }

  lemma LightPair(items: multiset<nat>, rest: multiset<nat>, a: nat, b: nat, sum: nat)
    requires items == multiset{a, b} + rest && a <= b && (forall z :: z in rest ==> b <= z) && sum == a + b
    ensures TwoSmallest(items, a, b) && Merged(items, a, b) == rest + multiset([sum])
  {
    var pair: multiset<nat> := multiset{a, b};
    TakeAway(items, rest, pair);
    SumAlone(sum);
  }

  lemma TakeAway(items: multiset<nat>, rest: multiset<nat>, pair: multiset<nat>)
    requires items == pair + rest
    ensures items - pair == rest && pair <= items
  {
  }

  lemma SumAlone(sum: nat)
    ensures multiset([sum]) == multiset{sum}
  {
  }
}
