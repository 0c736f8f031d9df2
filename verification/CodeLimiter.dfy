/** `tdefl_huffman_enforce_max_code_size` of `src/miniz.c`: shortens the codes that are too long, and
    lengthens others until they fit again.  Also the loop that hands the lengths out to the symbols. */
module CodeLimiter {
  import opened Bits

  const LONGEST := 32

  /** The code space that the codes of up to `i` bits take, in units of the space of one `i`-bit code. */
  function Space(num: seq<int>, i: nat): int
    requires i < |num|
  {
    if i == 0 then 0 else 2 * Space(num, i - 1) + num[i]
  }

  /** How many codes have up to `i` bits. */
  function Number(num: seq<int>, i: nat): int
    requires i < |num|
  {
    if i == 0 then 0 else Number(num, i - 1) + num[i]
  }

  ghost predicate NonNegative(num: seq<int>) {
    forall i :: 0 <= i < |num| ==> num[i] >= 0
  }

  // ---------------------------------------------------------------- arithmetic of the two sums

  lemma {:induction false} NumberGrows(num: seq<int>, i: nat, j: nat)
    requires i <= j < |num| && NonNegative(num)
    ensures 0 <= Number(num, i) <= Number(num, j)
  {
    if i < j {
      NumberGrows(num, i, j - 1);
    } else if i > 0 {
      NumberGrows(num, i - 1, i - 1);
    }
  }

  lemma {:induction false} SameBelow(num: seq<int>, other: seq<int>, i: nat)
    requires i < |num| == |other| && forall k :: 1 <= k <= i ==> num[k] == other[k]
    ensures Space(num, i) == Space(other, i) && Number(num, i) == Number(other, i)
  {
    if i > 0 {
      SameBelow(num, other, i - 1);
    }
  }

  /** What codes longer than `k` bits take of a full code: at least one unit, at most one each. */
  lemma {:induction false} SpaceLeft(num: seq<int>, k: nat)
    requires |num| == LONGEST + 1 && NonNegative(num) && Space(num, LONGEST) == Pow2(LONGEST) && k <= LONGEST
    ensures 0 <= Pow2(k) - Space(num, k) <= Number(num, LONGEST) - Number(num, k)
    ensures Number(num, k) < Number(num, LONGEST) ==> Space(num, k) < Pow2(k)
    decreases LONGEST - k
  {
    if k < LONGEST {
      SpaceLeft(num, k + 1);
      NumberGrows(num, k, k + 1);
    }
  }

  /** The counts with every longer code counted as one of `max` bits. */
  ghost function Folded(num: seq<int>, max: nat): (r: seq<int>)
    requires 1 <= max <= LONGEST && |num| == LONGEST + 1
    ensures |r| == |num|
  {
    num[max := num[max] + Number(num, LONGEST) - Number(num, max)]
  }

  lemma FoldedSums(num: seq<int>, max: nat)
    requires 1 <= max <= LONGEST && |num| == LONGEST + 1 && NonNegative(num) && Space(num, LONGEST) == Pow2(LONGEST)
    ensures var r := Folded(num, max);
            && NonNegative(r) && Number(r, max) == Number(num, LONGEST)
            && Pow2(max) <= Space(r, max) <= Pow2(max) + Number(num, LONGEST)
            && (Space(r, max) > Pow2(max) ==> r[max] >= Space(r, max) - Pow2(max) + 1)
            && (Number(num, max) == Number(num, LONGEST) ==> r == num && Space(r, max) == Pow2(max))
  {
    hide Space, Number, Pow2;
    var r := Folded(num, max);
    NumberGrows(num, max, LONGEST);
    SpaceLeft(num, max);
    SameBelow(num, r, max - 1);
    LastSummand(num, max);
    LastSummand(r, max);
  }

  lemma LastSummand(num: seq<int>, i: nat)
    requires 1 <= i < |num|
    ensures Space(num, i) == 2 * Space(num, i - 1) + num[i] && Number(num, i) == Number(num, i - 1) + num[i]
  {
  }

  /** One code of `i` bits becomes two of `i + 1`, one of them in place of a code of `max` bits. */
  ghost function Demoted(num: seq<int>, i: nat, max: nat): (r: seq<int>)
    requires 1 <= i < max < |num|
    ensures |r| == |num|
  {
    var fewer := num[max := num[max] - 1];
    var moved := fewer[i := fewer[i] - 1];
    moved[i + 1 := moved[i + 1] + 2]
  }

  lemma {:induction false} DemotedSums(num: seq<int>, i: nat, max: nat, k: nat)
    requires 1 <= i < max < |num| && k <= max
    ensures Space(Demoted(num, i, max), k) == Space(num, k) - if k == i || k == max then 1 else 0
    ensures Number(Demoted(num, i, max), k) == Number(num, k) + if k < i || k == max then 0 else if k == i then -1 else 1
  {
    var r := Demoted(num, i, max);
    if k > 0 {
      DemotedSums(num, i, max, k - 1);
    }
  }

  /** No code of fewer than `max` bits is left: then all are `max` bits long. */
  lemma {:induction false} NoneShorter(num: seq<int>, k: nat)
    requires k < |num| && forall i :: 1 <= i <= k ==> num[i] == 0
    ensures Space(num, k) == 0 && Number(num, k) == 0
  {
    if k > 0 {
      NoneShorter(num, k - 1);
    }
  }

  /** The longest length of up to `i` bits that some code has, or 0. */
  ghost function Longest(num: seq<int>, i: nat): (r: nat)
    requires i < |num|
    ensures r <= i && (r > 0 ==> num[r] != 0) && forall k :: r < k <= i ==> num[k] == 0
  {
    if i == 0 || num[i] != 0 then i else Longest(num, i - 1)
  }

  /** `rounds` demotions of a longest code below the limit. */
  ghost function Limited(num: seq<int>, max: nat, rounds: nat): (r: seq<int>)
    requires 1 <= max < |num|
    ensures |r| == |num|
  {
    if rounds == 0 then num
    else
      var t := Limited(num, max, rounds - 1);
      var i := Longest(t, max - 1);
      if i == 0 then t else Demoted(t, i, max)
  }

  /** As many demotions as the folded code takes too much space. */
  ghost function LimitedCounts(num: seq<int>, max: nat): seq<int>
    requires 1 <= max <= LONGEST && |num| == LONGEST + 1
  {
    var over := Space(Folded(num, max), max) - Pow2(max);
    Limited(Folded(num, max), max, if over < 0 then 0 else over)
  }

  // ---------------------------------------------------------------- the limiter

  /** The codes of more than `max` bits are counted as codes of `max` bits (line 1861). */
  method Fold(num: array<int>, max: nat)
    requires num.Length == LONGEST + 1 && 1 <= max <= LONGEST
    modifies num
    ensures num[..] == Folded(old(num[..]), max)
  {
    ghost var s := num[..];
    var i := max + 1;
    while i <= LONGEST
      invariant max < i <= LONGEST + 1
      invariant num[..] == s[max := s[max] + Number(s, i - 1) - Number(s, max)]
    {
      num[max] := num[max] + num[i];
      i := i + 1;
    }
  }

  lemma ShiftedTerm(space: int, term: int, p: nat)
    ensures (2 * space + term) * p == space * (2 * p) + term * p
  {
  }

  lemma Products(a: int, b: int, p: nat)
    requires a >= 0 && b >= 0
    ensures a * p >= 0 && b * p >= 0
  {
  }

  /** The space the codes take, as the 32-bit sum of line 1862. */
  method CodeSpace(num: array<int>, max: nat) returns (total: nat)
    requires num.Length == LONGEST + 1 && 1 <= max <= LONGEST && NonNegative(num[..])
    requires Space(num[..], max) < 0x1_0000_0000
    ensures total == Space(num[..], max)
  {
    hide Space, Pow2;
    ghost var s := num[..];
    total := 0;
    var i := max;
    LastTerm(s, max);
    while i > 0
      invariant 0 <= i <= max
      invariant total + Space(s, i) * Pow2(max - i) == Space(s, max)
    {
      OneTerm(s, i, max);
      total := (total + num[i] * Pow2(max - i) % 0x1_0000_0000) % 0x1_0000_0000;
      i := i - 1;
    }
    FirstTerm(s, max);
  }

  lemma LastTerm(s: seq<int>, max: nat)
    requires max < |s|
    ensures Space(s, max) * Pow2(max - max) == Space(s, max)
  {
  }

  lemma FirstTerm(s: seq<int>, max: nat)
    requires max < |s|
    ensures Space(s, 0) * Pow2(max) == 0
  {
  }

  lemma OneTerm(s: seq<int>, i: nat, max: nat)
    requires 1 <= i <= max < |s| && NonNegative(s)
    ensures Space(s, i) * Pow2(max - i) == Space(s, i - 1) * Pow2(max - (i - 1)) + s[i] * Pow2(max - i)
    ensures Space(s, i - 1) * Pow2(max - (i - 1)) >= 0 && s[i] * Pow2(max - i) >= 0
  {
    ShiftedTerm(Space(s, i - 1), s[i], Pow2(max - i));
    SpaceNotNegative(s, i - 1);
    Products(Space(s, i - 1), s[i], Pow2(max - (i - 1)));
    Products(Space(s, i - 1), s[i], Pow2(max - i));
  }

  lemma {:induction false} SpaceNotNegative(s: seq<int>, i: nat)
    requires i < |s| && NonNegative(s)
    ensures Space(s, i) >= 0
  {
    if i > 0 {
      SpaceNotNegative(s, i - 1);
    }
  }

  /** One round of the loop of lines 1863 to 1868: the longest code below the limit is demoted. */
  method Demote(num: array<int>, max: nat)
    requires num.Length == LONGEST + 1 && 1 <= max <= LONGEST && NonNegative(num[..])
    requires num[max] > 0 && Number(num[..], max) <= Pow2(max) < Space(num[..], max)
    modifies num
    ensures NonNegative(num[..])
    ensures var i := Longest(old(num[..]), max - 1); 1 <= i < max && num[..] == Demoted(old(num[..]), i, max)
  {
    ghost var s := num[..];
    num[max] := num[max] - 1;
    var i := max - 1;
    while i > 0 && num[i] == 0
      invariant 0 <= i < max
      invariant Longest(s, max - 1) == Longest(s, i)
    {
      i := i - 1;
    }
    if i > 0 {
      num[i] := num[i] - 1;
      num[i + 1] := num[i + 1] + 2;
      assert num[..] == Demoted(s, i, max);
    } else {
      assert Longest(s, max - 1) == 0;
      NoneShorter(s, max - 1);
      assert false;
    }
  }

  /** A full code stays full and keeps its number of codes, and no code is longer than `max` bits;
      a code that fits is left alone. */
  method EnforceMaxCodeSize(num: array<int>, listLen: nat, max: nat)
    requires num.Length == LONGEST + 1 && 1 <= max <= 30
    requires listLen > 1 ==> NonNegative(num[..]) && Space(num[..], LONGEST) == Pow2(LONGEST)
    requires listLen > 1 ==> Number(num[..], LONGEST) == listLen <= Pow2(max)
    modifies num
    ensures listLen <= 1 ==> num[..] == old(num[..])
    ensures listLen > 1 ==> NonNegative(num[..]) && Space(num[..], max) == Pow2(max) && Number(num[..], max) == listLen
    ensures listLen > 1 ==> num[..] == LimitedCounts(old(num[..]), max)
    ensures listLen > 1 && Number(old(num[..]), max) == listLen ==> num[..] == old(num[..])
  {
    hide Space, Number, Pow2, Longest, Demoted, Folded;
    if listLen > 1 {
      ghost var s := num[..];
      FoldedSums(s, max);
      LimitIsSmall(max);
      Fold(num, max);
      ghost var folded, rounds: nat := num[..], 0;
      var total := CodeSpace(num, max);
      while total != Pow2(max)
        invariant NonNegative(num[..]) && Number(num[..], max) == listLen
        invariant total == Space(num[..], max) >= Pow2(max)
        invariant total > Pow2(max) ==> num[max] >= total - Pow2(max) + 1
        invariant num[..] == Limited(folded, max, rounds) && total + rounds == Space(folded, max)
        invariant Number(s, max) == listLen ==> num[..] == s && total == Pow2(max)
        decreases total
      {
        ghost var t := num[..];
        Demote(num, max);
        DemotedSums(t, Longest(t, max - 1), max, max);
        DemotedMax(t, Longest(t, max - 1), max);
        total, rounds := total - 1, rounds + 1;
      }
    }
  }

  lemma DemotedMax(num: seq<int>, i: nat, max: nat)
    requires 1 <= i < max < |num|
    ensures Demoted(num, i, max)[max] >= num[max] - 1
  {
  }

  lemma LimitIsSmall(max: nat)
    requires max <= 30
    ensures 2 * Pow2(max) <= 0x8000_0000 && Pow2(LONGEST) == 0x1_0000_0000
  {
    Pow2Values();
    Pow2Monotone(max, 30);
  }
}
