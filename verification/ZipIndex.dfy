/** The sorted index of an archive in `src/miniz.c`: the heap sort that makes it, and the searches by name. */
module ZipIndex {
  import opened FileOrder

  // ---------------------------------------------------------------- heaps

  function Parent(k: nat): (p: nat)
    requires k > 0
    ensures p < k
  {
    (k - 1) / 2
  }

  /** `k` is not after its parent, if that lies in the heap. */
  ghost predicate Below(names: seq<Name>, s: seq<nat>, lo: nat, k: nat)
    requires k < |s|
  {
    k > 0 && Parent(k) >= lo ==> NotAfter(names, s[k], s[Parent(k)])
  }

  /** From `lo` up to `n`, apart from what hangs directly under `root`. */
  ghost predicate HeapBut(names: seq<Name>, s: seq<nat>, lo: nat, n: nat, root: nat) {
    && n <= |s|
    && (forall k: nat :: k < n && !(k > 0 && Parent(k) == root) ==> Below(names, s, lo, k))
    && (forall k: nat :: k < n && k > 0 && Parent(k) == root && root > 0 && Parent(root) >= lo
          ==> NotAfter(names, s[k], s[Parent(root)]))
  }

  ghost predicate Heap(names: seq<Name>, s: seq<nat>, lo: nat, n: nat) {
    n <= |s| && forall k: nat :: k < n ==> Below(names, s, lo, k)
  }

  ghost predicate Sorted(names: seq<Name>, s: seq<nat>, lo: nat) {
    forall i: nat, j: nat :: lo <= i <= j < |s| ==> NotAfter(names, s[i], s[j])
  }

  ghost predicate Indices(names: seq<Name>, s: seq<nat>) {
    forall i: nat :: i < |s| ==> s[i] < |names|
  }

  function Swapped(s: seq<nat>, i: nat, j: nat): (r: seq<nat>)
    requires i < |s| && j < |s|
    ensures |r| == |s|
  {
    s[i := s[j]][j := s[i]]
  }

  lemma SwapPermutes(s: seq<nat>, i: nat, j: nat, n: nat)
    requires i < n <= |s| && j < n
    ensures multiset(Swapped(s, i, j)[..n]) == multiset(s[..n])
  {
    var p := s[..n];
    assert Swapped(s, i, j)[..n] == p[i := p[j]][j := p[i]];
    UpdateMultiset(p, i, p[j]);
    UpdateMultiset(p[i := p[j]], j, p[i]);
  }

  lemma UpdateMultiset(p: seq<nat>, i: nat, x: nat)
    requires i < |p|
    ensures multiset(p[i := x]) == multiset(p) - multiset{p[i]} + multiset{x}
  {
  }

  /** The root of a heap comes last. */
  lemma {:induction false} RootIsLast(names: seq<Name>, s: seq<nat>, n: nat, k: nat)
    requires Heap(names, s, 0, n) && k < n && Indices(names, s)
    ensures NotAfter(names, s[k], s[0])
  {
    if k == 0 {
      NotAfterTotal(names, s[0], s[0]);
    } else {
      assert Below(names, s, 0, k);
      RootIsLast(names, s, n, Parent(k));
      NotAfterTransitive(names, s[k], s[Parent(k)], s[0]);
    }
  }

  function Child(root: nat): nat { 2 * root + 1 }

  lemma ChildrenOf(root: nat, k: nat)
    requires k > 0
    ensures Parent(k) == root <==> k == Child(root) || k == Child(root) + 1
  {
  }

  /** Nothing hangs under the root, or nothing there comes after it. */
  lemma SiftDone(names: seq<Name>, s: seq<nat>, lo: nat, n: nat, root: nat)
    requires HeapBut(names, s, lo, n, root) && lo <= root
    requires forall k: nat :: k < n && k > 0 && Parent(k) == root ==> NotAfter(names, s[k], s[root])
    ensures Heap(names, s, lo, n)
  {
  }

  /** The later child takes the root's place. */
  lemma SiftStep(names: seq<Name>, s: seq<nat>, lo: nat, n: nat, root: nat, child: nat)
    requires HeapBut(names, s, lo, n, root) && lo <= root && Indices(names, s)
    requires child < n && child > 0 && Parent(child) == root
    requires forall k: nat :: k < n && k > 0 && Parent(k) == root ==> NotAfter(names, s[k], s[child])
    requires NotAfter(names, s[root], s[child])
    ensures HeapBut(names, Swapped(s, root, child), lo, n, child)
  {
    hide NotAfter, Parent;
    var r := Swapped(s, root, child);
    forall k: nat | k < n && !(k > 0 && Parent(k) == child) ensures Below(names, r, lo, k) {
      if k > 0 && Parent(k) >= lo {
        if k == root {
          assert NotAfter(names, s[child], s[Parent(root)]);
        } else if Parent(k) == root {
        } else {
          assert Below(names, s, lo, k);
        }
      }
    }
    forall k: nat | k < n && k > 0 && Parent(k) == child ensures NotAfter(names, r[k], r[Parent(child)]) {
      assert Below(names, s, lo, k);
    }
  }

  // ---------------------------------------------------------------- the heap sort

  /** What sifting may change: the first `n` indices, and only their order. */
  ghost predicate Permuted(s: seq<nat>, r: seq<nat>, n: nat) {
    n <= |s| == |r| && multiset(r[..n]) == multiset(s[..n]) && r[n..] == s[n..]
  }

  lemma PermutedSwap(s: seq<nat>, r: seq<nat>, i: nat, j: nat, n: nat)
    requires Permuted(s, r, n) && i < n && j < n
    ensures Permuted(s, Swapped(r, i, j), n)
  {
    SwapPermutes(r, i, j, n);
  }

  lemma PermutedIndices(names: seq<Name>, s: seq<nat>, r: seq<nat>, n: nat)
    requires Permuted(s, r, n) && Indices(names, s)
    ensures Indices(names, r)
  {
    forall i: nat | i < |r| ensures r[i] < |names| {
      if i < n {
        assert r[i] in multiset(r[..n]);
        var j :| 0 <= j < n && s[..n][j] == r[i];
      } else {
        assert r[i] == r[n..][i - n] == s[n..][i - n];
      }
    }
  }

  /** The inner loop (lines 3138 to 3146 and 3155 to 3163): the index at `start` sinks to its place. */
  method SiftDown(names: seq<Name>, a: array<nat>, start: nat, n: nat)
    requires start <= n <= a.Length && Indices(names, a[..]) && HeapBut(names, a[..], start, n, start)
    modifies a
    ensures Heap(names, a[..], start, n) && Permuted(old(a[..]), a[..], n) && Indices(names, a[..])
  {
    hide Indices, HeapBut, Heap, Permuted, NotAfter, Swapped, LastChild, Precedes;
    ghost var s := a[..];
    var root := start;
    PermutedSame(s, n);
    while Child(root) < n
      invariant start <= root && HeapBut(names, a[..], start, n, root)
      invariant Permuted(s, a[..], n) && Indices(names, a[..])
      decreases n - root
    {
      var child := PickChild(names, a, root, n);
      ChildInside(names, a[..], root, child, n);
      IndicesAt(names, a[..]);
      var less := FilenameLess(names[a[root]], names[a[child]]);
      if !less {
        RootStays(names, a[..], start, n, root, child);
        return;
      }
      RootSinks(names, a[..], start, n, root, child);
      PermutedSwap(s, a[..], root, child, n);
      SwapInPlace(a, root, child);
      PermutedIndices(names, s, a[..], n);
      root := child;
    }
    NoChildren(names, a[..], start, n, root);
  }

  lemma PermutedSame(s: seq<nat>, n: nat)
    requires n <= |s|
    ensures Permuted(s, s, n)
  {
  }

  lemma IndicesAt(names: seq<Name>, s: seq<nat>)
    requires Indices(names, s)
    ensures forall i: nat :: i < |s| ==> s[i] < |names|
  {
  }

  /** `MZ_SWAP_UINT32`. */
  method SwapInPlace(a: array<nat>, i: nat, j: nat)
    requires i < a.Length && j < a.Length
    modifies a
    ensures a[..] == Swapped(old(a[..]), i, j)
  {
    a[i], a[j] := a[j], a[i];
  }

  /** Neither child comes after `child`. */
  ghost predicate LastChild(names: seq<Name>, s: seq<nat>, root: nat, child: nat, n: nat)
    requires n <= |s|
  {
    && child < n && (child == Child(root) || child == Child(root) + 1)
    && forall k: nat :: k < n && (k == Child(root) || k == Child(root) + 1) ==> NotAfter(names, s[k], s[child])
  }

  /** Line 3142: whether the second child is there and comes after the first. */
  method PickChild(names: seq<Name>, a: array<nat>, root: nat, n: nat) returns (child: nat)
    requires Child(root) < n <= a.Length && Indices(names, a[..])
    ensures LastChild(names, a[..], root, child, n)
  {
    IndicesAt(names, a[..]);
    child := Child(root);
    NotAfterTotal(names, a[child], a[child]);
    if child + 1 < n {
      NotAfterTotal(names, a[child], a[child + 1]);
      NotAfterTotal(names, a[child + 1], a[child + 1]);
      var less := FilenameLess(names[a[child]], names[a[child + 1]]);
      PrecedesTotal(Lower(names[a[child]]), Lower(names[a[child + 1]]));
      child := child + if less then 1 else 0;
    }
  }

  lemma ChildInside(names: seq<Name>, s: seq<nat>, root: nat, child: nat, n: nat)
    requires n <= |s| && LastChild(names, s, root, child, n)
    ensures root < child < n
  {
  }

  lemma RootStays(names: seq<Name>, s: seq<nat>, lo: nat, n: nat, root: nat, child: nat)
    requires HeapBut(names, s, lo, n, root) && lo <= root < n && Indices(names, s)
    requires LastChild(names, s, root, child, n) && !Precedes(Lower(names[s[root]]), Lower(names[s[child]]))
    ensures Heap(names, s, lo, n)
  {
    forall k: nat | k < n && k > 0 && Parent(k) == root ensures NotAfter(names, s[k], s[root]) {
      ChildrenOf(root, k);
      assert NotAfter(names, s[child], s[root]);
      NotAfterTransitive(names, s[k], s[child], s[root]);
    }
    SiftDone(names, s, lo, n, root);
  }

  lemma RootSinks(names: seq<Name>, s: seq<nat>, lo: nat, n: nat, root: nat, child: nat)
    requires HeapBut(names, s, lo, n, root) && lo <= root < n && Indices(names, s)
    requires LastChild(names, s, root, child, n) && Precedes(Lower(names[s[root]]), Lower(names[s[child]]))
    ensures HeapBut(names, Swapped(s, root, child), lo, n, child) && child > root
  {
    PrecedesTotal(Lower(names[s[root]]), Lower(names[s[child]]));
    ChildrenOf(root, child);
    forall k: nat | k < n && k > 0 && Parent(k) == root ensures NotAfter(names, s[k], s[child]) {
      ChildrenOf(root, k);
    }
    SiftStep(names, s, lo, n, root, child);
  }

  lemma NoChildren(names: seq<Name>, s: seq<nat>, lo: nat, n: nat, root: nat)
    requires HeapBut(names, s, lo, n, root) && lo <= root && Child(root) >= n
    ensures Heap(names, s, lo, n)
  {
    forall k: nat | 0 < k < n ensures Parent(k) != root {
      ChildrenOf(root, k);
    }
    SiftDone(names, s, lo, n, root);
  }

  // ---------------------------------------------------------------- sorting

  /** The last `|s| - n` indices are in order and come after the first `n`. */
  ghost predicate Tail(names: seq<Name>, s: seq<nat>, n: nat) {
    && n <= |s| && Sorted(names, s, n)
    && forall i: nat, j: nat :: i < n <= j < |s| ==> NotAfter(names, s[i], s[j])
  }

  /** `mz_zip_reader_sort_central_dir_offsets_by_filename`. */
  method SortByFilename(names: seq<Name>, a: array<nat>)
    requires Indices(names, a[..])
    modifies a
    ensures Sorted(names, a[..], 0) && multiset(a[..]) == multiset(old(a[..])) && Indices(names, a[..])
  {
    hide Indices, HeapBut, Heap, Permuted, NotAfter, Tail, Sorted;
    ghost var s := a[..];
    var size := a.Length;
    var start := (size - 2) / 2;
    PermutedSame(s, size);
    LeavesAreHeap(names, s, start + 1);
    while start >= 0
      invariant -1 <= start < size && Heap(names, a[..], start + 1, size)
      invariant Permuted(s, a[..], size) && Indices(names, a[..])
    {
      HeapBelow(names, a[..], start, size);
      ghost var r := a[..];
      SiftDown(names, a, start, size);
      PermutedTwice(s, r, a[..], size, size);
      start := start - 1;
    }
    var end := size - 1;
    StartTail(names, a[..]);
    while end > 0
      invariant -1 <= end < size && Heap(names, a[..], 0, end + 1) && Tail(names, a[..], end + 1)
      invariant Permuted(s, a[..], size) && Indices(names, a[..])
    {
      ghost var r := a[..];
      LastOut(names, r, end);
      SwapInPlace(a, end, 0);
      PermutedSwap(s, r, end, 0, size);
      PermutedIndices(names, s, a[..], size);
      ghost var t := a[..];
      SiftDown(names, a, 0, end);
      PermutedTwice(s, t, a[..], end, size);
      TailKept(names, t, a[..], end);
      end := end - 1;
    }
    AllSorted(names, s, a[..], end + 1);
  }

  lemma LeavesAreHeap(names: seq<Name>, s: seq<nat>, lo: int)
    requires lo == (|s| - 2) / 2 + 1
    ensures lo >= 0 && Heap(names, s, lo, |s|)
  {
  }

  lemma HeapBelow(names: seq<Name>, s: seq<nat>, lo: nat, n: nat)
    requires Heap(names, s, lo + 1, n)
    ensures HeapBut(names, s, lo, n, lo)
  {
    forall k: nat | k < n && !(k > 0 && Parent(k) == lo) ensures Below(names, s, lo, k) {
      assert Below(names, s, lo + 1, k);
    }
  }

  lemma PermutedTwice(s: seq<nat>, r: seq<nat>, t: seq<nat>, n: nat, m: nat)
    requires Permuted(s, r, m) && Permuted(r, t, n) && n <= m
    ensures Permuted(s, t, m)
  {
    assert r[..m] == r[..n] + r[n..][..m - n] && t[..m] == t[..n] + t[n..][..m - n];
    assert r[m..] == r[n..][m - n..] && t[m..] == t[n..][m - n..];
  }

  lemma StartTail(names: seq<Name>, s: seq<nat>)
    ensures Tail(names, s, |s|)
  {
  }

  /** The root of the heap goes to the end. */
  lemma LastOut(names: seq<Name>, s: seq<nat>, end: nat)
    requires 0 < end < |s| && Heap(names, s, 0, end + 1) && Tail(names, s, end + 1) && Indices(names, s)
    ensures Tail(names, Swapped(s, end, 0), end) && HeapBut(names, Swapped(s, end, 0), 0, end, 0)
  {
    var r := Swapped(s, end, 0);
    hide NotAfter;
    forall i: nat | i <= end ensures NotAfter(names, s[i], s[0]) { RootIsLast(names, s, end + 1, i); }
    forall i: nat, j: nat | end <= i <= j < |r| ensures NotAfter(names, r[i], r[j]) {
    }
    forall k: nat | k < end && !(k > 0 && Parent(k) == 0) ensures Below(names, r, 0, k) {
      assert Below(names, s, 0, k);
    }
  }

  /** Sifting among the first indices leaves the tail as it is. */
  lemma TailKept(names: seq<Name>, s: seq<nat>, r: seq<nat>, n: nat)
    requires Permuted(s, r, n) && Tail(names, s, n)
    ensures Tail(names, r, n)
  {
    hide NotAfter;
    forall j: nat | n <= j < |r| ensures r[j] == s[j] { assert r[n..][j - n] == s[n..][j - n]; }
    forall i: nat, j: nat | i < n <= j < |r| ensures NotAfter(names, r[i], r[j]) {
      assert r[i] in multiset(r[..n]);
      var k: nat :| k < n && s[..n][k] == r[i];
      assert s[k] == r[i];
    }
  }

  lemma AllSorted(names: seq<Name>, s: seq<nat>, r: seq<nat>, n: int)
    requires 0 <= n <= 1 && n <= |r| && Tail(names, r, n) && Permuted(s, r, |s|) && Indices(names, r)
    ensures Sorted(names, r, 0) && multiset(r) == multiset(s)
  {
    assert r[..|s|] == r && s[..|s|] == s;
    forall i: nat, j: nat | i <= j < |r| ensures NotAfter(names, r[i], r[j]) {
      if j == 0 { NotAfterTotal(names, r[0], r[0]); }
    }
  }

  // ---------------------------------------------------------------- the archive

  ghost predicate Matches(names: seq<Name>, name: Name, i: int) {
    0 <= i < |names| && Lower(names[i]) == Lower(name)
  }

  /** A file of that name, or -1 if there is none. */
  ghost predicate IsAnswer(names: seq<Name>, name: Name, r: int) {
    if r == -1 then forall i :: 0 <= i < |names| ==> !Matches(names, name, i) else Matches(names, name, r)
  }

  /** A reader: the file names of the central directory, and the sorted index if it was asked for. */
  class Archive {
    const names: seq<Name>
    const sorted: array<nat>

    ghost predicate Valid()
      reads sorted
    {
      && |names| <= MAX_NAME && (forall i :: 0 <= i < |names| ==> |names[i]| <= MAX_NAME)
      && (sorted.Length > 0 ==> sorted.Length == |names| && Sorted(names, sorted[..], 0) && Indices(names, sorted[..])
                                && forall i: nat :: i < |names| ==> i in sorted[..])
    }

    /** The part of `mz_zip_reader_read_central_dir` that fills and sorts the index (lines 3223 to 3264). */
    constructor (names: seq<Name>, doNotSort: bool)
      requires |names| <= MAX_NAME && forall i :: 0 <= i < |names| ==> |names[i]| <= MAX_NAME
      ensures Valid() && this.names == names && (sorted.Length > 0 <==> !doNotSort && names != []) && fresh(sorted)
    {
      var a := new nat[if doNotSort then 0 else |names|](i => i);
      ghost var s := a[..];
      if !doNotSort {
        SortByFilename(names, a);
        EveryIndex(names, s, a[..]);
      }
      this.names, sorted := names, a;
    }

    /** `mz_zip_reader_locate_file_binary_search`. */
    method BinarySearch(name: Name) returns (r: int)
      requires Valid() && sorted.Length == |names| && |name| < 0x1_0000_0000
      ensures IsAnswer(names, name, r)
    {
      hide Precedes;
      var l: int, h: int := 0, |names| - 1;
      while l <= h
        invariant 0 <= l <= |names| && -1 <= h < |names|
        invariant |name| <= MAX_NAME ==> Outside(names, sorted[..], name, l, h)
        decreases h - l
      {
        var m := (l + h) / 2;
        IndicesAt(names, sorted[..]);
        var comp := FilenameCompare(names[sorted[m]], name);
        if comp == 0 {
          return sorted[m];
        }
        if |name| <= MAX_NAME { Narrowed(names, sorted[..], name, l, h, m, comp); }
        if comp < 0 {
          l := m + 1;
        } else {
          h := m - 1;
        }
      }
      NotThere(names, sorted[..], name, l, h);
      return -1;
    }

    /** Lines 3509 to 3539 with the default flags and no comment. */
    method LinearScan(name: Name) returns (r: int)
      requires Valid()
      ensures IsAnswer(names, name, r)
      ensures r >= 0 ==> forall i :: 0 <= i < r ==> !Matches(names, name, i)
    {
      if |name| > MAX_NAME {
        return -1;
      }
      for i := 0 to |names|
        invariant forall k :: 0 <= k < i ==> !Matches(names, name, k)
      {
        if |names[i]| >= |name| && |names[i]| == |name| {
          var k := Agreement(names[i], name);
          assert k == |name| ==> Lower(names[i])[..k] == Lower(names[i]) && Lower(name)[..k] == Lower(name);
          assert k < |name| ==> Lower(names[i])[k] != Lower(name)[k];
          if k == |name| {
            return i;
          }
        }
      }
      return -1;
    }

    /** `mz_zip_reader_locate_file` with the default flags: the sorted index is used if it is there. */
    method Locate(name: Name) returns (r: int)
      requires Valid() && |name| < 0x1_0000_0000
      ensures IsAnswer(names, name, r)
    {
      if sorted.Length > 0 {
        r := BinarySearch(name);
      } else {
        r := LinearScan(name);
      }
    }
  }

  /** Nothing of that name stands before `l` or behind `h`. */
  ghost predicate Outside(names: seq<Name>, s: seq<nat>, name: Name, l: int, h: int) {
    && (forall k: nat :: k < l && k < |s| ==> s[k] < |names| && Precedes(Lower(names[s[k]]), Lower(name)))
    && (forall k: nat :: h < k < |s| ==> s[k] < |names| && Precedes(Lower(name), Lower(names[s[k]])))
  }

  lemma Narrowed(names: seq<Name>, s: seq<nat>, name: Name, l: int, h: int, m: nat, comp: int)
    requires Outside(names, s, name, l, h) && Sorted(names, s, 0) && Indices(names, s) && m < |s| && 0 <= l <= m <= h < |s|
    requires comp != 0 && Lower(names[s[m]]) != Lower(name) && (comp < 0 <==> Precedes(Lower(names[s[m]]), Lower(name)))
    ensures if comp < 0 then Outside(names, s, name, m + 1, h) else Outside(names, s, name, l, m - 1)
  {
    hide Precedes;
    PrecedesTotal(Lower(names[s[m]]), Lower(name));
    if comp < 0 {
      forall k: nat | k < m + 1 ensures s[k] < |names| && Precedes(Lower(names[s[k]]), Lower(name)) {
        assert NotAfter(names, s[k], s[m]);
        NotAfterPrecedes(Lower(names[s[k]]), Lower(names[s[m]]), Lower(name));
      }
    } else {
      forall k: nat | m - 1 < k < |s| ensures s[k] < |names| && Precedes(Lower(name), Lower(names[s[k]])) {
        assert NotAfter(names, s[m], s[k]);
        PrecedesNotAfter(Lower(name), Lower(names[s[m]]), Lower(names[s[k]]));
      }
    }
  }

  lemma NotAfterPrecedes(a: Name, b: Name, c: Name)
    requires !Precedes(b, a) && Precedes(b, c)
    ensures Precedes(a, c)
  {
    PrecedesTotal(a, b);
    if a != b { PrecedesTransitive(a, b, c); }
  }

  lemma PrecedesNotAfter(a: Name, b: Name, c: Name)
    requires Precedes(a, b) && !Precedes(c, b)
    ensures Precedes(a, c)
  {
    PrecedesTotal(b, c);
    if b != c { PrecedesTransitive(a, b, c); }
  }

  /** With nothing left between the bounds, or with a name that is too long, no file has the name. */
  lemma NotThere(names: seq<Name>, s: seq<nat>, name: Name, l: int, h: int)
    requires h < l && |s| == |names| && 0 <= l && h < |s| && (forall i: nat :: i < |names| ==> i in s)
    requires forall i :: 0 <= i < |names| ==> |names[i]| <= MAX_NAME
    requires |name| <= MAX_NAME ==> Outside(names, s, name, l, h)
    ensures forall i :: 0 <= i < |names| ==> !Matches(names, name, i)
  {
    hide Precedes;
    forall i: nat | i < |names| ensures !Matches(names, name, i) {
      if |name| > MAX_NAME {
        assert |Lower(names[i])| != |Lower(name)|;
      } else {
        assert i in s;
        var k :| 0 <= k < |s| && s[k] == i;
        PrecedesTotal(Lower(names[i]), Lower(name));
      }
    }
  }

  lemma EveryIndex(names: seq<Name>, s: seq<nat>, r: seq<nat>)
    requires |s| == |names| && (forall i :: 0 <= i < |s| ==> s[i] == i) && multiset(r) == multiset(s)
    ensures forall i: nat :: i < |names| ==> i in r
  {
    forall i: nat | i < |names| ensures i in r {
      assert s[i] in multiset(s);
    }
  }

  /** The binary search finds a file exactly when the linear scan does. */
  method SearchesAgree(names: seq<Name>, name: Name) returns (binary: int, linear: int)
    requires |names| <= MAX_NAME && (forall i :: 0 <= i < |names| ==> |names[i]| <= MAX_NAME) && |name| < 0x1_0000_0000
    ensures (binary >= 0 <==> linear >= 0) && (binary >= 0 ==> Matches(names, name, binary) && Matches(names, name, linear))
  {
    var sorted := new Archive(names, false);
    var plain := new Archive(names, true);
    binary := sorted.Locate(name);
    linear := plain.Locate(name);
  }
}
