/** The inflater's decoding table of `src/miniz.c`: a lookup table for the first ten bits and, for
    longer codes, an overflow tree in an array.  This module says what the tables hold and what one
    more entry does to them. */
module HuffmanTable {
  import opened Bits
  import opened HuffmanCode

  const FAST_BITS := 10
  const FAST_SIZE := 1024
  const TREE_SIZE := 576

  /** A node of the overflow tree stands for a beginning of a code: its number of bits and what they spell. */
  type Key = (nat, nat)

  /** Nodes are numbered as they are made; node `n` has its two slots at `2 n` and `2 n + 1`. */
  function Slot(n: nat, b: nat): nat { 2 * n + b }

  /** What the tables store for a node: the negative odd numbers from -1 down. */
  function Ref(n: nat): int { -1 - 2 * n }

  ghost function ChildKey(k: Key, b: nat): Key { (k.0 + 1, 2 * k.1 + b) }

  ghost function ParentKey(k: Key): Key
    requires k.0 > 0
  {
    (k.0 - 1, k.1 / 2)
  }

  /** The first `d` bits of a symbol's code. */
  ghost function Beginning(sizes: Sizes, s: nat, d: nat): Key
    requires s < |sizes| && d <= sizes[s]
  {
    (d, Shr(Code(sizes, s), sizes[s] - d))
  }

  // ---------------------------------------------------------------- what the tables hold

  /** After the first `done` symbols were entered; `nodes` are the nodes in use, `next` the next free one. */
  ghost predicate Entered(sizes: Sizes, done: nat, lookup: seq<int>, tree: seq<int>, nodes: map<Key, nat>) {
    && done <= |sizes| <= MAX_SYMBOLS
    && NodesAllocated(sizes, nodes)
    && LookupHolds(sizes, done, lookup, nodes)
    && TreeHolds(sizes, done, tree, nodes)
    && RestIsFree(tree, |nodes|)
    && PathsAllocated(sizes, done, nodes)
  }

  ghost predicate NodesAllocated(sizes: Sizes, nodes: map<Key, nat>) {
    && (forall k :: k in nodes ==> FAST_BITS <= k.0 < MAX_BITS && IsPrefix(sizes, k.0, k.1))
    && (forall k :: k in nodes ==> nodes[k] < |nodes|)
    && (forall k, m :: k in nodes && m in nodes && nodes[k] == nodes[m] ==> k == m)
    && (forall k {:trigger ParentKey(k)} :: k in nodes && k.0 > FAST_BITS ==> ParentKey(k) in nodes)
  }

  ghost predicate LookupHolds(sizes: Sizes, done: nat, lookup: seq<int>, nodes: map<Key, nat>)
    requires done <= |sizes|
  {
    |lookup| == FAST_SIZE && forall idx :: 0 <= idx < FAST_SIZE ==> LookupEntry(sizes, done, lookup[idx], nodes, idx)
  }

  ghost predicate TreeHolds(sizes: Sizes, done: nat, tree: seq<int>, nodes: map<Key, nat>)
    requires done <= |sizes|
  {
    |tree| == TREE_SIZE && forall k, b: nat :: k in nodes && b < 2 ==> SlotHolds(sizes, done, tree, nodes, k, b)
  }

  ghost predicate SlotHolds(sizes: Sizes, done: nat, tree: seq<int>, nodes: map<Key, nat>, k: Key, b: nat)
    requires done <= |sizes| && |tree| == TREE_SIZE && k in nodes
  {
    Slot(nodes[k], b) < TREE_SIZE && TreeEntry(sizes, done, tree[Slot(nodes[k], b)], nodes, ChildKey(k, b))
  }

  ghost predicate RestIsFree(tree: seq<int>, next: nat) {
    |tree| == TREE_SIZE && forall i :: 2 * next <= i < TREE_SIZE ==> tree[i] == 0
  }

  /** All beginnings of a long code that are ten bits or longer have a node. */
  ghost predicate PathsAllocated(sizes: Sizes, done: nat, nodes: map<Key, nat>)
    requires done <= |sizes|
  {
    forall s, d :: 0 <= s < done && FAST_BITS <= d < sizes[s] ==> Beginning(sizes, s, d) in nodes
  }

  /** An entry for ten bits: the size and symbol of the short code they start with, else the node, else 0. */
  ghost predicate LookupEntry(sizes: Sizes, done: nat, e: int, nodes: map<Key, nat>, idx: nat)
    requires done <= |sizes|
  {
    var k := (FAST_BITS, Top(idx, FAST_BITS));
    && (k in nodes <==> e < 0)
    && (k in nodes ==> e == Ref(nodes[k]))
    && (e > 0 ==> e % 512 < done && ShortEntry(sizes, e, e % 512, idx))
    && (forall s :: 0 <= s < done && sizes[s] <= FAST_BITS && Spells(idx, sizes, s) ==> e == sizes[s] * 512 + s)
  }

  ghost predicate ShortEntry(sizes: Sizes, e: int, s: nat, idx: nat) {
    Spells(idx, sizes, s) && sizes[s] <= FAST_BITS && e == sizes[s] * 512 + s
  }

  /** A slot: the child node, else the symbol whose code ends there, else 0. */
  ghost predicate TreeEntry(sizes: Sizes, done: nat, e: int, nodes: map<Key, nat>, child: Key)
    requires done <= |sizes|
  {
    && (child in nodes <==> e < 0)
    && (child in nodes ==> e == Ref(nodes[child]))
    && (e > 0 ==> e < done && LeafOf(sizes, e, child))
    && (forall s :: 0 <= s < done && LeafOf(sizes, s, child) ==> e == s)
  }

  ghost predicate LeafOf(sizes: Sizes, s: nat, k: Key) {
    Used(sizes, s) && sizes[s] == k.0 && Code(sizes, s) == k.1
  }

  // ---------------------------------------------------------------- one symbol entered

  lemma EmptyTable(sizes: Sizes, lookup: seq<int>, tree: seq<int>)
    requires |sizes| <= MAX_SYMBOLS
    requires |lookup| == FAST_SIZE && |tree| == TREE_SIZE
    requires (forall i :: 0 <= i < FAST_SIZE ==> lookup[i] == 0) && (forall i :: 0 <= i < TREE_SIZE ==> tree[i] == 0)
    ensures Entered(sizes, 0, lookup, tree, map[])
  {
  }

  /** The tree says no more about a symbol that has no leaf in it. */
  lemma TreeUnchanged(sizes: Sizes, done: nat, tree: seq<int>, nodes: map<Key, nat>)
    requires done < |sizes| && sizes[done] <= FAST_BITS
    requires forall k :: k in nodes ==> k.0 >= FAST_BITS
    requires TreeHolds(sizes, done, tree, nodes)
    ensures TreeHolds(sizes, done + 1, tree, nodes)
  {
    hide Code;
    var now := done + 1;
    forall k, b: nat | k in nodes && b < 2 ensures SlotHolds(sizes, now, tree, nodes, k, b) {
      assert SlotHolds(sizes, done, tree, nodes, k, b);
    }
  }

  /** Nor the lookup table about one whose code is longer than ten bits. */
  lemma LookupUnchanged(sizes: Sizes, done: nat, lookup: seq<int>, nodes: map<Key, nat>)
    requires done < |sizes| && (sizes[done] == 0 || sizes[done] > FAST_BITS)
    requires LookupHolds(sizes, done, lookup, nodes)
    ensures LookupHolds(sizes, done + 1, lookup, nodes)
  {
    hide Code, Top, ShortEntry;
    forall idx | 0 <= idx < FAST_SIZE ensures LookupEntry(sizes, done + 1, lookup[idx], nodes, idx) {
      assert LookupEntry(sizes, done, lookup[idx], nodes, idx);
      assert sizes[done] <= FAST_BITS ==> !Spells(idx, sizes, done);
      hide Spells;
    }
  }

  lemma UnusedSkipped(sizes: Sizes, done: nat, lookup: seq<int>, tree: seq<int>, nodes: map<Key, nat>)
    requires Entered(sizes, done, lookup, tree, nodes) && done < |sizes| && sizes[done] == 0
    ensures Entered(sizes, done + 1, lookup, tree, nodes)
  {
    LookupUnchanged(sizes, done, lookup, nodes);
    TreeUnchanged(sizes, done, tree, nodes);
    hide LookupHolds, TreeHolds, Beginning;
  }

  lemma NoOtherSpells(x: nat, sizes: Sizes, s: nat)
    requires Spells(x, sizes, s)
    ensures forall t :: 0 <= t < |sizes| && t != s ==> !Spells(x, sizes, t)
  {
    forall t | 0 <= t < |sizes| && Spells(x, sizes, t) ensures t == s {
      SpellsOne(x, sizes, s, t);
    }
  }

  lemma ShortEntryWritten(sizes: Sizes, done: nat, e: int, e': int, nodes: map<Key, nat>, idx: nat)
    requires done < |sizes| <= MAX_SYMBOLS && 1 <= sizes[done] <= FAST_BITS
    requires LookupEntry(sizes, done, e, nodes, idx)
    requires forall k :: k in nodes ==> IsPrefix(sizes, k.0, k.1)
    requires e' == if Spells(idx, sizes, done) then sizes[done] * 512 + done else e
    ensures LookupEntry(sizes, done + 1, e', nodes, idx)
  {
    if Spells(idx, sizes, done) {
      var k := (FAST_BITS, Top(idx, FAST_BITS));
      assert k !in nodes by {
        if k in nodes { PrefixPassesNoCode(sizes, done, idx, FAST_BITS); }
      }
      NoOtherSpells(idx, sizes, done);
      assert Used(sizes, done);
      hide Spells, IsPrefix, Top;
      assert e' % 512 == done;
    } else {
      hide Spells, IsPrefix, Top;
    }
  }

  /** Filling every entry whose index starts with a short code. */
  lemma ShortEntered(sizes: Sizes, done: nat, lookup: seq<int>, lookup': seq<int>, tree: seq<int>, nodes: map<Key, nat>)
    requires Entered(sizes, done, lookup, tree, nodes) && done < |sizes| && 1 <= sizes[done] <= FAST_BITS
    requires |lookup'| == FAST_SIZE
    requires forall idx :: 0 <= idx < FAST_SIZE ==>
               lookup'[idx] == if Spells(idx, sizes, done) then sizes[done] * 512 + done else lookup[idx]
    ensures Entered(sizes, done + 1, lookup', tree, nodes)
  {
    hide TreeHolds, LookupEntry, Spells, Beginning, IsPrefix;
    TreeUnchanged(sizes, done, tree, nodes);
    forall idx | 0 <= idx < FAST_SIZE ensures LookupEntry(sizes, done + 1, lookup'[idx], nodes, idx) {
      ShortEntryWritten(sizes, done, lookup[idx], lookup'[idx], nodes, idx);
    }
  }

  // ---------------------------------------------------------------- a node added

  lemma KeysFit(sizes: Sizes, nodes: map<Key, nat>, k: Key)
    requires Accepted(sizes) && |sizes| <= MAX_SYMBOLS
    requires forall m :: m in nodes ==> FAST_BITS <= m.0 < MAX_BITS && IsPrefix(sizes, m.0, m.1)
    requires FAST_BITS <= k.0 < MAX_BITS && IsPrefix(sizes, k.0, k.1) && k !in nodes
    ensures |nodes| < MAX_SYMBOLS
  {
    hide IsPrefix, Accepted;
    PrefixesFit(sizes, nodes.Keys + {k});
  }

  /** A new node keeps the numbering, and finds its two slots free. */
  lemma NodeNumbered(sizes: Sizes, nodes: map<Key, nat>, k: Key)
    requires Accepted(sizes) && |sizes| <= MAX_SYMBOLS
    requires NodesAllocated(sizes, nodes)
    requires FAST_BITS <= k.0 < MAX_BITS && IsPrefix(sizes, k.0, k.1) && k !in nodes
    requires k.0 > FAST_BITS ==> ParentKey(k) in nodes
    ensures NodesAllocated(sizes, nodes[k := |nodes|])
    ensures Slot(|nodes|, 1) < TREE_SIZE
    ensures forall m :: m in nodes ==> Slot(nodes[m], 1) < Slot(|nodes|, 0)
  {
    hide IsPrefix, Accepted;
    KeysFit(sizes, nodes, k);
    var nodes' := nodes[k := |nodes|];
    assert |nodes'.Keys| == |nodes.Keys| + 1 by { assert nodes'.Keys == nodes.Keys + {k}; }
  }

  /** No symbol's code ends where a node is. */
  lemma NoLeafAt(sizes: Sizes, k: Key)
    requires IsPrefix(sizes, k.0, k.1)
    ensures forall s: nat :: !LeafOf(sizes, s, k)
  {
    forall s: nat ensures !LeafOf(sizes, s, k) {
      if LeafOf(sizes, s, k) {
        CodeIsNoPrefix(sizes, s);
      }
    }
  }

  lemma LeafParent(sizes: Sizes, s: nat, k: Key, b: nat)
    requires b < 2 && LeafOf(sizes, s, ChildKey(k, b))
    ensures k.0 < sizes[s] && Beginning(sizes, s, k.0) == k
  {
    assert Shr(Code(sizes, s), 1) == Shr(Code(sizes, s) / 2, 0);
  }

  /** What is below a node that is just made is not in use yet. */
  lemma NothingBelow(sizes: Sizes, done: nat, nodes: map<Key, nat>, k: Key, b: nat)
    requires done <= |sizes| && b < 2 && k !in nodes && k.0 >= FAST_BITS
    requires NodesAllocated(sizes, nodes) && PathsAllocated(sizes, done, nodes)
    ensures ChildKey(k, b) !in nodes
    ensures forall s :: 0 <= s < done ==> !LeafOf(sizes, s, ChildKey(k, b))
  {
    hide IsPrefix, Code;
    var child := ChildKey(k, b);
    assert child in nodes ==> ParentKey(child) in nodes;
    forall s | 0 <= s < done ensures !LeafOf(sizes, s, child) {
      if LeafOf(sizes, s, child) {
        LeafParent(sizes, s, k, b);
        assert false;
      }
    }
  }

  /** The slots of the new node `k` are empty. */
  lemma NewSlotsHold(sizes: Sizes, done: nat, tree: seq<int>, nodes: map<Key, nat>, k: Key, b: nat)
    requires done <= |sizes| && b < 2 && |tree| == TREE_SIZE && k.0 >= FAST_BITS && k !in nodes
    requires NodesAllocated(sizes, nodes) && PathsAllocated(sizes, done, nodes)
    requires Slot(|nodes|, b) < TREE_SIZE && tree[Slot(|nodes|, b)] == 0
    ensures SlotHolds(sizes, done, tree, nodes[k := |nodes|], k, b)
  {
    NothingBelow(sizes, done, nodes, k, b);
    hide LeafOf, NodesAllocated, PathsAllocated;
  }

  lemma RootEntry(sizes: Sizes, done: nat, e: int, nodes: map<Key, nat>, idx: nat)
    requires done <= |sizes| && LookupEntry(sizes, done, e, nodes, idx)
    requires IsPrefix(sizes, FAST_BITS, Top(idx, FAST_BITS))
    ensures LookupEntry(sizes, done, Ref(|nodes|), nodes[(FAST_BITS, Top(idx, FAST_BITS)) := |nodes|], idx)
  {
    forall s | 0 <= s < done && sizes[s] <= FAST_BITS ensures !Spells(idx, sizes, s) {
      if Used(sizes, s) { PrefixPassesNoCode(sizes, s, idx, FAST_BITS); }
    }
    hide Spells, IsPrefix, Top;
  }

  lemma OtherEntry(sizes: Sizes, done: nat, e: int, nodes: map<Key, nat>, idx: nat, k: Key)
    requires done <= |sizes| && LookupEntry(sizes, done, e, nodes, idx)
    requires k != (FAST_BITS, Top(idx, FAST_BITS))
    ensures LookupEntry(sizes, done, e, nodes[k := |nodes|], idx)
  {
    hide Spells, Top, ShortEntry;
  }

  lemma RootInLookup(sizes: Sizes, done: nat, lookup: seq<int>, nodes: map<Key, nat>, idx: nat, k: Key)
    requires done <= |sizes| && idx < FAST_SIZE
    requires LookupHolds(sizes, done, lookup, nodes)
    requires k == (FAST_BITS, Top(idx, FAST_BITS)) && IsPrefix(sizes, k.0, k.1)
    ensures LookupHolds(sizes, done, lookup[idx := Ref(|nodes|)], nodes[k := |nodes|])
  {
    hide LookupEntry, IsPrefix, Top, Pow2, Low;
    var lookup', nodes' := lookup[idx := Ref(|nodes|)], nodes[k := |nodes|];
    forall i | 0 <= i < FAST_SIZE ensures LookupEntry(sizes, done, lookup'[i], nodes', i) {
      if i == idx {
        RootEntry(sizes, done, lookup[idx], nodes, idx);
      } else {
        TopSameLow(i, idx, FAST_BITS);
        LowTen(i);
        LowTen(idx);
        OtherEntry(sizes, done, lookup[i], nodes, i, k);
      }
    }
  }

  /** A root for codes longer than ten bits is put into the lookup table. */
  lemma RootAdded(sizes: Sizes, done: nat, lookup: seq<int>, tree: seq<int>, nodes: map<Key, nat>, idx: nat, k: Key)
    requires Entered(sizes, done, lookup, tree, nodes) && Accepted(sizes)
    requires idx < FAST_SIZE && lookup[idx] == 0
    requires k == (FAST_BITS, Top(idx, FAST_BITS)) && IsPrefix(sizes, k.0, k.1)
    ensures k !in nodes && Entered(sizes, done, lookup[idx := Ref(|nodes|)], tree, nodes[k := |nodes|])
  {
    hide Accepted, IsPrefix, Top, Beginning, ShortEntry, Spells;
    assert LookupEntry(sizes, done, lookup[idx], nodes, idx);
    NodeNumbered(sizes, nodes, k);
    RootInLookup(sizes, done, lookup, nodes, idx, k);
    hide LookupHolds, LookupEntry;
    NewSlotsHold(sizes, done, tree, nodes, k, 0);
    NewSlotsHold(sizes, done, tree, nodes, k, 1);
    var nodes' := nodes[k := |nodes|];
    forall m, b: nat | m in nodes' && b < 2 ensures SlotHolds(sizes, done, tree, nodes', m, b) {
      if m != k {
        assert SlotHolds(sizes, done, tree, nodes, m, b);
        hide LeafOf;
      } else {
        assert b == 0 || b == 1;
      }
    }
  }

  /** Slots of different nodes, or of different bits, are different. */
  lemma SlotsDiffer(sizes: Sizes, nodes: map<Key, nat>, k: Key, b: nat, m: Key, c: nat)
    requires NodesAllocated(sizes, nodes) && k in nodes && m in nodes && b < 2 && c < 2
    requires Slot(nodes[k], b) == Slot(nodes[m], c)
    ensures k == m && b == c
  {
    hide IsPrefix;
  }

  /** A deeper node does not concern the lookup table. */
  lemma LookupUnaffected(sizes: Sizes, done: nat, lookup: seq<int>, nodes: map<Key, nat>, k: Key, n: nat)
    requires done <= |sizes| && LookupHolds(sizes, done, lookup, nodes) && k.0 != FAST_BITS
    ensures LookupHolds(sizes, done, lookup, nodes[k := n])
  {
    hide LookupEntry, Top;
    forall i | 0 <= i < FAST_SIZE ensures LookupEntry(sizes, done, lookup[i], nodes[k := n], i) {
      assert LookupEntry(sizes, done, lookup[i], nodes, i);
      EntryUnaffected(sizes, done, lookup[i], nodes, i, k, n);
    }
  }

  lemma EntryUnaffected(sizes: Sizes, done: nat, e: int, nodes: map<Key, nat>, idx: nat, k: Key, n: nat)
    requires done <= |sizes| && LookupEntry(sizes, done, e, nodes, idx) && k.0 != FAST_BITS
    ensures LookupEntry(sizes, done, e, nodes[k := n], idx)
  {
    hide Top, ShortEntry, Spells;
  }

  /** A slot other than the one that is filled. */
  lemma OtherSlot(sizes: Sizes, done: nat, tree: seq<int>, nodes: map<Key, nat>, m: Key, c: nat, slot: nat, e: int, k: Key, n: nat)
    requires done <= |sizes| && |tree| == TREE_SIZE && m in nodes && m != k && slot < TREE_SIZE
    requires SlotHolds(sizes, done, tree, nodes, m, c)
    requires Slot(nodes[m], c) != slot && ChildKey(m, c) != k
    ensures SlotHolds(sizes, done, tree[slot := e], nodes[k := n], m, c)
  {
    hide LeafOf;
  }

  lemma FilledSlot(sizes: Sizes, done: nat, tree: seq<int>, nodes: map<Key, nat>, p: Key, b: nat, n: nat)
    requires done <= |sizes| && |tree| == TREE_SIZE && p in nodes && ChildKey(p, b) != p
    requires Slot(nodes[p], b) < TREE_SIZE && forall s :: 0 <= s < done ==> !LeafOf(sizes, s, ChildKey(p, b))
    ensures SlotHolds(sizes, done, tree[Slot(nodes[p], b) := Ref(n)], nodes[ChildKey(p, b) := n], p, b)
  {
    hide LeafOf;
  }

  lemma ApartFrom(sizes: Sizes, nodes: map<Key, nat>, k: Key, b: nat, m: Key, c: nat)
    requires NodesAllocated(sizes, nodes) && k in nodes && m in nodes && b < 2 && c < 2 && !(k == m && b == c)
    ensures Slot(nodes[k], b) != Slot(nodes[m], c) && ChildKey(k, b) != ChildKey(m, c)
  {
    hide NodesAllocated;
    if Slot(nodes[k], b) == Slot(nodes[m], c) { SlotsDiffer(sizes, nodes, k, b, m, c); }
  }

  lemma ChildMissing(sizes: Sizes, done: nat, tree: seq<int>, nodes: map<Key, nat>, p: Key, b: nat)
    requires done <= |sizes| && |tree| == TREE_SIZE && p in nodes
    requires SlotHolds(sizes, done, tree, nodes, p, b) && tree[Slot(nodes[p], b)] == 0
    ensures ChildKey(p, b) !in nodes && Slot(nodes[p], b) < TREE_SIZE
  {
  }

  /** What is true of the nodes stays so with a child node `k` of `p`, and the slots of `k` are free. */
  lemma ChildNumbered(sizes: Sizes, done: nat, tree: seq<int>, nodes: map<Key, nat>, p: Key, b: nat)
    requires done <= |sizes| <= MAX_SYMBOLS && Accepted(sizes) && NodesAllocated(sizes, nodes) && PathsAllocated(sizes, done, nodes)
    requires RestIsFree(tree, |nodes|) && p in nodes && b < 2
    requires var k := ChildKey(p, b); k !in nodes && k.0 < MAX_BITS && IsPrefix(sizes, k.0, k.1)
    ensures var k := ChildKey(p, b); var nodes' := nodes[k := |nodes|];
            && NodesAllocated(sizes, nodes') && PathsAllocated(sizes, done, nodes') && k.0 > FAST_BITS
            && Slot(nodes[p], b) < Slot(|nodes|, 0) && Slot(|nodes|, 1) < TREE_SIZE
            && RestIsFree(tree[Slot(nodes[p], b) := Ref(|nodes|)], |nodes'|)
  {
    hide Accepted, IsPrefix, Beginning;
    assert ParentKey(ChildKey(p, b)) == p;
    NodeNumbered(sizes, nodes, ChildKey(p, b));
  }

  /** The slots with a node put into an empty slot of its parent. */
  lemma ChildSlot(sizes: Sizes, done: nat, tree: seq<int>, nodes: map<Key, nat>, p: Key, b: nat, m: Key, c: nat)
    requires done <= |sizes| && |tree| == TREE_SIZE && NodesAllocated(sizes, nodes) && p in nodes && m in nodes && b < 2 && c < 2
    requires SlotHolds(sizes, done, tree, nodes, m, c) && Slot(nodes[p], b) < TREE_SIZE && ChildKey(p, b) !in nodes
    requires forall s: nat :: !LeafOf(sizes, s, ChildKey(p, b))
    ensures SlotHolds(sizes, done, tree[Slot(nodes[p], b) := Ref(|nodes|)], nodes[ChildKey(p, b) := |nodes|], m, c)
  {
    hide LeafOf, SlotHolds, NodesAllocated;
    if m == p && c == b {
      FilledSlot(sizes, done, tree, nodes, p, b, |nodes|);
    } else {
      ApartFrom(sizes, nodes, m, c, p, b);
      OtherSlot(sizes, done, tree, nodes, m, c, Slot(nodes[p], b), Ref(|nodes|), ChildKey(p, b), |nodes|);
    }
  }

  /** A node is put into an empty slot of its parent. */
  lemma ChildAdded(sizes: Sizes, done: nat, lookup: seq<int>, tree: seq<int>, nodes: map<Key, nat>, p: Key, b: nat)
    requires Entered(sizes, done, lookup, tree, nodes) && Accepted(sizes)
    requires p in nodes && b < 2
    requires SlotHolds(sizes, done, tree, nodes, p, b) && tree[Slot(nodes[p], b)] == 0
    requires var k := ChildKey(p, b); k.0 < MAX_BITS && IsPrefix(sizes, k.0, k.1)
    ensures var k := ChildKey(p, b);
            k !in nodes && Entered(sizes, done, lookup, tree[Slot(nodes[p], b) := Ref(|nodes|)], nodes[k := |nodes|])
  {
    hide Accepted, IsPrefix, LookupHolds, SlotHolds, NodesAllocated, PathsAllocated, RestIsFree, LeafOf;
    var k := ChildKey(p, b);
    ChildMissing(sizes, done, tree, nodes, p, b);
    var tree', nodes' := tree[Slot(nodes[p], b) := Ref(|nodes|)], nodes[k := |nodes|];
    ChildNumbered(sizes, done, tree, nodes, p, b);
    NoLeafAt(sizes, k);
    LookupUnaffected(sizes, done, lookup, nodes, k, |nodes|);
    FreeAt(tree, |nodes|, Slot(nodes[p], b), Ref(|nodes|));
    NewSlotsHold(sizes, done, tree', nodes, k, 0);
    NewSlotsHold(sizes, done, tree', nodes, k, 1);
    forall m, c: nat | m in nodes' && c < 2 ensures SlotHolds(sizes, done, tree', nodes', m, c) {
      if m == k {
        assert c == 0 || c == 1;
      } else {
        ChildSlot(sizes, done, tree, nodes, p, b, m, c);
      }
    }
  }

  lemma FreeAt(tree: seq<int>, n: nat, slot: nat, e: int)
    requires RestIsFree(tree, n) && slot < Slot(n, 0) && Slot(n, 1) < TREE_SIZE
    ensures tree[slot := e][Slot(n, 0)] == 0 && tree[slot := e][Slot(n, 1)] == 0
  {
  }

  lemma LeafSlot(sizes: Sizes, done: nat, tree: seq<int>, nodes: map<Key, nat>, p: Key, b: nat, m: Key, c: nat)
    requires done < |sizes| && |tree| == TREE_SIZE && NodesAllocated(sizes, nodes) && p in nodes && m in nodes && b < 2 && c < 2
    requires SlotHolds(sizes, done, tree, nodes, m, c) && Slot(nodes[p], b) < TREE_SIZE
    requires LeafOf(sizes, done, ChildKey(p, b)) && ChildKey(p, b) !in nodes
    ensures SlotHolds(sizes, done + 1, tree[Slot(nodes[p], b) := done], nodes, m, c)
  {
    hide IsPrefix, LeafOf, NodesAllocated;
    OneLeaf(sizes, done, ChildKey(p, b));
    if !(m == p && c == b) {
      ApartFrom(sizes, nodes, m, c, p, b);
      LeafElsewhere(sizes, done, ChildKey(p, b), ChildKey(m, c));
    }
  }

  lemma LeafElsewhere(sizes: Sizes, s: nat, k: Key, m: Key)
    requires LeafOf(sizes, s, k) && k != m
    ensures !LeafOf(sizes, s, m)
  {
  }

  lemma LeafIsNoNode(sizes: Sizes, nodes: map<Key, nat>, s: nat, k: Key)
    requires NodesAllocated(sizes, nodes) && LeafOf(sizes, s, k)
    ensures k !in nodes
  {
    hide IsPrefix, Code;
    CodeIsNoPrefix(sizes, s);
  }

  /** The symbol is put into its slot, where nothing else can be. */
  lemma LeafAdded(sizes: Sizes, done: nat, lookup: seq<int>, tree: seq<int>, nodes: map<Key, nat>, p: Key, b: nat)
    requires Entered(sizes, done, lookup, tree, nodes)
    requires p in nodes && b < 2 && Slot(nodes[p], b) < TREE_SIZE
    requires done < |sizes| && sizes[done] > FAST_BITS && LeafOf(sizes, done, ChildKey(p, b))
    requires forall d :: FAST_BITS <= d < sizes[done] ==> Beginning(sizes, done, d) in nodes
    ensures Entered(sizes, done + 1, lookup, tree[Slot(nodes[p], b) := done], nodes)
  {
    hide LookupHolds, SlotHolds, LeafOf, Beginning, NodesAllocated, Code;
    LookupUnchanged(sizes, done, lookup, nodes);
    LeafIsNoNode(sizes, nodes, done, ChildKey(p, b));
    var tree' := tree[Slot(nodes[p], b) := done];
    var now := done + 1;
    forall m, c: nat | m in nodes && c < 2 ensures SlotHolds(sizes, now, tree', nodes, m, c) {
      LeafSlot(sizes, done, tree, nodes, p, b, m, c);
    }
    NodeBelow(sizes, nodes, p);
  }

  lemma NodeBelow(sizes: Sizes, nodes: map<Key, nat>, p: Key)
    requires NodesAllocated(sizes, nodes) && p in nodes
    ensures nodes[p] < |nodes|
  {
    hide IsPrefix;
  }

  lemma OneLeaf(sizes: Sizes, s: nat, k: Key)
    requires LeafOf(sizes, s, k)
    ensures forall t: nat :: LeafOf(sizes, t, k) ==> t == s
  {
    forall t: nat | LeafOf(sizes, t, k) ensures t == s {
      if t != s {
        PrefixFree(sizes, s, t);
      }
    }
  }

  // ---------------------------------------------------------------- what a walk meets

  lemma EnteredSlot(sizes: Sizes, done: nat, lookup: seq<int>, tree: seq<int>, nodes: map<Key, nat>, p: Key, b: nat)
    requires Entered(sizes, done, lookup, tree, nodes) && p in nodes && b < 2
    ensures done <= |sizes| && |tree| == TREE_SIZE && Slot(nodes[p], b) < TREE_SIZE
    ensures TreeEntry(sizes, done, tree[Slot(nodes[p], b)], nodes, ChildKey(p, b))
    ensures SlotHolds(sizes, done, tree, nodes, p, b)
    ensures FAST_BITS <= p.0 < MAX_BITS && IsPrefix(sizes, p.0, p.1)
  {
    assert SlotHolds(sizes, done, tree, nodes, p, b);
  }

  lemma EnteredLookup(sizes: Sizes, done: nat, lookup: seq<int>, tree: seq<int>, nodes: map<Key, nat>, idx: nat)
    requires Entered(sizes, done, lookup, tree, nodes) && idx < FAST_SIZE
    ensures done <= |sizes| <= MAX_SYMBOLS && |lookup| == FAST_SIZE && LookupEntry(sizes, done, lookup[idx], nodes, idx)
    ensures PathsAllocated(sizes, done, nodes)
  {
  }

  lemma RootFound(sizes: Sizes, done: nat, e: int, nodes: map<Key, nat>, idx: nat)
    requires done <= |sizes| && LookupEntry(sizes, done, e, nodes, idx) && e != 0
    requires IsPrefix(sizes, FAST_BITS, Top(idx, FAST_BITS))
    ensures var k := (FAST_BITS, Top(idx, FAST_BITS)); k in nodes && e == Ref(nodes[k])
  {
    if e > 0 {
      PrefixPassesNoCode(sizes, e % 512, idx, FAST_BITS);
      assert false;
    }
  }

  lemma ChildFound(sizes: Sizes, done: nat, e: int, nodes: map<Key, nat>, child: Key)
    requires done <= |sizes| && TreeEntry(sizes, done, e, nodes, child) && e != 0
    requires IsPrefix(sizes, child.0, child.1)
    ensures child in nodes && e == Ref(nodes[child])
  {
    NoLeafAt(sizes, child);
  }
}
