/** The inflater's table construction and symbol decoding (`tinfl_decompress` and `TINFL_HUFF_DECODE`
    of `src/miniz.c`), in place. */
module HuffmanDecoder {
  import opened Bits
  import opened HuffmanCode
  import opened HuffmanTable
  import opened HuffmanEncoder

  // ---------------------------------------------------------------- what decoding means

  /** The symbols that a buffer spells, one after the other. */
  ghost predicate SpellsAll(x: nat, sizes: Sizes, symbols: seq<nat>)
    decreases |symbols|
  {
    symbols == [] ||
    (Spells(x, sizes, symbols[0]) && SpellsAll(Shr(x, sizes[symbols[0]]), sizes, symbols[1..]))
  }

  lemma EncodedSpells(sizes: Sizes, s: nat, rest: nat)
    requires Used(sizes, s) && First(sizes, 16) <= 65536
    ensures var x := Append(CodeWord(sizes, s), sizes[s], rest);
            Spells(x, sizes, s) && Shr(x, sizes[s]) == rest
  {
    CodeFits(sizes, s);
    TopOfReverse(Code(sizes, s), sizes[s]);
    AppendKeepsLow(CodeWord(sizes, s), sizes[s], rest);
  }

  /** What the encoder writes, followed by anything, spells the symbols it was given. */
  lemma {:induction false} EncodedSpellsAll(sizes: Sizes, symbols: seq<nat>, rest: nat)
    requires AllUsed(sizes, symbols) && First(sizes, 16) <= 65536
    ensures SpellsAll(Append(Encoded(sizes, symbols), EncodedLength(sizes, symbols), rest), sizes, symbols)
  {
    if symbols != [] {
      var s, tail := symbols[0], symbols[1..];
      assert Used(sizes, s);
      forall i | 0 <= i < |tail| ensures Used(sizes, tail[i]) { assert Used(sizes, symbols[i + 1]); }
      EncodedSpellsAll(sizes, tail, rest);
      AppendAssociates(CodeWord(sizes, s), sizes[s], Encoded(sizes, tail), EncodedLength(sizes, tail), rest);
      EncodedSpells(sizes, s, Append(Encoded(sizes, tail), EncodedLength(sizes, tail), rest));
    }
  }

  /** A buffer spells at most one sequence of a given number of bits. */
  lemma {:induction false} SpellsAllUnique(x: nat, sizes: Sizes, p: seq<nat>, q: seq<nat>)
    requires SpellsAll(x, sizes, p) && SpellsAll(x, sizes, q)
    requires AllUsed(sizes, p) && AllUsed(sizes, q) && EncodedLength(sizes, p) == EncodedLength(sizes, q)
    ensures p == q
    decreases |p|
  {
    assert p != [] ==> Used(sizes, p[0]);
    assert q != [] ==> Used(sizes, q[0]);
    if p != [] && q != [] {
      SpellsOne(x, sizes, p[0], q[0]);
      forall i | 0 <= i < |p[1..]| ensures Used(sizes, p[1..][i]) { assert Used(sizes, p[i + 1]); }
      forall i | 0 <= i < |q[1..]| ensures Used(sizes, q[1..][i]) { assert Used(sizes, q[i + 1]); }
      SpellsAllUnique(Shr(x, sizes[p[0]]), sizes, p[1..], q[1..]);
    }
  }

  /** The canonical code is uniquely decodable: different symbols give different bits, also when
      their numbers differ. */
  lemma UniquelyDecodable(sizes: Sizes, p: seq<nat>, q: seq<nat>)
    requires First(sizes, 16) <= 65536 && AllUsed(sizes, p) && AllUsed(sizes, q)
    ensures Encoded(sizes, p) == Encoded(sizes, q) && EncodedLength(sizes, p) == EncodedLength(sizes, q) <==> p == q
  {
    if Encoded(sizes, p) == Encoded(sizes, q) && EncodedLength(sizes, p) == EncodedLength(sizes, q) {
      EncodedSpellsAll(sizes, p, 0);
      EncodedSpellsAll(sizes, q, 0);
      SpellsAllUnique(Append(Encoded(sizes, p), EncodedLength(sizes, p), 0), sizes, p, q);
    }
  }

  /** Some symbol's code is at the front of the buffer. */
  ghost predicate Spelled(x: nat, sizes: Sizes) {
    exists s: nat :: Spells(x, sizes, s)
  }

  /** How far the walk goes when there is none: nowhere if no long code starts like the buffer, and otherwise to
      the first bit at which the last such code is left. */
  ghost function StrayLength(x: nat, sizes: Sizes): (n: nat)
    ensures n <= MAX_BITS
  {
    if IsPrefix(sizes, FAST_BITS, Top(x, FAST_BITS)) then StrayFrom(x, sizes, FAST_BITS) else 0
  }

  ghost function StrayFrom(x: nat, sizes: Sizes, d: nat): (n: nat)
    requires d <= MAX_BITS
    ensures d <= n <= MAX_BITS
    decreases MAX_BITS - d
  {
    if d < MAX_BITS && IsPrefix(sizes, d, Top(x, d)) then StrayFrom(x, sizes, d + 1) else d
  }

  /** The symbol that is read, and the number of bits that are taken for it.  Bits that no code accounts for, as
      there are if only one symbol has a code, read as symbol 0. */
  ghost function Decoded(x: nat, sizes: Sizes): (r: (nat, nat))
    ensures r.1 <= MAX_BITS
  {
    if Spelled(x, sizes) then
      var s: nat :| Spells(x, sizes, s);
      (s, sizes[s])
    else
      (0, StrayLength(x, sizes))
  }

  lemma DecodedSymbol(x: nat, sizes: Sizes, s: nat)
    requires Spells(x, sizes, s)
    ensures Spelled(x, sizes) && Decoded(x, sizes) == (s, sizes[s])
  {
    var t: nat :| Spells(x, sizes, t) && Decoded(x, sizes) == (t, sizes[t]);
    SpellsOne(x, sizes, s, t);
  }

  /** The answer is right for every symbol whose code the buffer starts with. */
  ghost predicate Answers(x: nat, sizes: Sizes, symbol: int, codeLen: nat) {
    forall s: nat :: Spells(x, sizes, s) ==> symbol == s && codeLen == sizes[s]
  }

  /** Nor is it anything else when there is none. */
  ghost predicate Strays(x: nat, sizes: Sizes, symbol: int, codeLen: nat) {
    !Spelled(x, sizes) ==> symbol == 0 && codeLen == StrayLength(x, sizes)
  }

  lemma BothIsDecoded(x: nat, sizes: Sizes, symbol: nat, codeLen: nat)
    requires Answers(x, sizes, symbol, codeLen) && Strays(x, sizes, symbol, codeLen)
    ensures (symbol, codeLen) == Decoded(x, sizes)
  {
    if Spelled(x, sizes) {
      var s: nat :| Spells(x, sizes, s);
      DecodedSymbol(x, sizes, s);
    }
  }

  lemma StrayStep(x: nat, sizes: Sizes, d: nat)
    requires FAST_BITS <= d < MAX_BITS && IsPrefix(sizes, d, Top(x, d))
    ensures StrayFrom(x, sizes, d) == StrayFrom(x, sizes, d + 1)
  {
  }

  // ---------------------------------------------------------------- helpers of the table construction

  /** A buffer spells a symbol exactly when its low bits are the reversed code. */
  lemma SpellsLow(x: nat, sizes: Sizes, s: nat)
    requires Used(sizes, s) && First(sizes, 16) <= 65536
    ensures Spells(x, sizes, s) <==> Low(x, sizes[s]) == CodeWord(sizes, s)
  {
    CodeFits(sizes, s);
    TopOfReverse(Code(sizes, s), sizes[s]);
    TopSameLow(x, CodeWord(sizes, s), sizes[s]);
    LowOfSmall(CodeWord(sizes, s), sizes[s]);
  }

  lemma OnPathFrom(x: nat, d: nat, nodes: map<Key, nat>, nodes': map<Key, nat>)
    requires d >= FAST_BITS
    requires d > FAST_BITS ==> OnPath(x, d - 1, nodes)
    requires (forall k :: k in nodes ==> k in nodes') && (d, Top(x, d)) in nodes'
    ensures OnPath(x, d, nodes')
  {
    hide Top;
  }

  /** All beginnings of a buffer from ten to `d` bits have nodes. */
  ghost predicate OnPath(x: nat, d: nat, nodes: map<Key, nat>) {
    forall e :: FAST_BITS <= e <= d ==> (e, Top(x, e)) in nodes
  }

  class DecodeTable {
    const lookUp: array<int>
    const tree: array<int>
    ghost var nodes: map<Key, nat>

    constructor ()
      ensures lookUp.Length == FAST_SIZE && tree.Length == TREE_SIZE && fresh(lookUp) && fresh(tree) && lookUp != tree
    {
      lookUp := new int[FAST_SIZE];
      tree := new int[TREE_SIZE];
      nodes := map[];
    }

    ghost predicate Shaped() {
      lookUp.Length == FAST_SIZE && tree.Length == TREE_SIZE && lookUp != tree
    }

    ghost predicate Holds(sizes: Sizes, done: nat)
      requires Shaped()
      reads this, lookUp, tree
    {
      Entered(sizes, done, lookUp[..], tree[..], nodes)
    }

    /** `v` is what the tables store for the node of the first `d` bits. */
    ghost predicate AtNode(x: nat, d: nat, v: int)
      reads this
    {
      (d, Top(x, d)) in nodes && v == Ref(nodes[(d, Top(x, d))])
    }

    /** The table decodes the code-length vector. */
    ghost predicate Decodes(sizes: Sizes)
      reads this, lookUp, tree
    {
      Shaped() && Holds(sizes, |sizes|)
    }

    method Clear(a: array<int>)
      modifies a
      ensures forall i :: 0 <= i < a.Length ==> a[i] == 0
    {
      for i := 0 to a.Length
        invariant forall j :: 0 <= j < i ==> a[j] == 0
      {
        a[i] := 0;
      }
    }

    /** Writes an entry at every index that has the given low bits. */
    method Fill(rev: nat, size: nat, k: int)
      requires Shaped() && rev < Pow2(size)
      modifies lookUp
      ensures forall i :: 0 <= i < FAST_SIZE ==> lookUp[i] == if Low(i, size) == rev then k else old(lookUp[i])
    {
      hide Low, Pow2;
      var r, step := rev, Pow2(size);
      LowOfSmall(rev, size);
      forall i | 0 <= i < rev ensures Low(i, size) != rev { LowOfSmall(i, size); }
      while r < FAST_SIZE
        invariant Low(r, size) == rev
        invariant forall i :: 0 <= i < FAST_SIZE ==> lookUp[i] == if i < r && Low(i, size) == rev then k else old(lookUp[i])
        decreases FAST_SIZE - r
      {
        lookUp[r] := k;
        LowRepeats(r, size);
        forall i | r <= i < r + step ensures Low(i, size) == rev <==> i == r {
          if Low(i, size) == rev { LowDistinct(r, i, size); }
        }
        r := r + step;
      }
    }

    /** Enters a code of at most ten bits at every index that begins with it. */
    method EnterShort(sizes: Sizes, s: nat, rev: nat)
      requires Shaped() && Holds(sizes, s) && First(sizes, 16) <= 65536
      requires s < |sizes| && 1 <= sizes[s] <= FAST_BITS && rev == CodeWord(sizes, s)
      modifies lookUp
      ensures Holds(sizes, s + 1)
    {
      hide CodeWord, Spells, Pow2, Entered, First;
      CodeWordFits(sizes, s);
      ghost var before := lookUp[..];
      var k := sizes[s] * 512 + s;
      Fill(rev, sizes[s], k);
      forall i | 0 <= i < FAST_SIZE ensures lookUp[i] == if Spells(i, sizes, s) then k else before[i] {
        SpellsLow(i, sizes, s);
      }
      ShortEntered(sizes, s, before, lookUp[..], tree[..], nodes);
    }

    /** Enters a longer code: its first ten bits lead to a root, and each further bit but the last to a
        node, which is made where it is missing. */
    method EnterLong(sizes: Sizes, s: nat, rev: nat, treeNext: int) returns (next: int)
      requires Shaped() && Holds(sizes, s) && treeNext == Ref(|nodes|) && Accepted(sizes)
      requires s < |sizes| && sizes[s] > FAST_BITS && rev == CodeWord(sizes, s)
      modifies this`nodes, lookUp, tree
      ensures Holds(sizes, s + 1) && next == Ref(|nodes|)
    {
      hide CodeWord, Accepted, Holds, Top, Bit, Shr, Spells, First, Pow2, OnPath, AtNode;
      var cur;
      ghost var size := sizes[s];
      AcceptedSum(sizes);
      RevSpells(sizes, s);
      cur, next := EnterRoot(sizes, s, rev, treeNext);
      var r, j := rev / 512, sizes[s];
      ShrIs512(rev);
      ghost var d := FAST_BITS;
      while j > FAST_BITS + 1
        invariant FAST_BITS < j <= size && d == FAST_BITS + size - j && r == Shr(rev, d - 1)
        invariant Holds(sizes, s) && next == Ref(|nodes|)
        invariant OnPath(rev, d, nodes) && AtNode(rev, d, cur)
      {
        ShrOneMore(rev, d - 1);
        ShrOneMore(rev, d);
        r := r / 2;
        cur, next := Descend(sizes, s, rev, d, cur, r % 2, next);
        d := d + 1;
        j := j - 1;
      }
      ShrOneMore(rev, d - 1);
      ShrOneMore(rev, d);
      r := r / 2;
      EnterLeaf(sizes, s, rev, d, cur, r % 2);
    }

    /** Puts the next free node into an empty entry of the lookup table. */
    method MakeRoot(sizes: Sizes, ghost s: nat, idx: nat, treeNext: int)
      requires Shaped() && Holds(sizes, s) && treeNext == Ref(|nodes|) && Accepted(sizes)
      requires idx < FAST_SIZE && lookUp[idx] == 0 && IsPrefix(sizes, FAST_BITS, Top(idx, FAST_BITS))
      modifies this`nodes, lookUp
      ensures var k := (FAST_BITS, Top(idx, FAST_BITS));
              Holds(sizes, s) && k !in old(nodes) && nodes == old(nodes)[k := old(|nodes|)] && |nodes| == old(|nodes|) + 1
    {
      hide Accepted, Top, IsPrefix, Entered;
      ghost var k := (FAST_BITS, Top(idx, FAST_BITS));
      RootAdded(sizes, s, lookUp[..], tree[..], nodes, idx, k);
      OneMoreKey(nodes, k, |nodes|);
      lookUp[idx] := treeNext;
      nodes := nodes[k := |nodes|];
      assert lookUp[..] == old(lookUp[..])[idx := treeNext];
    }

    method EnterRoot(sizes: Sizes, ghost s: nat, rev: nat, treeNext: int) returns (cur: int, next: int)
      requires Shaped() && Holds(sizes, s) && treeNext == Ref(|nodes|) && Accepted(sizes)
      requires s < |sizes| && sizes[s] > FAST_BITS && Spells(rev, sizes, s)
      modifies this`nodes, lookUp
      ensures Holds(sizes, s) && next == Ref(|nodes|)
      ensures OnPath(rev, FAST_BITS, nodes) && AtNode(rev, FAST_BITS, cur)
    {
      hide Accepted, Top, Spells, IsPrefix, Entered, LookupEntry, PathsAllocated, Pow2, OnPath;
      var idx := rev % FAST_SIZE;
      LowTen(rev);
      TopOfLow(rev, FAST_BITS);
      SpellsPrefix(rev, sizes, s, FAST_BITS);
      EnteredLookup(sizes, s, lookUp[..], tree[..], nodes, idx);
      cur, next := lookUp[idx], treeNext;
      if cur == 0 {
        MakeRoot(sizes, s, idx, treeNext);
        cur := next;
        next := next - 2;
      } else {
        RootFound(sizes, s, cur, nodes, idx);
      }
      OnPathFrom(rev, FAST_BITS, old(nodes), nodes);
    }

    /** Puts the next free node into an empty slot of a node. */
    method MakeChild(sizes: Sizes, ghost s: nat, ghost p: Key, ghost bit: nat, slot: nat, treeNext: int)
      requires Shaped() && Holds(sizes, s) && treeNext == Ref(|nodes|) && Accepted(sizes)
      requires p in nodes && bit < 2 && slot == Slot(nodes[p], bit) < TREE_SIZE && tree[slot] == 0
      requires p.0 + 1 < MAX_BITS && IsPrefix(sizes, p.0 + 1, ChildKey(p, bit).1)
      modifies this`nodes, tree
      ensures var k := ChildKey(p, bit);
              Holds(sizes, s) && k !in old(nodes) && nodes == old(nodes)[k := old(|nodes|)] && |nodes| == old(|nodes|) + 1
    {
      hide Accepted, IsPrefix, Entered, SlotHolds, TreeEntry;
      ghost var k := ChildKey(p, bit);
      EnteredSlot(sizes, s, lookUp[..], tree[..], nodes, p, bit);
      ChildAdded(sizes, s, lookUp[..], tree[..], nodes, p, bit);
      OneMoreKey(nodes, k, |nodes|);
      tree[slot] := treeNext;
      nodes := nodes[k := |nodes|];
      assert tree[..] == old(tree[..])[slot := treeNext];
    }

    /** The slot of the next bit, and the node that belongs in it. */
    lemma NextSlot(sizes: Sizes, s: nat, rev: nat, d: nat, node: int, bit: nat)
      requires Shaped() && Holds(sizes, s)
      requires s < |sizes| && FAST_BITS <= d && d + 1 < sizes[s] && Spells(rev, sizes, s) && bit == Bit(rev, d)
      requires AtNode(rev, d, node)
      ensures var p := (d, Top(rev, d));
              && bit < 2 && d + 1 < MAX_BITS && p in nodes && -(node - bit) - 1 == Slot(nodes[p], bit) < TREE_SIZE
              && ChildKey(p, bit) == (d + 1, Top(rev, d + 1)) && IsPrefix(sizes, d + 1, Top(rev, d + 1))
              && TreeEntry(sizes, s, tree[Slot(nodes[p], bit)], nodes, ChildKey(p, bit))
    {
      hide Top, Bit, Spells, IsPrefix, Entered, SlotHolds, TreeEntry, Pow2;
      TopOneMore(rev, d);
      SpellsPrefix(rev, sizes, s, d + 1);
      EnteredSlot(sizes, s, lookUp[..], tree[..], nodes, (d, Top(rev, d)), bit);
    }

    method Descend(sizes: Sizes, ghost s: nat, rev: nat, ghost d: nat, node: int, bit: nat, treeNext: int) returns (cur: int, next: int)
      requires Shaped() && Holds(sizes, s) && treeNext == Ref(|nodes|) && Accepted(sizes)
      requires s < |sizes| && FAST_BITS <= d && d + 1 < sizes[s] && Spells(rev, sizes, s) && bit == Bit(rev, d)
      requires OnPath(rev, d, nodes) && AtNode(rev, d, node)
      modifies this`nodes, tree
      ensures Holds(sizes, s) && next == Ref(|nodes|)
      ensures OnPath(rev, d + 1, nodes) && AtNode(rev, d + 1, cur)
    {
      hide Accepted, Top, Bit, Spells, IsPrefix, Entered, SlotHolds, TreeEntry, Pow2, OnPath, Holds, ChildKey, Slot;
      ghost var p, k := (d, Top(rev, d)), (d + 1, Top(rev, d + 1));
      NextSlot(sizes, s, rev, d, node, bit);
      cur, next := node - bit, treeNext;
      var slot := -cur - 1;
      if tree[slot] == 0 {
        MakeChild(sizes, s, p, bit, slot, treeNext);
        cur := next;
        next := next - 2;
      } else {
        ChildFound(sizes, s, tree[slot], nodes, k);
        cur := tree[slot];
      }
      OnPathFrom(rev, d + 1, old(nodes), nodes);
    }

    method EnterLeaf(sizes: Sizes, s: nat, rev: nat, ghost d: nat, node: int, bit: nat)
      requires Shaped() && Holds(sizes, s)
      requires s < |sizes| && sizes[s] == d + 1 > FAST_BITS && Spells(rev, sizes, s) && bit == Bit(rev, d)
      requires OnPath(rev, d, nodes) && AtNode(rev, d, node)
      modifies tree
      ensures Holds(sizes, s + 1)
    {
      ghost var p := (d, Top(rev, d));
      TopOneMore(rev, d);
      assert LeafOf(sizes, s, ChildKey(p, bit));
      forall e | FAST_BITS <= e < sizes[s] ensures Beginning(sizes, s, e) in nodes {
        SpellsPrefix(rev, sizes, s, e);
      }
      hide Top, Spells, Beginning, LeafOf;
      assert SlotHolds(sizes, s, tree[..], nodes, p, bit);
      LeafAdded(sizes, s, lookUp[..], tree[..], nodes, p, bit);
      hide Entered;
      var cur := node - bit;
      tree[-cur - 1] := s;
      assert tree[..] == old(tree[..])[-cur - 1 := s];
    }

    /** The table construction; refuses a vector that is neither a full code nor a single one. */
    method Build(sizes: Sizes) returns (ok: bool)
      requires Shaped() && |sizes| <= MAX_SYMBOLS
      modifies this`nodes, lookUp, tree
      ensures ok <==> Accepted(sizes)
      ensures ok ==> Decodes(sizes)
    {
      hide Entered;
      Clear(lookUp);
      Clear(tree);
      var nextCode, total, used := CountSizes(sizes);
      if total != 65536 && used > 1 {
        return false;
      }
      AcceptedSum(sizes);
      EmptyTable(sizes, lookUp[..], tree[..]);
      nodes := map[];
      var treeNext, s := -1, 0;
      while s < |sizes|
        invariant s <= |sizes| && Holds(sizes, s) && treeNext == Ref(|nodes|) && NextCodes(nextCode, sizes, s, MAX_BITS)
      {
        var size := sizes[s];
        if size == 0 {
          UnusedSkipped(sizes, s, lookUp[..], tree[..], nodes);
        } else {
          var rev := ReverseBits(nextCode[size], size);
          assert rev == CodeWord(sizes, s);
          if size <= FAST_BITS {
            EnterShort(sizes, s, rev);
          } else {
            treeNext := EnterLong(sizes, s, rev, treeNext);
          }
          nextCode := nextCode[size := nextCode[size] + 1];
        }
        s := s + 1;
      }
      return true;
    }

    /** `TINFL_HUFF_DECODE`, on whatever is in the buffer. */
    method Decode(bitBuf: nat, ghost sizes: Sizes) returns (symbol: nat, codeLen: nat)
      requires Decodes(sizes)
      ensures (symbol, codeLen) == Decoded(bitBuf, sizes)
    {
      hide Spells, Top, Bit, Pow2, IsPrefix, Entered, Answers, Strays, LookupEntry, PathsAllocated, TreeEntry, StrayFrom, StrayLength, Decoded;
      var idx := bitBuf % FAST_SIZE;
      LowTen(bitBuf);
      TopOfLow(bitBuf, FAST_BITS);
      var temp := lookUp[idx];
      EnteredLookup(sizes, |sizes|, lookUp[..], tree[..], nodes, idx);
      if temp >= 0 {
        symbol, codeLen := temp % 512, temp / 512;
        LookupAnswers(sizes, temp, nodes, bitBuf, idx);
        LookupStrays(sizes, temp, nodes, bitBuf, idx);
      } else {
        LookupNode(sizes, temp, nodes, idx);
        codeLen := FAST_BITS;
        RootStrays(sizes, lookUp[..], tree[..], nodes, bitBuf);
        while temp < 0
          invariant FAST_BITS <= codeLen <= MAX_BITS
          invariant temp < 0 ==> (codeLen, Top(bitBuf, codeLen)) in nodes && temp == Ref(nodes[(codeLen, Top(bitBuf, codeLen))])
          invariant temp < 0 ==> StrayLength(bitBuf, sizes) == StrayFrom(bitBuf, sizes, codeLen)
          invariant temp >= 0 ==> Answers(bitBuf, sizes, temp, codeLen) && Strays(bitBuf, sizes, temp, codeLen)
          decreases MAX_BITS - codeLen, temp < 0
        {
          ghost var k := (codeLen, Top(bitBuf, codeLen));
          var bit := Bit(bitBuf, codeLen);
          TopOneMore(bitBuf, codeLen);
          EnteredSlot(sizes, |sizes|, lookUp[..], tree[..], nodes, k, bit);
          temp := tree[-temp - 1 + bit];
          StrayStep(bitBuf, sizes, codeLen);
          codeLen := codeLen + 1;
          if temp >= 0 {
            TreeAnswers(sizes, temp, nodes, k, bit, bitBuf);
            TreeStrays(sizes, temp, nodes, k, bit, bitBuf);
          } else {
            TreeNode(sizes, temp, nodes, ChildKey(k, bit));
          }
        }
        symbol := temp;
      }
      BothIsDecoded(bitBuf, sizes, symbol, codeLen);
    }

    /** Decodes `n` symbols; if the buffer spells `n` symbols, those are the result, and what is left of
        the buffer is what follows their codes. */
    method DecodeSymbols(bitBuf: nat, n: nat, ghost sizes: Sizes, ghost expected: seq<nat>) returns (symbols: seq<nat>)
      requires Decodes(sizes) && SpellsAll(bitBuf, sizes, expected) && |expected| == n
      ensures symbols == expected
    {
      hide Decodes;
      symbols := [];
      var buf := bitBuf;
      while |symbols| < n
        invariant |symbols| <= n && symbols == expected[..|symbols|]
        invariant SpellsAll(buf, sizes, expected[|symbols|..])
      {
        DecodedSymbol(buf, sizes, expected[|symbols|]);
        var s, len := Decode(buf, sizes);
        buf := Shr(buf, len);
        symbols := symbols + [s];
      }
    }
  }

  /** Encoding and decoding: the bytes the encoder writes for a sequence of symbols decode to it. */
  method RoundTrip(sizes: Sizes, codes: seq<nat>, symbols: seq<nat>) returns (decoded: seq<nat>)
    requires |sizes| <= MAX_SYMBOLS && Accepted(sizes) && AllUsed(sizes, symbols)
    requires |codes| == |sizes| && forall s :: 0 <= s < |sizes| && sizes[s] > 0 ==> codes[s] == CodeWord(sizes, s)
    ensures decoded == symbols
  {
    AcceptedSum(sizes);
    var writer := new BitWriter();
    writer.PutSymbols(sizes, codes, symbols);
    var table := new DecodeTable();
    var ok := table.Build(sizes);
    ghost var x := writer.Stream();
    EncodedSpellsAll(sizes, symbols, 0);
    EncodedBound(sizes, symbols);
    AppendNothing(Encoded(sizes, symbols), EncodedLength(sizes, symbols));
    assert Append(0, 0, Encoded(sizes, symbols)) == Encoded(sizes, symbols);
    var bits := Append(BytesValue(writer.output), 8 * |writer.output|, writer.bitBuffer);
    decoded := table.DecodeSymbols(bits, |symbols|, sizes, symbols);
  }

  // ---------------------------------------------------------------- lemmas of the methods

  lemma {:induction false} EncodedBound(sizes: Sizes, symbols: seq<nat>)
    requires AllUsed(sizes, symbols)
    ensures Encoded(sizes, symbols) < Pow2(EncodedLength(sizes, symbols))
  {
    if symbols != [] {
      assert Used(sizes, symbols[0]);
      forall i | 0 <= i < |symbols| - 1 ensures Used(sizes, symbols[1..][i]) { assert Used(sizes, symbols[i + 1]); }
      EncodedBound(sizes, symbols[1..]);
      AppendBound(CodeWord(sizes, symbols[0]), sizes[symbols[0]], Encoded(sizes, symbols[1..]), EncodedLength(sizes, symbols[1..]));
    }
  }

  lemma OneMoreKey(nodes: map<Key, nat>, k: Key, n: nat)
    requires k !in nodes
    ensures |nodes[k := n]| == |nodes| + 1
  {
    assert nodes[k := n].Keys == nodes.Keys + {k};
  }

  lemma RevSpells(sizes: Sizes, s: nat)
    requires Used(sizes, s) && First(sizes, 16) <= 65536
    ensures Spells(CodeWord(sizes, s), sizes, s)
  {
    CodeFits(sizes, s);
    TopOfReverse(Code(sizes, s), sizes[s]);
  }

  lemma ShrIs512(x: nat)
    ensures Shr(x, 9) == x / 512
  {
    ShrOneMore(x, 8);
    ShrOneMore(x, 7);
    ShrOneMore(x, 6);
    ShrOneMore(x, 5);
    ShrOneMore(x, 4);
    ShrOneMore(x, 3);
    ShrOneMore(x, 2);
    ShrOneMore(x, 1);
    ShrOneMore(x, 0);
  }

  /** `total_syms`. */
  method CountEachSize(sizes: Sizes) returns (totals: seq<nat>)
    ensures |totals| == 16 && forall len :: 0 <= len < 16 ==> totals[len] == Count(sizes, len)
  {
    totals := seq(16, i => 0);
    for i := 0 to |sizes|
      invariant |totals| == 16 && forall len :: 0 <= len < 16 ==> totals[len] == CountIn(sizes, i, len)
    {
      totals := totals[sizes[i] := totals[sizes[i]] + 1];
    }
  }

  /** `next_code`, the Kraft total and the number of codes. */
  method CountSizes(sizes: Sizes) returns (nextCode: seq<nat>, total: nat, used: nat)
    ensures |nextCode| == 17 && NextCodes(nextCode, sizes, 0, MAX_BITS)
    ensures total == First(sizes, 16) && used == UsedBelow(sizes, 16)
  {
    hide Count, CountIn, First, UsedBelow;
    var totals := CountEachSize(sizes);
    FirstStart(sizes);
    nextCode := seq(17, i => 0);
    used, total := 0, 0;
    for i := 1 to 16
      invariant |nextCode| == 17 && forall len :: 1 <= len <= i ==> nextCode[len] == First(sizes, len)
      invariant total == First(sizes, i) && used == UsedBelow(sizes, i)
    {
      FirstNext(sizes, i);
      used := used + totals[i];
      total := 2 * (total + totals[i]);
      nextCode := nextCode[i + 1 := total];
    }
    forall len | 1 <= len <= MAX_BITS ensures nextCode[len] == First(sizes, len) + CountIn(sizes, 0, len) {
      CountNone(sizes, len);
    }
  }

  lemma FirstStart(sizes: Sizes)
    ensures First(sizes, 1) == 0 && UsedBelow(sizes, 1) == 0
  {
  }

  lemma FirstNext(sizes: Sizes, len: nat)
    requires len >= 1
    ensures First(sizes, len + 1) == 2 * (First(sizes, len) + Count(sizes, len))
    ensures UsedBelow(sizes, len + 1) == UsedBelow(sizes, len) + Count(sizes, len)
  {
  }

  lemma PathHas(sizes: Sizes, nodes: map<Key, nat>, x: nat, s: nat, d: nat)
    requires Spells(x, sizes, s) && FAST_BITS <= d < sizes[s] && PathsAllocated(sizes, |sizes|, nodes)
    ensures (d, Top(x, d)) in nodes
  {
    SpellsPrefix(x, sizes, s, d);
    assert Beginning(sizes, s, d) == (d, Top(x, d));
  }

  lemma ShortIsSpelledByIndex(sizes: Sizes, x: nat, idx: nat, s: nat)
    requires Spells(x, sizes, s) && sizes[s] <= FAST_BITS && Top(idx, FAST_BITS) == Top(x, FAST_BITS)
    ensures Spells(idx, sizes, s)
  {
    TopPrefix(x, sizes[s], FAST_BITS - sizes[s]);
    TopPrefix(idx, sizes[s], FAST_BITS - sizes[s]);
  }

  lemma LookupAnswers(sizes: Sizes, e: int, nodes: map<Key, nat>, x: nat, idx: nat)
    requires |sizes| <= MAX_SYMBOLS
    requires e >= 0 && LookupEntry(sizes, |sizes|, e, nodes, idx) && PathsAllocated(sizes, |sizes|, nodes)
    requires Top(idx, FAST_BITS) == Top(x, FAST_BITS)
    ensures Answers(x, sizes, e % 512, e / 512)
  {
    hide PathsAllocated, Top, ShortEntry;
    forall s: nat | Spells(x, sizes, s) ensures e % 512 == s && e / 512 == sizes[s] {
      if sizes[s] <= FAST_BITS {
        ShortIsSpelledByIndex(sizes, x, idx, s);
        hide Spells;
        assert e == sizes[s] * 512 + s;
      } else {
        PathHas(sizes, nodes, x, s, FAST_BITS);
        assert false;
      }
    }
  }

  lemma LookupNode(sizes: Sizes, e: int, nodes: map<Key, nat>, idx: nat)
    requires e < 0 && LookupEntry(sizes, |sizes|, e, nodes, idx)
    ensures var k := (FAST_BITS, Top(idx, FAST_BITS)); k in nodes && e == Ref(nodes[k])
  {
  }

  lemma TreeNode(sizes: Sizes, e: int, nodes: map<Key, nat>, child: Key)
    requires e < 0 && TreeEntry(sizes, |sizes|, e, nodes, child)
    ensures child in nodes && e == Ref(nodes[child])
  {
  }

  lemma TreeAnswers(sizes: Sizes, e: int, nodes: map<Key, nat>, k: Key, bit: nat, x: nat)
    requires bit == Bit(x, k.0) && k == (k.0, Top(x, k.0)) && FAST_BITS <= k.0 && IsPrefix(sizes, k.0, k.1)
    requires e >= 0 && TreeEntry(sizes, |sizes|, e, nodes, ChildKey(k, bit)) && PathsAllocated(sizes, |sizes|, nodes)
    ensures Answers(x, sizes, e, k.0 + 1)
  {
    hide PathsAllocated, IsPrefix, Top, Bit;
    TopOneMore(x, k.0);
    var child := ChildKey(k, bit);
    forall s: nat | Spells(x, sizes, s) ensures e == s && sizes[s] == k.0 + 1 {
      if sizes[s] <= k.0 {
        PrefixPassesNoCode(sizes, s, x, k.0);
        assert false;
      } else if sizes[s] == k.0 + 1 {
        assert LeafOf(sizes, s, child);
      } else {
        PathHas(sizes, nodes, x, s, k.0 + 1);
        assert false;
      }
    }
  }

  /** All proper prefixes of ten bits or more have nodes once all symbols are entered. */
  lemma PrefixHasNode(sizes: Sizes, nodes: map<Key, nat>, d: nat, t: nat)
    requires IsPrefix(sizes, d, t) && d >= FAST_BITS && PathsAllocated(sizes, |sizes|, nodes)
    ensures (d, t) in nodes
  {
    var s: nat :| PrefixOf(sizes, s, d, t);
    assert Beginning(sizes, s, d) == (d, t);
  }

  lemma LookupStrays(sizes: Sizes, e: int, nodes: map<Key, nat>, x: nat, idx: nat)
    requires |sizes| <= MAX_SYMBOLS
    requires e >= 0 && LookupEntry(sizes, |sizes|, e, nodes, idx) && PathsAllocated(sizes, |sizes|, nodes)
    requires Top(idx, FAST_BITS) == Top(x, FAST_BITS)
    ensures Strays(x, sizes, e % 512, e / 512)
  {
    hide PathsAllocated, Top, IsPrefix;
    if !Spelled(x, sizes) {
      if e > 0 { ShortIsSpelledByIndex(sizes, idx, x, e % 512); }
      if IsPrefix(sizes, FAST_BITS, Top(x, FAST_BITS)) { PrefixHasNode(sizes, nodes, FAST_BITS, Top(x, FAST_BITS)); }
    }
  }

  lemma RootStrays(sizes: Sizes, lookup: seq<int>, tree: seq<int>, nodes: map<Key, nat>, x: nat)
    requires Entered(sizes, |sizes|, lookup, tree, nodes) && (FAST_BITS, Top(x, FAST_BITS)) in nodes
    ensures StrayLength(x, sizes) == StrayFrom(x, sizes, FAST_BITS)
  {
    hide IsPrefix, Top, StrayFrom, LookupHolds, TreeHolds, PathsAllocated;
  }

  lemma LeafSpells(sizes: Sizes, s: nat, child: Key, x: nat)
    requires LeafOf(sizes, s, child) && child == (child.0, Top(x, child.0))
    ensures Spelled(x, sizes)
  {
    assert Spells(x, sizes, s);
  }

  lemma TreeStrays(sizes: Sizes, e: int, nodes: map<Key, nat>, k: Key, bit: nat, x: nat)
    requires bit == Bit(x, k.0) && k == (k.0, Top(x, k.0)) && FAST_BITS <= k.0 < MAX_BITS
    requires StrayLength(x, sizes) == StrayFrom(x, sizes, k.0 + 1)
    requires e >= 0 && TreeEntry(sizes, |sizes|, e, nodes, ChildKey(k, bit)) && PathsAllocated(sizes, |sizes|, nodes)
    ensures Strays(x, sizes, e, k.0 + 1)
  {
    hide PathsAllocated, IsPrefix, Top, Bit, StrayLength;
    TopOneMore(x, k.0);
    var child := ChildKey(k, bit);
    assert child == (k.0 + 1, Top(x, k.0 + 1));
    if !Spelled(x, sizes) {
      if e > 0 { LeafSpells(sizes, e, child, x); }
      if IsPrefix(sizes, k.0 + 1, Top(x, k.0 + 1)) { PrefixHasNode(sizes, nodes, k.0 + 1, Top(x, k.0 + 1)); }
    }
  }
}
