/** What the exclusions of `diff` in `src/any.cpp` do: they leave out the patches for the listed paths, and nothing else. */
module JsonExclusions {
  import opened JsonPointer
  import opened JsonPatch

  function Kept(patches: seq<Patch>, exclusions: seq<string>): seq<Patch> {
    if patches == [] then []
    else (if patches[0].path in exclusions then [] else [patches[0]]) + Kept(patches[1..], exclusions)
  }

  lemma {:induction false} KeptConcat(p: seq<Patch>, q: seq<Patch>, exclusions: seq<string>)
    ensures Kept(p + q, exclusions) == Kept(p, exclusions) + Kept(q, exclusions)
  {
    if p == [] {
      assert p + q == q;
    } else {
      assert (p + q)[1..] == p[1..] + q;
      KeptConcat(p[1..], q, exclusions);
    }
  }

  lemma KeptOne(op: Op, path: string, suffix: string, value: Any, exclusions: seq<string>)
    ensures AddPatch(op, path, suffix, value, exclusions) == Kept(AddPatch(op, path, suffix, value, []), exclusions)
  {
  }

  lemma {:induction false} KeptItems(path: string, lhs: Any, rhs: seq<Any>, index: nat, min: nat, exclusions: seq<string>,
                                     order: set<string> -> seq<string>)
    requires lhs.Array? && index <= min <= |lhs.items| && min <= |rhs|
    ensures ItemPatches(path, lhs, rhs, index, min, exclusions, order)
         == Kept(ItemPatches(path, lhs, rhs, index, min, [], order), exclusions)
    decreases lhs, 0, min - index
  {
    hide CreatePatches, ToDecimal, Kept;
    if index == min {
      KeptNothing(exclusions);
    } else {
      var below := path + "/" + ToDecimal(index);
      DiffWithExclusions(below, lhs.items[index], rhs[index], exclusions, order);
      KeptItems(path, lhs, rhs, index + 1, min, exclusions, order);
      KeptConcat(CreatePatches(below, lhs.items[index], rhs[index], [], order),
                 ItemPatches(path, lhs, rhs, index + 1, min, [], order), exclusions);
    }
  }

  lemma KeptNothing(exclusions: seq<string>)
    ensures Kept([], exclusions) == []
  {
  }

  lemma {:induction false} KeptLeftovers(path: string, min: nat, count: nat, exclusions: seq<string>)
    ensures LeftoverPatches(path, min, count, exclusions) == Kept(LeftoverPatches(path, min, count, []), exclusions)
  {
    hide AddPatch, ToDecimal, Kept;
    if count == 0 {
      KeptNothing(exclusions);
    } else {
      KeptOne(Remove, path, ToDecimal(min), Null, exclusions);
      KeptLeftovers(path, min, count - 1, exclusions);
      KeptConcat(AddPatch(Remove, path, ToDecimal(min), Null, []), LeftoverPatches(path, min, count - 1, []), exclusions);
    }
  }

  lemma {:induction false} KeptNewItems(path: string, items: seq<Any>, exclusions: seq<string>)
    ensures NewItemPatches(path, items, exclusions) == Kept(NewItemPatches(path, items, []), exclusions)
  {
    hide AddPatch, Kept;
    if items == [] {
      KeptNothing(exclusions);
    } else {
      KeptOne(Add, path, "-", items[0], exclusions);
      KeptNewItems(path, items[1..], exclusions);
      KeptConcat(AddPatch(Add, path, "-", items[0], []), NewItemPatches(path, items[1..], []), exclusions);
    }
  }

  lemma {:induction false} KeptMembers(path: string, lhs: Any, rhs: map<string, Any>, keys: seq<string>, exclusions: seq<string>,
                                       order: set<string> -> seq<string>)
    requires lhs.Object?
    ensures MemberPatches(path, lhs, rhs, keys, exclusions, order) == Kept(MemberPatches(path, lhs, rhs, keys, [], order), exclusions)
    decreases lhs, 0, |keys|
  {
    hide CreatePatches, AddPatch, Kept;
    KeptNothing(exclusions);
    if keys != [] {
      var k := keys[0];
      var first := [];
      if k in lhs.members {
        if k in rhs {
          DiffWithExclusions(path + "/" + k, lhs.members[k], rhs[k], exclusions, order);
          first := CreatePatches(path + "/" + k, lhs.members[k], rhs[k], [], order);
        } else {
          KeptOne(Remove, path, k, Null, exclusions);
          first := AddPatch(Remove, path, k, Null, []);
        }
      }
      KeptMembers(path, lhs, rhs, keys[1..], exclusions, order);
      KeptConcat(first, MemberPatches(path, lhs, rhs, keys[1..], [], order), exclusions);
    }
  }

  lemma {:induction false} KeptNewMembers(path: string, lhs: map<string, Any>, rhs: map<string, Any>, keys: seq<string>,
                                          exclusions: seq<string>)
    ensures NewMemberPatches(path, lhs, rhs, keys, exclusions) == Kept(NewMemberPatches(path, lhs, rhs, keys, []), exclusions)
    decreases |keys|
  {
    hide AddPatch, Kept;
    KeptNothing(exclusions);
    if keys != [] {
      var k := keys[0];
      var first := [];
      if k in rhs && k !in lhs {
        KeptOne(Add, path, k, rhs[k], exclusions);
        first := AddPatch(Add, path, k, rhs[k], []);
      }
      KeptNewMembers(path, lhs, rhs, keys[1..], exclusions);
      KeptConcat(first, NewMemberPatches(path, lhs, rhs, keys[1..], []), exclusions);
    }
  }

  /** Exclusions only leave patches out, at any depth: those for the listed paths. */
  lemma {:induction false} DiffWithExclusions(path: string, a: Any, b: Any, exclusions: seq<string>,
                                              order: set<string> -> seq<string>)
    ensures CreatePatches(path, a, b, exclusions, order) == Kept(CreatePatches(path, a, b, [], order), exclusions)
    decreases a, 1, 0
  {
    hide Kept, AddPatch;
    KeptNothing(exclusions);
    KeptOne(Replace, path, "", b, exclusions);
    if a.Array? && b.Array? {
      KeptArray(path, a, b, exclusions, order);
    } else if a.Object? && b.Object? {
      KeptObject(path, a, b, exclusions, order);
    }
  }

  lemma {:induction false} KeptArray(path: string, a: Any, b: Any, exclusions: seq<string>, order: set<string> -> seq<string>)
    requires a.Array? && b.Array?
    ensures CreatePatches(path, a, b, exclusions, order) == Kept(CreatePatches(path, a, b, [], order), exclusions)
    decreases a, 0, |a.items| + 1
  {
    hide Kept, ItemPatches, LeftoverPatches, NewItemPatches;
    var x, y := a.items, b.items;
    var min := if |x| < |y| then |x| else |y|;
    KeptItems(path, a, y, 0, min, exclusions, order);
    KeptLeftovers(path, min, |x| - min, exclusions);
    KeptNewItems(path, y[min..], exclusions);
    var p, q := ItemPatches(path, a, y, 0, min, [], order), LeftoverPatches(path, min, |x| - min, []);
    KeptConcat(p, q, exclusions);
    KeptConcat(p + q, NewItemPatches(path, y[min..], []), exclusions);
  }

  lemma {:induction false} KeptObject(path: string, a: Any, b: Any, exclusions: seq<string>, order: set<string> -> seq<string>)
    requires a.Object? && b.Object?
    ensures CreatePatches(path, a, b, exclusions, order) == Kept(CreatePatches(path, a, b, [], order), exclusions)
    decreases a, 0, |order(a.members.Keys)| + 1
  {
    hide Kept, MemberPatches, NewMemberPatches;
    var x, y := a.members, b.members;
    KeptMembers(path, a, y, order(x.Keys), exclusions, order);
    KeptNewMembers(path, x, y, order(y.Keys), exclusions);
    KeptConcat(MemberPatches(path, a, y, order(x.Keys), [], order), NewMemberPatches(path, x, y, order(y.Keys), []), exclusions);
  }

  lemma {:induction false} KeptNone(patches: seq<Patch>, exclusions: seq<string>)
    ensures Kept(patches, exclusions) == [] <==> forall p :: p in patches ==> p.path in exclusions
  {
    if patches != [] {
      KeptNone(patches[1..], exclusions);
      assert patches == [patches[0]] + patches[1..];
    }
  }

  /** The difference with exclusions is null exactly when every patch of the full difference is for a listed path. */
  lemma DiffIsEmptyIffExcluded(a: Any, b: Any, exclusions: seq<string>, order: set<string> -> seq<string>)
    ensures Diff(a, b, exclusions, order) == NoList <==>
            forall p :: p in CreatePatches("", a, b, [], order) ==> p.path in exclusions
  {
    DiffWithExclusions("", a, b, exclusions, order);
    KeptNone(CreatePatches("", a, b, [], order), exclusions);
  }
}
