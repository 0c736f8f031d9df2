/** Replaying the differ's patches: what it reaches, for every pair of documents. */
module JsonDiffTheorems {
  import opened JsonPointer
  import opened JsonPatch
  import opened JsonPlaces
  import opened JsonPaths

  // ---------------------------------------------------------------- the condition

  /** What the patches for a pair of values found at `at` can express.  On the way to a difference every key
      must survive in a pointer and every index must fit an int; no null is put where there was none; and a
      new member is called what the patcher calls it. */
  ghost predicate Patchable(addKey: AddKey, at: seq<string>, a: Any, b: Any)
    decreases a, 1
  {
    match (a, b)
    case (Array(x), Array(y)) =>
      && (forall i :: 0 <= i < |x| && i < |y| ==> PatchableItem(addKey, at, i, x[i], y[i]))
      && (|x| > |y| ==> |y| < 0x8000_0000)
      && (forall i :: |x| <= i < |y| ==> !y[i].Null?)
    case (Object(x), Object(y)) =>
      && (forall k :: k in x && k in y ==> PatchableMember(addKey, at, k, x[k], y[k]))
      && (forall k :: k in x && k !in y ==> Plain(k))
      && (forall k :: k in y && k !in x ==> Plain(k) && NameableMember(addKey, at, k, y[k]))
    case _ => b.Null? ==> a.Null?
  }

  ghost predicate PatchableItem(addKey: AddKey, at: seq<string>, i: nat, a: Any, b: Any)
    decreases a, 2
  {
    a == b || (i < 0x8000_0000 && Patchable(addKey, at + [ToDecimal(i)], a, b))
  }

  ghost predicate PatchableMember(addKey: AddKey, at: seq<string>, k: string, a: Any, b: Any)
    decreases a, 2
  {
    a == b || (Plain(k) && Patchable(addKey, at + [k], a, b))
  }

  ghost predicate NameableMember(addKey: AddKey, at: seq<string>, k: string, v: Any) {
    !v.Null? && KeyOf(addKey, at + [k]) == k
  }

  /** The pairs whose patches are followed below. */
  ghost predicate Covered(addKey: AddKey, at: seq<string>, a: Any, b: Any) {
    Patchable(addKey, at, a, b) || (Literal(a) && Literal(b))
  }

  ghost predicate CoveredItem(addKey: AddKey, at: seq<string>, i: nat, a: Any, b: Any) {
    PatchableItem(addKey, at, i, a, b) || (Literal(a) && Literal(b))
  }

  ghost predicate CoveredMember(addKey: AddKey, at: seq<string>, k: string, a: Any, b: Any) {
    PatchableMember(addKey, at, k, a, b) || (Literal(a) && Literal(b))
  }

  lemma SelfPatchable(addKey: AddKey, at: seq<string>, a: Any)
    ensures Patchable(addKey, at, a, a)
  {
  }

  // ---------------------------------------------------------------- arrays

  lemma ItemRemoved(addKey: AddKey, doc: Any, at: seq<string>, cur: seq<Any>, i: nat)
    requires AllPlain(at) && Get(doc, at) == Some(Array(cur)) && i < |cur| && i < 0x8000_0000
    ensures Turns(addKey, doc, at, [Patch(Remove, Join(at) + "/" + ToDecimal(i), Null)], Array(cur[..i] + cur[i + 1..]), true)
  {
    hide Turns, Get, ToDecimal, StoI, ReplaceAll;
    DecimalToken(i);
    IndexSelects(cur, i);
    TurnsByOne(addKey, doc, at, ToDecimal(i), Remove, Null);
  }

  lemma ItemAppended(addKey: AddKey, doc: Any, at: seq<string>, cur: seq<Any>, v: Any)
    requires AllPlain(at) && Get(doc, at) == Some(Array(cur))
    ensures var patch := [Patch(Add, Join(at) + "/" + "-", v)];
            if v.Null? then Turns(addKey, doc, at, patch, Array(cur), false)
            else Turns(addKey, doc, at, patch, Array(cur + [v]), true)
  {
    hide Turns, Get;
    NoTilde("-");
    TurnsByOne(addKey, doc, at, "-", Add, v);
  }

  lemma {:induction false} LeftoversGo(addKey: AddKey, doc: Any, at: seq<string>, cur: seq<Any>, min: nat, count: nat)
    requires AllPlain(at) && Get(doc, at) == Some(Array(cur)) && |cur| == min + count && min < 0x8000_0000
    ensures Turns(addKey, doc, at, LeftoverPatches(Join(at), min, count, []), Array(cur[..min]), true)
    decreases count
  {
    hide Turns, Get, Replay, Join, ToDecimal, AllPlain;
    if count == 0 {
      TurnsNothing(addKey, doc, at);
      assert cur[..min] == cur;
    } else {
      var p := [Patch(Remove, Join(at) + "/" + ToDecimal(min), Null)];
      var next := cur[..min] + cur[min + 1..];
      ItemRemoved(addKey, doc, at, cur, min);
      TurnsInto(addKey, doc, at, p, Array(next), true);
      var q := LeftoverPatches(Join(at), min, count - 1, []);
      LeftoversGo(addKey, Replay(addKey, doc, p).doc, at, next, min, count - 1);
      assert next[..min] == cur[..min];
      TurnsThen(addKey, doc, at, p, Array(next), q, Array(cur[..min]), true);
    }
  }

  /** A single refused patch at the front stops the rest. */
  lemma FirstRefused(addKey: AddKey, doc: Any, at: seq<string>, patches: seq<Patch>)
    requires Get(doc, at).Some? && patches != [] && Apply(addKey, doc, patches[0]) == Refused
    ensures Turns(addKey, doc, at, patches, Get(doc, at).value, false)
  {
    PutSame(doc, at);
  }

  lemma LeftoversStay(addKey: AddKey, doc: Any, at: seq<string>, cur: seq<Any>, min: nat, count: nat)
    requires AllPlain(at) && Get(doc, at) == Some(Array(cur)) && count > 0 && min >= 0x8000_0000
    ensures Turns(addKey, doc, at, LeftoverPatches(Join(at), min, count, []), Array(cur), false)
  {
    hide Turns, Get, Apply, Join, ToDecimal, AllPlain, Below;
    var p := Patch(Remove, Join(at) + "/" + ToDecimal(min), Null);
    HugeIndexRefused(addKey, doc, at, cur, min, p);
    FirstRefused(addKey, doc, at, LeftoverPatches(Join(at), min, count, []));
  }

  lemma {:induction false} NewItemsCome(addKey: AddKey, doc: Any, at: seq<string>, cur: seq<Any>, items: seq<Any>)
    returns (n: nat)
    requires AllPlain(at) && Get(doc, at) == Some(Array(cur))
    ensures n <= |items|
    ensures Turns(addKey, doc, at, NewItemPatches(Join(at), items, []), Array(cur + items[..n]), n == |items|)
    ensures n == |items| <==> forall i :: 0 <= i < |items| ==> !items[i].Null?
    decreases |items|
  {
    hide Turns, Get, Replay, Join, AllPlain;
    assert cur + items[..0] == cur;
    if items == [] {
      n := 0;
      TurnsNothing(addKey, doc, at);
    } else {
      var p, rest := [Patch(Add, Join(at) + "/" + "-", items[0])], items[1..];
      var q := NewItemPatches(Join(at), rest, []);
      assert NewItemPatches(Join(at), items, []) == p + q;
      ItemAppended(addKey, doc, at, cur, items[0]);
      if items[0].Null? {
        n := 0;
        TurnsNoFurther(addKey, doc, at, p, Array(cur), q);
      } else {
        var next := cur + [items[0]];
        TurnsInto(addKey, doc, at, p, Array(next), true);
        var m := NewItemsCome(addKey, Replay(addKey, doc, p).doc, at, next, rest);
        n := m + 1;
        assert next + rest[..m] == cur + items[..n];
        TurnsThen(addKey, doc, at, p, Array(next), q, Array(cur + items[..n]), n == |items|);
        assert forall i :: 1 <= i < |items| ==> items[i] == rest[i - 1];
      }
    }
  }

  /** The result of replaying the patches for one item. */
  lemma {:induction false} ItemReplayed(addKey: AddKey, order: set<string> -> seq<string>, doc: Any, at: seq<string>,
                                        cur: seq<Any>, index: nat, b: Any)
    returns (x: Any, ok: bool)
    requires IsOrder(order) && AllPlain(at) && Get(doc, at) == Some(Array(cur)) && index < |cur|
    requires CoveredItem(addKey, at, index, cur[index], b)
    ensures Turns(addKey, doc, at, CreatePatches(Join(at) + "/" + ToDecimal(index), cur[index], b, [], order),
                  Array(cur[index := x]), ok)
    ensures if PatchableItem(addKey, at, index, cur[index], b) then ok && x == b else x != b
    decreases cur[index], 2, 0
  {
    hide Turns, Get, Apply, Replay, Join, ToDecimal, CreatePatches, Plain, Select, Patchable, Literal, AllPlain, Below;
    var k, a := ToDecimal(index), cur[index];
    var p := CreatePatches(Join(at) + "/" + k, a, b, [], order);
    NoPatches(Join(at) + "/" + k, a, b, order);
    assert cur[index := a] == cur;
    if a == b {
      x, ok := a, true;
      TurnsNothing(addKey, doc, at);
    } else if index >= 0x8000_0000 {
      x, ok := a, false;
      PatchesBelow(Join(at) + "/" + k, a, b, order);
      assert p[0] in p;
      HugeIndexRefused(addKey, doc, at, cur, index, p[0]);
      FirstRefused(addKey, doc, at, p);
    } else {
      DecimalToken(index);
      IndexSelects(cur, index);
      GetChild(doc, at, k);
      PlainOneMore(at, k);
      JoinOneMore(at, k);
      x, ok := Replayed(addKey, order, doc, at + [k], a, b);
      TurnsParent(addKey, doc, at, k, p, x, ok);
    }
  }

  lemma PlainOneMore(at: seq<string>, k: string)
    requires AllPlain(at) && Plain(k)
    ensures AllPlain(at + [k])
  {
  }

  /** The result of replaying the patches for the items from `index` to `min`. */
  lemma {:induction false} ItemsReplayed(addKey: AddKey, order: set<string> -> seq<string>, doc: Any, at: seq<string>,
                                         cur: seq<Any>, lhs: Any, rhs: seq<Any>, index: nat, min: nat)
    returns (out: seq<Any>, ok: bool)
    requires IsOrder(order) && AllPlain(at) && Get(doc, at) == Some(Array(cur)) && lhs.Array?
    requires index <= min <= |rhs| && min <= |lhs.items| == |cur|
    requires forall j :: index <= j < min ==> CoveredItem(addKey, at, j, lhs.items[j], rhs[j])
    requires forall j :: index <= j < min ==> cur[j] == lhs.items[j]
    ensures |out| == |cur| && forall j :: 0 <= j < |cur| && !(index <= j < min) ==> out[j] == cur[j]
    ensures Turns(addKey, doc, at, ItemPatches(Join(at), lhs, rhs, index, min, [], order), Array(out), ok)
    ensures forall j :: index <= j < min ==>
              if PatchableItem(addKey, at, j, lhs.items[j], rhs[j]) then ok ==> out[j] == rhs[j] else out[j] != rhs[j]
    ensures (forall j :: index <= j < min ==> PatchableItem(addKey, at, j, lhs.items[j], rhs[j])) ==> ok
    decreases lhs, 0, min - index
  {
    hide Turns, Get, Replay, Join, ToDecimal, CreatePatches, CoveredItem, PatchableItem, AllPlain;
    if index == min {
      out, ok := cur, true;
      TurnsNothing(addKey, doc, at);
    } else {
      var p := CreatePatches(Join(at) + "/" + ToDecimal(index), lhs.items[index], rhs[index], [], order);
      var q := ItemPatches(Join(at), lhs, rhs, index + 1, min, [], order);
      var x, ok1 := ItemReplayed(addKey, order, doc, at, cur, index, rhs[index]);
      var next := cur[index := x];
      if ok1 {
        TurnsInto(addKey, doc, at, p, Array(next), true);
        out, ok := ItemsReplayed(addKey, order, Replay(addKey, doc, p).doc, at, next, lhs, rhs, index + 1, min);
        TurnsThen(addKey, doc, at, p, Array(next), q, Array(out), ok);
      } else {
        out, ok := next, false;
        TurnsNoFurther(addKey, doc, at, p, Array(next), q);
        forall j | index < j < min ensures !PatchableItem(addKey, at, j, lhs.items[j], rhs[j]) ==> out[j] != rhs[j] {
          SameItem(addKey, at, j, rhs[j]);
        }
      }
    }
  }

  lemma SameItem(addKey: AddKey, at: seq<string>, i: nat, a: Any)
    ensures PatchableItem(addKey, at, i, a, a)
  {
  }

  lemma {:induction false} PatchableArrays(addKey: AddKey, at: seq<string>, l: seq<Any>, r: seq<Any>, min: nat)
    requires min == if |l| < |r| then |l| else |r|
    ensures Patchable(addKey, at, Array(l), Array(r)) <==>
            && (forall i :: 0 <= i < min ==> PatchableItem(addKey, at, i, l[i], r[i]))
            && (|l| > min ==> min < 0x8000_0000)
            && (forall i :: 0 <= i < |r[min..]| ==> !r[min..][i].Null?)
  {
    hide PatchableItem;
    assert forall i :: min <= i < |r| ==> r[i] == r[min..][i - min];
  }

  lemma CoveredItems(addKey: AddKey, at: seq<string>, a: Any, b: Any)
    requires a.Array? && b.Array? && Covered(addKey, at, a, b)
    ensures forall j :: 0 <= j < |a.items| && j < |b.items| ==> CoveredItem(addKey, at, j, a.items[j], b.items[j])
  {
  }

  lemma {:induction false} ArraysReplayed(addKey: AddKey, order: set<string> -> seq<string>, doc: Any, at: seq<string>,
                                          a: Any, b: Any)
    returns (x: Any, ok: bool)
    requires IsOrder(order) && AllPlain(at) && Get(doc, at) == Some(a)
    requires Covered(addKey, at, a, b) && a.Array? && b.Array?
    ensures Turns(addKey, doc, at, CreatePatches(Join(at), a, b, [], order), x, ok)
    ensures if Patchable(addKey, at, a, b) then ok && x == b else x != b
    decreases a, 0, |a.items| + 1
  {
    hide Turns, Get, Replay, Join, ToDecimal, Patchable, PatchableItem, AllPlain, Covered, CoveredItem;
    var l, r, path := a.items, b.items, Join(at);
    var min := if |l| < |r| then |l| else |r|;
    PatchableArrays(addKey, at, l, r, min);
    CoveredItems(addKey, at, a, b);
    var p1 := ItemPatches(path, a, r, 0, min, [], order);
    var p2 := LeftoverPatches(path, min, |l| - min, []);
    var p3 := NewItemPatches(path, r[min..], []);
    assert CreatePatches(path, a, b, [], order) == p1 + p2 + p3;
    hide CreatePatches, ItemPatches, LeftoverPatches, NewItemPatches;
    var out, ok1 := ItemsReplayed(addKey, order, doc, at, l, a, r, 0, min);
    if !ok1 {
      x, ok := Array(out), false;
      TurnsNoFurther(addKey, doc, at, p1, x, p2);
      TurnsNoFurther(addKey, doc, at, p1 + p2, x, p3);
      var j :| 0 <= j < min && !PatchableItem(addKey, at, j, l[j], r[j]);
      assert out[j] != r[j];
    } else if |l| > min >= 0x8000_0000 {
      x, ok := Array(out), false;
      TurnsInto(addKey, doc, at, p1, Array(out), true);
      LeftoversStay(addKey, Replay(addKey, doc, p1).doc, at, out, min, |l| - min);
      TurnsThen(addKey, doc, at, p1, Array(out), p2, x, false);
      TurnsNoFurther(addKey, doc, at, p1 + p2, x, p3);
    } else {
      var cut := out[..min];
      TurnsInto(addKey, doc, at, p1, Array(out), true);
      LeftoversCut(addKey, Replay(addKey, doc, p1).doc, at, out, min, |l| - min);
      TurnsThen(addKey, doc, at, p1, Array(out), p2, Array(cut), true);
      TurnsInto(addKey, doc, at, p1 + p2, Array(cut), true);
      var n := NewItemsCome(addKey, Replay(addKey, doc, p1 + p2).doc, at, cut, r[min..]);
      x, ok := Array(cut + r[min..][..n]), n == |r[min..]|;
      TurnsThen(addKey, doc, at, p1 + p2, Array(cut), p3, x, ok);
      ArrayReached(addKey, at, l, r, min, out, n);
    }
  }

  lemma LeftoversCut(addKey: AddKey, doc: Any, at: seq<string>, cur: seq<Any>, min: nat, count: nat)
    requires AllPlain(at) && Get(doc, at) == Some(Array(cur)) && |cur| == min + count
    requires count > 0 ==> min < 0x8000_0000
    ensures Turns(addKey, doc, at, LeftoverPatches(Join(at), min, count, []), Array(cur[..min]), true)
  {
    if count == 0 {
      TurnsNothing(addKey, doc, at);
      assert cur[..min] == cur;
    } else {
      LeftoversGo(addKey, doc, at, cur, min, count);
    }
  }

  lemma {:induction false} ArrayReached(addKey: AddKey, at: seq<string>, l: seq<Any>, r: seq<Any>, min: nat, out: seq<Any>, n: nat)
    requires min <= |l| == |out| && min <= |r| && n <= |r| - min
    requires forall j :: 0 <= j < min ==> (out[j] == r[j] <==> PatchableItem(addKey, at, j, l[j], r[j]))
    ensures out[..min] + r[min..][..n] == r <==>
            n == |r| - min && forall j :: 0 <= j < min ==> PatchableItem(addKey, at, j, l[j], r[j])
  {
    hide PatchableItem;
    var x := out[..min] + r[min..][..n];
    assert forall j :: 0 <= j < min ==> x[j] == out[j];
    if n == |r| - min {
      assert forall j :: min <= j < |r| ==> x[j] == r[j];
    }
  }

  // ---------------------------------------------------------------- objects

  lemma SelectMember(members: map<string, Any>, k: string)
    requires Plain(k) && k in members
    ensures Select(Object(members), k) == Member(k)
  {
  }

  lemma MemberRemoved(addKey: AddKey, doc: Any, at: seq<string>, cur: map<string, Any>, k: string)
    requires AllPlain(at) && Get(doc, at) == Some(Object(cur)) && Plain(k) && k in cur
    ensures Turns(addKey, doc, at, [Patch(Remove, Join(at) + "/" + k, Null)], Object(cur - {k}), true)
  {
    hide Turns, Get;
    TurnsByOne(addKey, doc, at, k, Remove, Null);
  }

  /** Only a plain key can be on the way to a difference. */
  ghost predicate PlainWhereDifferent(l: map<string, Any>, r: map<string, Any>) {
    forall k :: (k in l || k in r) && !Plain(k) ==> k in l && k in r && l[k] == r[k]
  }

  /** The result of replaying the patches for a member that both objects have. */
  lemma {:induction false} MemberReplayed(addKey: AddKey, order: set<string> -> seq<string>, doc: Any, at: seq<string>,
                                          cur: map<string, Any>, k: string, b: Any)
    returns (x: Any, ok: bool)
    requires IsOrder(order) && AllPlain(at) && Get(doc, at) == Some(Object(cur)) && k in cur
    requires CoveredMember(addKey, at, k, cur[k], b) && (Plain(k) || cur[k] == b)
    ensures Turns(addKey, doc, at, CreatePatches(Join(at) + "/" + k, cur[k], b, [], order), Object(cur[k := x]), ok)
    ensures if PatchableMember(addKey, at, k, cur[k], b) then ok && x == b else x != b
    decreases cur[k], 2, 0
  {
    hide Turns, Get, Replay, Join, CreatePatches, Plain, Select, Patchable, Literal, AllPlain;
    var a := cur[k];
    NoPatches(Join(at) + "/" + k, a, b, order);
    if a == b {
      x, ok := a, true;
      TurnsNothing(addKey, doc, at);
      assert cur[k := x] == cur;
    } else {
      SelectMember(cur, k);
      GetChild(doc, at, k);
      PlainOneMore(at, k);
      JoinOneMore(at, k);
      x, ok := Replayed(addKey, order, doc, at + [k], a, b);
      TurnsParent(addKey, doc, at, k, CreatePatches(Join(at) + "/" + k, a, b, [], order), x, ok);
    }
  }

  lemma {:induction false} MembersReplayed(addKey: AddKey, order: set<string> -> seq<string>, doc: Any, at: seq<string>,
                                           cur: map<string, Any>, lhs: Any, rhs: map<string, Any>, keys: seq<string>)
    returns (out: map<string, Any>, ok: bool)
    requires IsOrder(order) && AllPlain(at) && Get(doc, at) == Some(Object(cur)) && lhs.Object?
    requires forall k :: k in keys ==> k in lhs.members && k in cur && cur[k] == lhs.members[k]
    requires forall k :: k in keys && k in rhs ==> CoveredMember(addKey, at, k, lhs.members[k], rhs[k])
    requires PlainWhereDifferent(lhs.members, rhs)
    requires forall i, j :: 0 <= i < j < |keys| ==> keys[i] != keys[j]
    ensures Turns(addKey, doc, at, MemberPatches(Join(at), lhs, rhs, keys, [], order), Object(out), ok)
    ensures forall k :: k !in keys ==> (k in out <==> k in cur) && (k in cur ==> out[k] == cur[k])
    ensures forall k :: k in keys && k in rhs ==>
              (k in out && if PatchableMember(addKey, at, k, lhs.members[k], rhs[k]) then ok ==> out[k] == rhs[k] else out[k] != rhs[k])
    ensures ok ==> forall k :: k in keys && k !in rhs ==> k !in out
    ensures (forall k :: k in keys && k in rhs ==> PatchableMember(addKey, at, k, lhs.members[k], rhs[k])) ==> ok
    decreases lhs, 0, |keys|
  {
    hide Turns, Get, Replay, Join, CreatePatches, Plain, AllPlain, PatchableMember, CoveredMember;
    if keys == [] {
      out, ok := cur, true;
      TurnsNothing(addKey, doc, at);
    } else {
      var k, path := keys[0], Join(at);
      assert k in keys;
      var q := MemberPatches(path, lhs, rhs, keys[1..], [], order);
      var p, next, ok1 := [], cur, true;
      if k in rhs {
        p := CreatePatches(path + "/" + k, lhs.members[k], rhs[k], [], order);
        var x, okx := MemberReplayed(addKey, order, doc, at, cur, k, rhs[k]);
        next, ok1 := cur[k := x], okx;
      } else {
        p := [Patch(Remove, path + "/" + k, Null)];
        MemberRemoved(addKey, doc, at, cur, k);
        next := cur - {k};
      }
      assert MemberPatches(path, lhs, rhs, keys, [], order) == p + q by {
        if k !in rhs { PlainNotEmpty(k); }
      }
      if ok1 {
        TurnsInto(addKey, doc, at, p, Object(next), true);
        out, ok := MembersReplayed(addKey, order, Replay(addKey, doc, p).doc, at, next, lhs, rhs, keys[1..]);
        TurnsThen(addKey, doc, at, p, Object(next), q, Object(out), ok);
      } else {
        out, ok := next, false;
        TurnsNoFurther(addKey, doc, at, p, Object(next), q);
        forall m | m in keys[1..] && m in rhs
          ensures !PatchableMember(addKey, at, m, lhs.members[m], rhs[m]) ==> out[m] != rhs[m]
        {
          SameMember(addKey, at, m, rhs[m]);
        }
      }
    }
  }

  lemma PlainNotEmpty(k: string)
    requires Plain(k)
    ensures k != ""
  {
  }

  lemma SameMember(addKey: AddKey, at: seq<string>, k: string, a: Any)
    ensures PatchableMember(addKey, at, k, a, a)
  {
  }

  /** The only name, besides the right one, under which the patcher may create a member here. */
  ghost predicate Stray(addKey: AddKey, at: seq<string>, k: string) {
    addKey == FirstToken && at != [] && k == at[0]
  }

  lemma MemberAdded(addKey: AddKey, doc: Any, at: seq<string>, cur: map<string, Any>, k: string, v: Any)
    returns (next: map<string, Any>)
    requires AllPlain(at) && Get(doc, at) == Some(Object(cur)) && Plain(k)
    ensures var patch := [Patch(Add, Join(at) + "/" + k, v)];
            if v.Null? then Turns(addKey, doc, at, patch, Object(cur), false)
            else Turns(addKey, doc, at, patch, Object(next), true)
    ensures var name := KeyOf(addKey, at + [k]);
            && next == (if k in cur || name == k then cur[k := v] else if name in cur then cur else cur[name := v])
            && (name == k || Stray(addKey, at, name))
  {
    hide Turns, Get;
    var name := KeyOf(addKey, at + [k]);
    next := if k in cur || name == k then cur[k := v] else if name in cur then cur else cur[name := v];
    TurnsByOne(addKey, doc, at, k, Add, v);
  }

  ghost predicate IsNew(lhs: map<string, Any>, rhs: map<string, Any>, keys: seq<string>, k: string) {
    k in keys && k in rhs && k !in lhs
  }

  /** Before the patches: a member that is still to come is there only as a stray. */
  ghost predicate OnlyStrays(addKey: AddKey, at: seq<string>, cur: map<string, Any>,
                             lhs: map<string, Any>, rhs: map<string, Any>, keys: seq<string>) {
    forall k :: IsNew(lhs, rhs, keys, k) && k in cur ==> Stray(addKey, at, k) && !cur[k].Null?
  }

  /** After them: the new members are right if all of them can be named; one that cannot is wrong. */
  ghost predicate Reached(addKey: AddKey, at: seq<string>, cur: map<string, Any>,
                          lhs: map<string, Any>, rhs: map<string, Any>, keys: seq<string>, out: map<string, Any>, ok: bool) {
    && ((forall k :: IsNew(lhs, rhs, keys, k) ==> NameableMember(addKey, at, k, rhs[k])) ==>
          && ok
          && (forall k :: IsNew(lhs, rhs, keys, k) ==> k in out && out[k] == rhs[k])
          && (forall k :: k in out ==> k in cur || IsNew(lhs, rhs, keys, k)))
    && (forall k :: k in cur && !IsNew(lhs, rhs, keys, k) ==> k in out && out[k] == cur[k])
    && (forall k :: k in out ==> k in cur || IsNew(lhs, rhs, keys, k) || Stray(addKey, at, k))
    && (forall k :: IsNew(lhs, rhs, keys, k) && !NameableMember(addKey, at, k, rhs[k]) ==> k !in out || out[k] != rhs[k])
  }

  lemma NewInTail(lhs: map<string, Any>, rhs: map<string, Any>, keys: seq<string>)
    requires keys != [] && forall i, j :: 0 <= i < j < |keys| ==> keys[i] != keys[j]
    ensures forall k :: IsNew(lhs, rhs, keys[1..], k) <==> IsNew(lhs, rhs, keys, k) && k != keys[0]
  {
    assert keys == [keys[0]] + keys[1..];
  }

  lemma StraysByStep(addKey: AddKey, at: seq<string>, cur: map<string, Any>, next: map<string, Any>,
                     lhs: map<string, Any>, rhs: map<string, Any>, keys: seq<string>)
    requires keys != [] && forall i, j :: 0 <= i < j < |keys| ==> keys[i] != keys[j]
    requires IsNew(lhs, rhs, keys, keys[0]) && !rhs[keys[0]].Null?
    requires OnlyStrays(addKey, at, cur, lhs, rhs, keys)
    requires var k, v := keys[0], rhs[keys[0]];
             var name := KeyOf(addKey, at + [k]);
             && next == (if k in cur || name == k then cur[k := v] else if name in cur then cur else cur[name := v])
             && (name == k || Stray(addKey, at, name))
    ensures OnlyStrays(addKey, at, next, lhs, rhs, keys[1..])
  {
    NewInTail(lhs, rhs, keys);
    hide IsNew;
    var k0 := keys[0];
    assert at != [] ==> (at + [k0])[0] == at[0];
    assert (at + [k0])[|at|] == k0;
  }

  lemma ReachedByStep(addKey: AddKey, at: seq<string>, cur: map<string, Any>, next: map<string, Any>,
                      lhs: map<string, Any>, rhs: map<string, Any>, keys: seq<string>)
    requires keys != [] && forall i, j :: 0 <= i < j < |keys| ==> keys[i] != keys[j]
    requires IsNew(lhs, rhs, keys, keys[0]) && !rhs[keys[0]].Null?
    requires OnlyStrays(addKey, at, cur, lhs, rhs, keys)
    requires var k, v := keys[0], rhs[keys[0]];
             var name := KeyOf(addKey, at + [k]);
             && next == (if k in cur || name == k then cur[k := v] else if name in cur then cur else cur[name := v])
             && (name == k || Stray(addKey, at, name))
    ensures OnlyStrays(addKey, at, next, lhs, rhs, keys[1..])
    ensures forall out, ok :: Reached(addKey, at, next, lhs, rhs, keys[1..], out, ok) ==>
                              Reached(addKey, at, cur, lhs, rhs, keys, out, ok)
  {
    StraysByStep(addKey, at, cur, next, lhs, rhs, keys);
    NewInTail(lhs, rhs, keys);
    hide IsNew, OnlyStrays;
    var k0 := keys[0];
    assert at != [] ==> (at + [k0])[0] == at[0];
    assert (at + [k0])[|at|] == k0;
  }

  lemma ReachedByStop(addKey: AddKey, at: seq<string>, cur: map<string, Any>,
                      lhs: map<string, Any>, rhs: map<string, Any>, keys: seq<string>)
    requires OnlyStrays(addKey, at, cur, lhs, rhs, keys)
    requires keys != [] && IsNew(lhs, rhs, keys, keys[0]) && rhs[keys[0]].Null?
    ensures Reached(addKey, at, cur, lhs, rhs, keys, cur, false)
  {
    assert !NameableMember(addKey, at, keys[0], rhs[keys[0]]);
  }

  lemma ReachedBySkip(addKey: AddKey, at: seq<string>, cur: map<string, Any>,
                      lhs: map<string, Any>, rhs: map<string, Any>, keys: seq<string>)
    requires keys != [] && !IsNew(lhs, rhs, keys, keys[0])
    requires OnlyStrays(addKey, at, cur, lhs, rhs, keys)
    ensures OnlyStrays(addKey, at, cur, lhs, rhs, keys[1..])
    ensures forall out, ok :: Reached(addKey, at, cur, lhs, rhs, keys[1..], out, ok) ==>
                              Reached(addKey, at, cur, lhs, rhs, keys, out, ok)
  {
    assert forall k :: IsNew(lhs, rhs, keys[1..], k) <==> IsNew(lhs, rhs, keys, k) by {
      assert keys == [keys[0]] + keys[1..];
    }
    hide IsNew, Stray, NameableMember;
  }

  lemma {:induction false} NewMembersReplayed(addKey: AddKey, doc: Any, at: seq<string>, cur: map<string, Any>,
                                              lhs: map<string, Any>, rhs: map<string, Any>, keys: seq<string>)
    returns (out: map<string, Any>, ok: bool)
    requires AllPlain(at) && Get(doc, at) == Some(Object(cur)) && PlainWhereDifferent(lhs, rhs)
    requires forall i, j :: 0 <= i < j < |keys| ==> keys[i] != keys[j]
    requires OnlyStrays(addKey, at, cur, lhs, rhs, keys)
    ensures Turns(addKey, doc, at, NewMemberPatches(Join(at), lhs, rhs, keys, []), Object(out), ok)
    ensures Reached(addKey, at, cur, lhs, rhs, keys, out, ok)
    decreases |keys|
  {
    hide Turns, Get, Replay, Join, Unescape, AllPlain, KeyOf, NameableMember, Stray;
    if keys == [] {
      out, ok := cur, true;
      TurnsNothing(addKey, doc, at);
    } else {
      hide Reached, OnlyStrays;
      var k := keys[0];
      var q := NewMemberPatches(Join(at), lhs, rhs, keys[1..], []);
      if k in rhs && k !in lhs {
        var v := rhs[k];
        var p := [Patch(Add, Join(at) + "/" + k, v)];
        assert Plain(k) && IsNew(lhs, rhs, keys, k);
        assert NewMemberPatches(Join(at), lhs, rhs, keys, []) == p + q;
        hide Plain, IsNew, NewMemberPatches, PlainWhereDifferent;
        var next := MemberAdded(addKey, doc, at, cur, k, v);
        if v.Null? {
          out, ok := cur, false;
          TurnsNoFurther(addKey, doc, at, p, Object(cur), q);
          ReachedByStop(addKey, at, cur, lhs, rhs, keys);
        } else {
          ReachedByStep(addKey, at, cur, next, lhs, rhs, keys);
          TurnsInto(addKey, doc, at, p, Object(next), true);
          out, ok := NewMembersReplayed(addKey, Replay(addKey, doc, p).doc, at, next, lhs, rhs, keys[1..]);
          TurnsThen(addKey, doc, at, p, Object(next), q, Object(out), ok);
        }
      } else {
        ReachedBySkip(addKey, at, cur, lhs, rhs, keys);
        out, ok := NewMembersReplayed(addKey, doc, at, cur, lhs, rhs, keys[1..]);
        assert NewMemberPatches(Join(at), lhs, rhs, keys, []) == q;
      }
    }
  }

  lemma {:induction false} PatchableObjects(addKey: AddKey, at: seq<string>, l: map<string, Any>, r: map<string, Any>, rk: seq<string>)
    requires Enumerates(rk, r.Keys) && PlainWhereDifferent(l, r)
    ensures Patchable(addKey, at, Object(l), Object(r)) <==>
            && (forall k :: k in l && k in r ==> PatchableMember(addKey, at, k, l[k], r[k]))
            && (forall k :: IsNew(l, r, rk, k) ==> NameableMember(addKey, at, k, r[k]))
  {
    hide NameableMember, PatchableMember, Plain;
    assert forall k :: IsNew(l, r, rk, k) <==> k in r && k !in l;
  }

  /** The common members after their patches, the others gone; short of that, one of them is wrong. */
  ghost predicate Halfway(addKey: AddKey, at: seq<string>, l: map<string, Any>, r: map<string, Any>, mid: map<string, Any>, ok: bool) {
    && (forall k :: k in l && k in r ==> k in mid)
    && (ok ==> mid.Keys == l.Keys * r.Keys)
    && (forall k :: k in l && k in r && !PatchableMember(addKey, at, k, l[k], r[k]) ==> mid[k] != r[k])
    && (forall k :: k in l && k in r && PatchableMember(addKey, at, k, l[k], r[k]) ==> ok ==> mid[k] == r[k])
    && ((forall k :: k in l && k in r ==> PatchableMember(addKey, at, k, l[k], r[k])) ==> ok)
  }

  ghost predicate CoveredMembers(addKey: AddKey, at: seq<string>, l: map<string, Any>, r: map<string, Any>) {
    forall k :: k in l && k in r ==> CoveredMember(addKey, at, k, l[k], r[k])
  }

  lemma {:induction false} AllMembersReplayed(addKey: AddKey, order: set<string> -> seq<string>, doc: Any, at: seq<string>,
                                              a: Any, rhs: map<string, Any>)
    returns (mid: map<string, Any>, ok: bool)
    requires IsOrder(order) && AllPlain(at) && Get(doc, at) == Some(a)
    requires a.Object? && CoveredMembers(addKey, at, a.members, rhs) && PlainWhereDifferent(a.members, rhs)
    ensures Turns(addKey, doc, at, MemberPatches(Join(at), a, rhs, order(a.members.Keys), [], order), Object(mid), ok)
    ensures Halfway(addKey, at, a.members, rhs, mid, ok)
    decreases a, 0, |order(a.members.Keys)| + 1
  {
    hide Turns, Get, Join, AllPlain, MemberPatches, PatchableMember, CoveredMember, PlainWhereDifferent;
    var l := a.members;
    var keys := order(l.Keys);
    assert Enumerates(keys, l.Keys);
    mid, ok := MembersReplayed(addKey, order, doc, at, l, a, rhs, keys);
  }

  /** All new members after the common ones. */
  lemma ObjectReached(addKey: AddKey, at: seq<string>, l: map<string, Any>, r: map<string, Any>, rk: seq<string>,
                      mid: map<string, Any>, out: map<string, Any>, ok: bool)
    requires Enumerates(rk, r.Keys) && PlainWhereDifferent(l, r) && Halfway(addKey, at, l, r, mid, true)
    requires Reached(addKey, at, mid, l, r, rk, out, ok)
    ensures if Patchable(addKey, at, Object(l), Object(r)) then ok && out == r else out != r
  {
    hide Patchable, Reached, Halfway, Enumerates, PlainWhereDifferent;
    if Patchable(addKey, at, Object(l), Object(r)) {
      ObjectComes(addKey, at, l, r, rk, mid, out, ok);
    } else {
      ObjectStaysAway(addKey, at, l, r, rk, mid, out, ok);
    }
  }

  lemma ObjectComes(addKey: AddKey, at: seq<string>, l: map<string, Any>, r: map<string, Any>, rk: seq<string>,
                    mid: map<string, Any>, out: map<string, Any>, ok: bool)
    requires Enumerates(rk, r.Keys) && PlainWhereDifferent(l, r) && Halfway(addKey, at, l, r, mid, true)
    requires Reached(addKey, at, mid, l, r, rk, out, ok) && Patchable(addKey, at, Object(l), Object(r))
    ensures ok && out == r
  {
    PatchableObjects(addKey, at, l, r, rk);
    hide NameableMember, PatchableMember, Patchable;
    assert out.Keys == r.Keys;
  }

  lemma ObjectStaysAway(addKey: AddKey, at: seq<string>, l: map<string, Any>, r: map<string, Any>, rk: seq<string>,
                        mid: map<string, Any>, out: map<string, Any>, ok: bool)
    requires Enumerates(rk, r.Keys) && PlainWhereDifferent(l, r) && Halfway(addKey, at, l, r, mid, true)
    requires Reached(addKey, at, mid, l, r, rk, out, ok) && !Patchable(addKey, at, Object(l), Object(r))
    ensures out != r
  {
    PatchableObjects(addKey, at, l, r, rk);
    hide NameableMember, PatchableMember, Patchable;
  }

  lemma ObjectNotReached(addKey: AddKey, at: seq<string>, l: map<string, Any>, r: map<string, Any>, rk: seq<string>, mid: map<string, Any>)
    requires Enumerates(rk, r.Keys) && PlainWhereDifferent(l, r) && Halfway(addKey, at, l, r, mid, false)
    ensures !Patchable(addKey, at, Object(l), Object(r)) && mid != r
  {
    PatchableObjects(addKey, at, l, r, rk);
  }

  lemma ObjectsAreCovered(addKey: AddKey, at: seq<string>, l: map<string, Any>, r: map<string, Any>)
    requires Covered(addKey, at, Object(l), Object(r))
    ensures CoveredMembers(addKey, at, l, r)
    ensures PlainWhereDifferent(l, r) || (Literal(Object(l)) && Literal(Object(r)) && !Patchable(addKey, at, Object(l), Object(r)))
  {
    hide NameableMember, Plain, LiteralKey;
    if Patchable(addKey, at, Object(l), Object(r)) {
      forall k | (k in l || k in r) && !Plain(k) ensures k in l && k in r && l[k] == r[k] {
        if k in l && k in r { assert PatchableMember(addKey, at, k, l[k], r[k]); }
      }
    }
  }

  /** A key with a '/' that is wrong stays wrong. */
  lemma SlashIsMissed(l: map<string, Any>, r: map<string, Any>, out: map<string, Any>)
    requires Literal(Object(l)) && Literal(Object(r)) && !PlainWhereDifferent(l, r) && SameSlashes(l, out)
    ensures out != r
  {
    var k :| (k in l || k in r) && !Plain(k) && !(k in l && k in r && l[k] == r[k]);
    PlainExactly(k);
  }

  lemma {:induction false} ObjectsReplayed(addKey: AddKey, order: set<string> -> seq<string>, doc: Any, at: seq<string>,
                                           a: Any, b: Any)
    returns (x: Any, ok: bool)
    requires IsOrder(order) && AllPlain(at) && Get(doc, at) == Some(a)
    requires Covered(addKey, at, a, b) && a.Object? && b.Object?
    ensures Turns(addKey, doc, at, CreatePatches(Join(at), a, b, [], order), x, ok)
    ensures if Patchable(addKey, at, a, b) then ok && x == b else x != b
    decreases a, 0, |order(a.members.Keys)| + 3
  {
    hide Turns, Get, Join, Patchable, AllPlain, Covered, CoveredMembers, PlainWhereDifferent, Literal, StrictlyBelow, CreatePatches,
         SameSlashes;
    var l, r := a.members, b.members;
    ObjectsAreCovered(addKey, at, l, r);
    if PlainWhereDifferent(l, r) {
      x, ok := PlainObjectsReplayed(addKey, order, doc, at, a, b);
    } else {
      PatchesBelow(Join(at), a, b, order);
      var out, okOut := SlashesStay(addKey, doc, at, l, CreatePatches(Join(at), a, b, [], order));
      x, ok := Object(out), okOut;
      SlashIsMissed(l, r, out);
    }
  }

  lemma {:induction false} PlainObjectsReplayed(addKey: AddKey, order: set<string> -> seq<string>, doc: Any, at: seq<string>,
                                                a: Any, b: Any)
    returns (x: Any, ok: bool)
    requires IsOrder(order) && AllPlain(at) && Get(doc, at) == Some(a)
    requires a.Object? && b.Object? && CoveredMembers(addKey, at, a.members, b.members) && PlainWhereDifferent(a.members, b.members)
    ensures Turns(addKey, doc, at, CreatePatches(Join(at), a, b, [], order), x, ok)
    ensures if Patchable(addKey, at, a, b) then ok && x == b else x != b
    decreases a, 0, |order(a.members.Keys)| + 2
  {
    hide Turns, Get, Replay, Join, Patchable, AllPlain, Reached, CoveredMembers, PlainWhereDifferent, MemberPatches, NewMemberPatches;
    var l, r, path := a.members, b.members, Join(at);
    var rk := order(r.Keys);
    assert Enumerates(rk, r.Keys);
    var p, q := MemberPatches(path, a, r, order(l.Keys), [], order), NewMemberPatches(path, l, r, rk, []);
    assert CreatePatches(path, a, b, [], order) == p + q;
    hide CreatePatches;
    var mid, ok1 := AllMembersReplayed(addKey, order, doc, at, a, r);
    if ok1 {
      assert OnlyStrays(addKey, at, mid, l, r, rk);
      hide Halfway;
      TurnsInto(addKey, doc, at, p, Object(mid), true);
      var out, ok2 := NewMembersReplayed(addKey, Replay(addKey, doc, p).doc, at, mid, l, r, rk);
      x, ok := Object(out), ok2;
      TurnsThen(addKey, doc, at, p, Object(mid), q, x, ok);
      ObjectReached(addKey, at, l, r, rk, mid, out, ok);
    } else {
      x, ok := Object(mid), false;
      TurnsNoFurther(addKey, doc, at, p, x, q);
      ObjectNotReached(addKey, at, l, r, rk, mid);
    }
  }

  // ---------------------------------------------------------------- any pair of values

  lemma {:induction false} GetOfPrefix(doc: Any, at: seq<string>, k: string)
    requires Get(doc, at + [k]).Some?
    ensures Get(doc, at).Some?
  {
    if at != [] {
      assert (at + [k])[1..] == at[1..] + [k];
      GetOfPrefix(Child(doc, Select(doc, at[0])), at[1..], k);
    }
  }

  lemma ValueReplaced(addKey: AddKey, doc: Any, at: seq<string>, v: Any)
    requires AllPlain(at) && Get(doc, at).Some?
    ensures var patch := [Patch(Replace, Join(at), v)];
            if v.Null? then Turns(addKey, doc, at, patch, Get(doc, at).value, false)
            else Turns(addKey, doc, at, patch, v, true)
  {
    hide Join, Select, Tokens, Unescape, KeyOf;
    var patch := Patch(Replace, Join(at), v);
    PlainIsToken(at);
    TokensOfJoin(at);
    PutSame(doc, at);
    assert [patch] == [patch] + [];
    ReplayCons(addKey, doc, patch, []);
    if at != [] {
      var init, k := at[..|at| - 1], at[|at| - 1];
      assert at == init + [k];
      GetOfPrefix(doc, init, k);
      assert Plain(k);
      JoinOneMore(init, k);
      ReplacedBelow(addKey, doc, init, k, v);
    }
  }

  lemma ReplacedBelow(addKey: AddKey, doc: Any, at: seq<string>, k: string, v: Any)
    requires AllPlain(at) && Plain(k) && Get(doc, at).Some? && Get(doc, at + [k]).Some?
    ensures Apply(addKey, doc, Patch(Replace, Join(at) + "/" + k, v))
         == if v.Null? then Refused else Done(Put(doc, at + [k], v))
  {
    hide Get, Put, Unescape, Join;
    PlainIsToken(at);
    ApplyAt(addKey, doc, at, k, Replace, v);
    GetChild(doc, at, k);
    PutChild(doc, at, k, v);
  }

  /** Replaying the patches for the pair found at `at` only changes the value there, and makes it the
      right one exactly when the pair is patchable. */
  lemma {:induction false} Replayed(addKey: AddKey, order: set<string> -> seq<string>, doc: Any, at: seq<string>, a: Any, b: Any)
    returns (x: Any, ok: bool)
    requires IsOrder(order) && AllPlain(at) && Get(doc, at) == Some(a) && Covered(addKey, at, a, b)
    ensures Turns(addKey, doc, at, CreatePatches(Join(at), a, b, [], order), x, ok)
    ensures if Patchable(addKey, at, a, b) then ok && x == b else x != b
    decreases a, 1, 0
  {
    hide Turns, Get, Join, AllPlain, Covered;
    if a.Array? && b.Array? {
      x, ok := ArraysReplayed(addKey, order, doc, at, a, b);
    } else if a.Object? && b.Object? {
      x, ok := ObjectsReplayed(addKey, order, doc, at, a, b);
    } else if a == b {
      x, ok := a, true;
      TurnsNothing(addKey, doc, at);
    } else {
      ValueReplaced(addKey, doc, at, b);
      assert CreatePatches(Join(at), a, b, [], order) == [Patch(Replace, Join(at), b)];
      x, ok := if b.Null? then a else b, !b.Null?;
    }
  }

  // ---------------------------------------------------------------- the empty difference

  lemma SliceStep(s: seq<Any>, index: nat, min: nat)
    requires index < min <= |s|
    ensures s[index..min] == [s[index]] + s[index + 1..min]
  {
  }

  lemma {:induction false} NoItemPatches(path: string, a: Any, rhs: seq<Any>, index: nat, min: nat, order: set<string> -> seq<string>)
    requires IsOrder(order) && a.Array? && index <= min <= |a.items| && min <= |rhs|
    ensures ItemPatches(path, a, rhs, index, min, [], order) == [] <==> a.items[index..min] == rhs[index..min]
    decreases a, 0, min - index
  {
    hide CreatePatches, IsOrder, ToDecimal;
    if index < min {
      NoPatches(path + "/" + ToDecimal(index), a.items[index], rhs[index], order);
      NoItemPatches(path, a, rhs, index + 1, min, order);
      SliceStep(a.items, index, min);
      SliceStep(rhs, index, min);
    }
  }

  lemma {:induction false} NoMemberPatches(path: string, a: Any, rhs: map<string, Any>, keys: seq<string>, order: set<string> -> seq<string>)
    requires IsOrder(order) && a.Object? && forall k :: k in keys ==> k in a.members
    ensures MemberPatches(path, a, rhs, keys, [], order) == [] <==>
            forall k :: k in keys ==> k in rhs && a.members[k] == rhs[k]
    decreases a, 0, |keys|
  {
    if keys != [] {
      var k := keys[0];
      if k in rhs {
        NoPatches(path + "/" + k, a.members[k], rhs[k], order);
      }
      NoMemberPatches(path, a, rhs, keys[1..], order);
      AllOfKeys(keys, x => x in rhs && x in a.members && a.members[x] == rhs[x]);
    }
  }

  lemma AllOfKeys(keys: seq<string>, p: string -> bool)
    requires keys != []
    ensures (forall k :: k in keys ==> p(k)) <==> p(keys[0]) && forall k :: k in keys[1..] ==> p(k)
  {
    assert keys == [keys[0]] + keys[1..];
  }

  lemma {:induction false} NoNewMemberPatches(path: string, lhs: map<string, Any>, rhs: map<string, Any>, keys: seq<string>)
    ensures NewMemberPatches(path, lhs, rhs, keys, []) == [] <==> forall k :: k in keys && k in rhs ==> k in lhs
    decreases |keys|
  {
    if keys != [] {
      NoNewMemberPatches(path, lhs, rhs, keys[1..]);
      assert keys == [keys[0]] + keys[1..];
    }
  }

  lemma {:induction false} NoArrayPatches(path: string, a: Any, b: Any, order: set<string> -> seq<string>)
    requires IsOrder(order) && a.Array? && b.Array?
    ensures CreatePatches(path, a, b, [], order) == [] <==> a == b
    decreases a, 0, |a.items| + 1
  {
    var x, y := a.items, b.items;
    var min := if |x| < |y| then |x| else |y|;
    NoItemPatches(path, a, y, 0, min, order);
    assert NewItemPatches(path, y[min..], []) == [] <==> |y| == min;
    assert LeftoverPatches(path, min, |x| - min, []) == [] <==> |x| == min;
    hide ItemPatches, NewItemPatches, LeftoverPatches;
    assert x[0..|x|] == x && y[0..|y|] == y;
  }

  lemma {:induction false} NoObjectPatches(path: string, a: Any, b: Any, order: set<string> -> seq<string>)
    requires IsOrder(order) && a.Object? && b.Object?
    ensures CreatePatches(path, a, b, [], order) == [] <==> a == b
    decreases a, 0, |order(a.members.Keys)| + 1
  {
    hide MemberPatches, NewMemberPatches, ItemPatches, LeftoverPatches, NewItemPatches, AddPatch;
    var x, y := a.members, b.members;
    assert Enumerates(order(x.Keys), x.Keys) && Enumerates(order(y.Keys), y.Keys);
    NoMemberPatches(path, a, y, order(x.Keys), order);
    NoNewMemberPatches(path, x, y, order(y.Keys));
    if CreatePatches(path, a, b, [], order) == [] {
      assert x.Keys == y.Keys;
    }
  }

  /** The difference between two values is empty exactly when they are equal. */
  lemma {:induction false} NoPatches(path: string, a: Any, b: Any, order: set<string> -> seq<string>)
    requires IsOrder(order)
    ensures CreatePatches(path, a, b, [], order) == [] <==> a == b
    decreases a, 1, 0
  {
    if a.Array? && b.Array? {
      NoArrayPatches(path, a, b, order);
    } else if a.Object? && b.Object? {
      NoObjectPatches(path, a, b, order);
    }
  }

  // ---------------------------------------------------------------- the results

  lemma DiffIsEmptyIffEqual(order: set<string> -> seq<string>, a: Any, b: Any)
    requires IsOrder(order)
    ensures Diff(a, b, [], order) == NoList <==> Equals(a, b)
  {
    NoPatches("", a, b, order);
    EqualsIsEquality(a, b);
  }

  /** Patching a document with the difference to another one gives the other one if the pair is patchable, whatever
      keys there are outside the differences; then every patch succeeds (and `patch` only reports an error for the
      empty difference, which is not an array).  If all keys are literal, it never gives it otherwise. */
  lemma PatchOfDiff(addKey: AddKey, order: set<string> -> seq<string>, a: Any, b: Any)
    requires IsOrder(order)
    ensures var r := PatchWith(addKey, a, Diff(a, b, [], order));
            && (Patchable(addKey, [], a, b) ==> r.doc == b && (r.ok <==> a != b))
            && (Literal(a) && Literal(b) && !Patchable(addKey, [], a, b) ==> r.doc != b)
  {
    NoPatches("", a, b, order);
    SelfPatchable(addKey, [], a);
    if Covered(addKey, [], a, b) {
      var x, ok := Replayed(addKey, order, a, [], a, b);
    }
  }

  /** With literal keys, patching never creates, changes or removes a member of an object whose key has a '/';
      so a difference there is never made up for. */
  lemma SlashesNeverChange(addKey: AddKey, order: set<string> -> seq<string>, l: map<string, Any>, r: map<string, Any>)
    requires IsOrder(order) && Literal(Object(l)) && Literal(Object(r))
    ensures var p := PatchWith(addKey, Object(l), Diff(Object(l), Object(r), [], order));
            p.doc.Object? && SameSlashes(l, p.doc.members)
  {
    hide Literal, StrictlyBelow, CreatePatches, SameSlashes;
    PatchesBelow("", Object(l), Object(r), order);
    SameSlashesItself(l);
    var patches := CreatePatches("", Object(l), Object(r), [], order);
    var out, ok := SlashesStay(addKey, Object(l), [], l, patches);
  }

  lemma SingleKeyIsEnumerated(keys: seq<string>, k: string)
    requires Enumerates(keys, {k})
    ensures keys == [k]
  {
    var second := if |keys| > 1 then keys[1] else k;
    assert k in keys && keys[0] in keys && second in keys;
  }

  lemma NoKeyIsEnumerated(keys: seq<string>)
    requires Enumerates(keys, {})
    ensures keys == []
  {
    var first := if keys != [] then keys[0] else "";
    assert first in keys || keys == [];
  }

  /** A member added below the root gets the name of the first token: patching {x: {}} into {x: {k: v}} makes
      {x: {x: v}}, which is right only if k is x.  With the last token the round trip holds. */
  lemma NestedMemberIsMisnamed(addKey: AddKey, order: set<string> -> seq<string>, x: string, k: string, v: Any)
    requires IsOrder(order) && Plain(x) && Plain(k) && !v.Null? && Literal(v)
    ensures var a, b := Object(map[x := Object(map[])]), Object(map[x := Object(map[k := v])]);
            PatchWith(addKey, a, Diff(a, b, [], order)).doc == b <==> addKey == LastToken || k == x
  {
    hide PatchWith, Diff, Plain, Patchable, LiteralKey;
    var none: map<string, Any> := map[];
    var inner := map[k := v];
    var a, b := Object(map[x := Object(none)]), Object(map[x := Object(inner)]);
    PlainExactly(x);
    PlainExactly(k);
    assert Literal(Object(none)) && Literal(Object(inner));
    assert Literal(a) && Literal(b);
    NestedMemberIsPatchable(addKey, x, k, v);
    PatchOfDiff(addKey, order, a, b);
  }

  lemma NestedMemberIsPatchable(addKey: AddKey, x: string, k: string, v: Any)
    requires Plain(x) && Plain(k) && !v.Null?
    ensures Patchable(addKey, [], Object(map[x := Object(map[])]), Object(map[x := Object(map[k := v])]))
            <==> addKey == LastToken || k == x
  {
    hide Plain;
    var none: map<string, Any> := map[];
    var inner := map[k := v];
    assert [] + [x] == [x];
    assert NameableMember(addKey, [x], k, v) <==> addKey == LastToken || k == x;
    assert k in inner && k !in none;
    assert Patchable(addKey, [x], Object(none), Object(inner)) <==> NameableMember(addKey, [x], k, v);
    assert PatchableMember(addKey, [], x, Object(none), Object(inner)) <==> NameableMember(addKey, [x], k, v);
  }

  /** The smallest case: the differ does not escape '/', so the new member is looked for two levels down, and refused. */
  lemma SlashInKeyIsRefused(addKey: AddKey, order: set<string> -> seq<string>)
    requires IsOrder(order)
    ensures var a, b := Object(map[]), Object(map["p/q" := Integer(7)]);
            PatchWith(addKey, a, Diff(a, b, [], order)) == Patched(a, false)
  {
    hide Split, IndexOf, Apply, CreatePatches;
    var a, b := Object(map[]), Object(map["p/q" := Integer(7)]);
    var patch := Patch(Add, "/p/q", Integer(7));
    SlashInKeyIsWritten(order);
    SlashInKeySplits();
    SlashInKeyIsRefusedHere(addKey);
    assert [patch][0] == patch;
  }

  lemma SlashInKeyIsWritten(order: set<string> -> seq<string>)
    requires IsOrder(order)
    ensures CreatePatches("", Object(map[]), Object(map["p/q" := Integer(7)]), [], order) == [Patch(Add, "/p/q", Integer(7))]
  {
    var a, b := Object(map[]), Object(map["p/q" := Integer(7)]);
    assert b.members.Keys == {"p/q"};
    SingleKeyIsEnumerated(order(b.members.Keys), "p/q");
    assert Enumerates(order(a.members.Keys), a.members.Keys);
    NoKeyIsEnumerated(order(a.members.Keys));
    var patch := Patch(Add, "" + "/" + "p/q", Integer(7));
    assert patch.path == "/p/q";
    assert MemberPatches("", a, b.members, [], [], order) == [];
    assert NewMemberPatches("", a.members, b.members, ["p/q"][1..], []) == [];
    assert AddPatch(Add, "", "p/q", Integer(7), []) == [patch];
    assert NewMemberPatches("", a.members, b.members, ["p/q"], []) == [patch];
  }

  lemma SlashInKeySplits()
    ensures Split("/p/q") == ["p", "q"]
  {
    hide Split, IndexOf;
    assert "/p/q"[1..] == "p/q" && "p/q"[2..] == "q" && "p/q"[..1] == "p";
    SplitAt("/p/q", 0);
    SplitAt("p/q", 1);
    SplitWhole("q");
  }

  lemma SlashInKeyIsRefusedHere(addKey: AddKey)
    requires Split("/p/q") == ["p", "q"]
    ensures Apply(addKey, Object(map[]), Patch(Add, "/p/q", Integer(7))) == Refused
  {
    hide Split;
    assert Tokens("/p/q") == ["p", "q"];
    assert Select(Object(map[]), "p") == Missing;
  }
}
