/** The paths that the differ writes, and why they never lead to a key with a '/' in it. */
module JsonPaths {
  import opened JsonPointer
  import opened JsonPatch
  import opened JsonPlaces

  // ---------------------------------------------------------------- literal keys

  /** A key that means itself in a pointer, except perhaps for a '/'. */
  ghost predicate LiteralKey(k: string) {
    k != "" && NoEscape(k)
  }

  /** All keys of the document are such keys. */
  ghost predicate Literal(a: Any) {
    match a
    case Array(items) => forall i :: 0 <= i < |items| ==> Literal(items[i])
    case Object(members) => forall k :: k in members ==> LiteralKey(k) && Literal(members[k])
    case _ => true
  }

  /** Of the literal keys, those without a '/' survive in a pointer. */
  lemma PlainExactly(k: string)
    ensures Plain(k) <==> LiteralKey(k) && '/' !in k
  {
    NoEscapeIsUnchanged(k);
  }

  lemma DecimalIsLiteral(n: nat)
    ensures LiteralKey(ToDecimal(n)) && LiteralKey("-")
  {
    DecimalToken(n);
    PlainExactly(ToDecimal(n));
    NoTilde("-");
  }

  // ---------------------------------------------------------------- the paths of the patches

  ghost predicate StrictlyBelow(path: string, p: Patch) {
    && |p.path| > |path| + 1
    && p.path[..|path| + 1] == path + "/"
    && NoEscape(p.path[|path| + 1..])
  }

  /** A replacement of the value itself, or a patch somewhere inside it. */
  ghost predicate Below(path: string, p: Patch) {
    (p.op == Replace && p.path == path) || StrictlyBelow(path, p)
  }

  lemma OneBelow(path: string, k: string, op: Op, v: Any)
    requires LiteralKey(k)
    ensures AddPatch(op, path, k, v, []) == [Patch(op, path + "/" + k, v)]
    ensures StrictlyBelow(path, Patch(op, path + "/" + k, v))
  {
    var p := Patch(op, path + "/" + k, v);
    assert p.path[..|path| + 1] == path + "/" && p.path[|path| + 1..] == k;
  }

  lemma BelowChild(path: string, k: string, p: Patch)
    requires LiteralKey(k) && Below(path + "/" + k, p)
    ensures StrictlyBelow(path, p)
  {
    var child := path + "/" + k;
    if p.path == child {
      OneBelow(path, k, p.op, p.value);
      assert p == Patch(p.op, path + "/" + k, p.value);
    } else {
      var rest := p.path[|child| + 1..];
      NoEscapeAcross(k, rest);
      assert p.path[..|path| + 1] == p.path[..|child| + 1][..|path| + 1] == path + "/";
      assert p.path[|path| + 1..] == k + "/" + rest;
    }
  }

  lemma {:induction false} ItemPatchesBelow(path: string, lhs: Any, rhs: seq<Any>, index: nat, min: nat,
                                            order: set<string> -> seq<string>)
    requires lhs.Array? && index <= min <= |lhs.items| && min <= |rhs| && Literal(lhs) && Literal(Array(rhs))
    ensures forall p :: p in ItemPatches(path, lhs, rhs, index, min, [], order) ==> StrictlyBelow(path, p)
    decreases lhs, 0, min - index
  {
    hide CreatePatches, StrictlyBelow, Below, LiteralKey;
    if index < min {
      var k := ToDecimal(index);
      DecimalIsLiteral(index);
      PatchesBelow(path + "/" + k, lhs.items[index], rhs[index], order);
      forall p | Below(path + "/" + k, p) { BelowChild(path, k, p); }
      ItemPatchesBelow(path, lhs, rhs, index + 1, min, order);
    }
  }

  lemma {:induction false} LeftoverPatchesBelow(path: string, min: nat, count: nat)
    ensures forall p :: p in LeftoverPatches(path, min, count, []) ==> StrictlyBelow(path, p)
  {
    hide StrictlyBelow;
    if count > 0 {
      DecimalIsLiteral(min);
      OneBelow(path, ToDecimal(min), Remove, Null);
      LeftoverPatchesBelow(path, min, count - 1);
    }
  }

  lemma {:induction false} NewItemPatchesBelow(path: string, items: seq<Any>)
    ensures forall p :: p in NewItemPatches(path, items, []) ==> StrictlyBelow(path, p)
  {
    hide StrictlyBelow;
    if items != [] {
      DecimalIsLiteral(0);
      OneBelow(path, "-", Add, items[0]);
      NewItemPatchesBelow(path, items[1..]);
    }
  }

  lemma {:induction false} MemberPatchesBelow(path: string, lhs: Any, rhs: map<string, Any>, keys: seq<string>,
                                              order: set<string> -> seq<string>)
    requires lhs.Object? && Literal(lhs) && Literal(Object(rhs))
    ensures forall p :: p in MemberPatches(path, lhs, rhs, keys, [], order) ==> StrictlyBelow(path, p)
    decreases lhs, 0, |keys|
  {
    hide CreatePatches, StrictlyBelow, Below, LiteralKey;
    if keys != [] {
      var k := keys[0];
      if k in lhs.members {
        if k in rhs {
          PatchesBelow(path + "/" + k, lhs.members[k], rhs[k], order);
          forall p | Below(path + "/" + k, p) { BelowChild(path, k, p); }
        } else {
          OneBelow(path, k, Remove, Null);
        }
      }
      MemberPatchesBelow(path, lhs, rhs, keys[1..], order);
    }
  }

  lemma {:induction false} NewMemberPatchesBelow(path: string, lhs: map<string, Any>, rhs: map<string, Any>, keys: seq<string>)
    requires Literal(Object(rhs))
    ensures forall p :: p in NewMemberPatches(path, lhs, rhs, keys, []) ==> StrictlyBelow(path, p)
    decreases |keys|
  {
    hide StrictlyBelow, LiteralKey;
    if keys != [] {
      var k := keys[0];
      if k in rhs && k !in lhs { OneBelow(path, k, Add, rhs[k]); }
      NewMemberPatchesBelow(path, lhs, rhs, keys[1..]);
    }
  }

  /** Every patch for a pair of values is a replacement of the left one or leads into it. */
  lemma {:induction false} PatchesBelow(path: string, a: Any, b: Any, order: set<string> -> seq<string>)
    requires Literal(a) && Literal(b)
    ensures forall p :: p in CreatePatches(path, a, b, [], order) ==> Below(path, p)
    ensures a.Object? && b.Object? ==> forall p :: p in CreatePatches(path, a, b, [], order) ==> StrictlyBelow(path, p)
    decreases a, 1, 0
  {
    hide StrictlyBelow, LiteralKey;
    if a.Array? && b.Array? {
      ArrayPatchesBelow(path, a, b, order);
    } else if a.Object? && b.Object? {
      ObjectPatchesBelow(path, a, b, order);
    }
  }

  lemma {:induction false} ArrayPatchesBelow(path: string, a: Any, b: Any, order: set<string> -> seq<string>)
    requires Literal(a) && Literal(b) && a.Array? && b.Array?
    ensures forall p :: p in CreatePatches(path, a, b, [], order) ==> StrictlyBelow(path, p)
    decreases a, 0, |a.items| + 1
  {
    hide StrictlyBelow, Literal, LiteralKey, ItemPatches, LeftoverPatches, NewItemPatches;
    var x, y := a.items, b.items;
    var min := if |x| < |y| then |x| else |y|;
    ItemPatchesBelow(path, a, y, 0, min, order);
    LeftoverPatchesBelow(path, min, |x| - min);
    NewItemPatchesBelow(path, y[min..]);
  }

  lemma {:induction false} ObjectPatchesBelow(path: string, a: Any, b: Any, order: set<string> -> seq<string>)
    requires Literal(a) && Literal(b) && a.Object? && b.Object?
    ensures forall p :: p in CreatePatches(path, a, b, [], order) ==> StrictlyBelow(path, p)
    decreases a, 0, |order(a.members.Keys)| + 1
  {
    hide StrictlyBelow, Literal, LiteralKey, MemberPatches, NewMemberPatches;
    MemberPatchesBelow(path, a, b.members, order(a.members.Keys), order);
    NewMemberPatchesBelow(path, a.members, b.members, order(b.members.Keys));
  }

  // ---------------------------------------------------------------- where they lead

  /** The tokens of such a path: the place, and then tokens that name no key with a '/'. */
  ghost predicate Direct(tokens: seq<string>) {
    forall t :: t in tokens ==> '/' !in t && Unescape(t) == t
  }

  lemma TokensStrictlyBelow(at: seq<string>, p: Patch) returns (rest: seq<string>)
    requires AllPlain(at) && StrictlyBelow(Join(at), p)
    ensures rest != [] && Direct(rest) && Tokens(p.path) == at + rest
  {
    hide Join, Split, NoEscape, Unescape;
    var text := p.path[|Join(at)| + 1..];
    assert p.path == Join(at) + "/" + text;
    rest := Tokens(text);
    TokensNotEmpty(text);
    PlainIsToken(at);
    TokensBelow(at, text);
    SplitHasNoEscape(text);
    NoTilde("");
    forall t | t in rest ensures '/' !in t && Unescape(t) == t {
      NoEscapeIsUnchanged(t);
    }
  }

  ghost predicate SameSlashes(x: map<string, Any>, y: map<string, Any>) {
    forall k :: '/' in k ==> (k in x <==> k in y) && (k in x ==> x[k] == y[k])
  }

  /** Directly named, one patch leaves an object an object, and its members with a '/' alone. */
  lemma SlashesStayHere(cur: map<string, Any>, rest: seq<string>, op: Op, key: string, last: string, v: Any)
    requires rest != [] && Direct(rest) && last == rest[|rest| - 1] && '/' !in key
    ensures var r := ApplyTokens(Object(cur), rest, op, key, last, v);
            r.Done? ==> r.doc.Object? && SameSlashes(cur, r.doc.members)
  {
    hide Unescape;
    var s := Select(Object(cur), rest[0]);
    assert rest[0] in rest;
    assert s.Member? ==> s.key == rest[0];
  }

  lemma SlashesStayOnce(addKey: AddKey, doc: Any, at: seq<string>, cur: map<string, Any>, p: Patch) returns (out: map<string, Any>)
    requires AllPlain(at) && Get(doc, at) == Some(Object(cur)) && StrictlyBelow(Join(at), p)
    ensures SameSlashes(cur, out)
    ensures var r := Apply(addKey, doc, p);
            if r.Done? then r.doc == Put(doc, at, Object(out)) else out == cur
  {
    hide Join, Get, Put, Tokens, ApplyTokens, Unescape, StrictlyBelow;
    var rest := TokensStrictlyBelow(at, p);
    var tokens := at + rest;
    var key, last := KeyOf(addKey, tokens), tokens[|tokens| - 1];
    assert last == rest[|rest| - 1] && last in rest && rest[0] in rest;
    ApplyIsLocal(doc, at, rest, p.op, key, last, p.value);
    SlashesStayHere(cur, rest, p.op, key, last, p.value);
    var r := ApplyTokens(Object(cur), rest, p.op, key, last, p.value);
    out := if r.Done? then r.doc.members else cur;
  }

  /** However many of them there are, the patches inside an object leave its members with a '/' as they were. */
  lemma {:induction false} SlashesStay(addKey: AddKey, doc: Any, at: seq<string>, cur: map<string, Any>, patches: seq<Patch>)
    returns (out: map<string, Any>, ok: bool)
    requires AllPlain(at) && Get(doc, at) == Some(Object(cur))
    requires forall p :: p in patches ==> StrictlyBelow(Join(at), p)
    ensures Turns(addKey, doc, at, patches, Object(out), ok) && SameSlashes(cur, out)
    decreases |patches|
  {
    hide Join, Get, Put, Apply, AllPlain, StrictlyBelow, SameSlashes;
    if patches == [] {
      out, ok := cur, true;
      TurnsNothing(addKey, doc, at);
      SameSlashesItself(cur);
    } else {
      var p, rest := patches[0], patches[1..];
      assert p in patches;
      var next := SlashesStayOnce(addKey, doc, at, cur, p);
      assert patches == [p] + rest;
      ReplayCons(addKey, doc, p, rest);
      var r := Apply(addKey, doc, p);
      if r.Done? {
        GetPut(doc, at, Object(next));
        out, ok := SlashesStay(addKey, r.doc, at, next, rest);
        PutPut(doc, at, Object(next), Object(out));
        SameSlashesThen(cur, next, out);
      } else {
        out, ok := cur, false;
        PutSame(doc, at);
      }
    }
  }

  lemma SameSlashesItself(x: map<string, Any>)
    ensures SameSlashes(x, x)
  {
  }

  lemma SameSlashesThen(x: map<string, Any>, y: map<string, Any>, z: map<string, Any>)
    requires SameSlashes(x, y) && SameSlashes(y, z)
    ensures SameSlashes(x, z)
  {
  }

  /** An index that does not fit an int is not found, so nothing below it is patched. */
  lemma HugeIndexRefused(addKey: AddKey, doc: Any, at: seq<string>, items: seq<Any>, index: nat, p: Patch)
    requires AllPlain(at) && Get(doc, at) == Some(Array(items)) && index >= 0x8000_0000
    requires Below(Join(at) + "/" + ToDecimal(index), p) || (p.op == Remove && p.path == Join(at) + "/" + ToDecimal(index))
    ensures Apply(addKey, doc, p) == Refused
  {
    hide Join, Get, Put, Tokens, ToDecimal, StoI, Unescape, NoEscape;
    var k := ToDecimal(index);
    DecimalToken(index);
    JoinOneMore(at, k);
    var here := at + [k];
    assert AllPlain(here);
    var rest: seq<string> := [];
    if p.path == Join(here) {
      PlainIsToken(here);
      TokensOfJoin(here);
      assert here + rest == here;
    } else {
      rest := TokensStrictlyBelow(here, p);
    }
    var tokens := here + rest;
    assert tokens == at + ([k] + rest) && Tokens(p.path) == tokens;
    var last := tokens[|tokens| - 1];
    ApplyIsLocal(doc, at, [k] + rest, p.op, KeyOf(addKey, tokens), last, p.value);
    assert Select(Array(items), k) == Missing;
  }
}
