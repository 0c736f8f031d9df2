/** Places in a document: what one patch, and a list of patches, does to the value at a place. */
module JsonPlaces {
  import opened JsonPointer
  import opened JsonPatch

  // ---------------------------------------------------------------- Get and Put

  lemma GetNothing(doc: Any)
    ensures Get(doc, []) == Some(doc)
  {
  }

  lemma {:induction false} GetPut(doc: Any, at: seq<string>, v: Any)
    requires Get(doc, at).Some?
    ensures Get(Put(doc, at, v), at) == Some(v)
  {
    if at != [] {
      GetPut(Child(doc, Select(doc, at[0])), at[1..], v);
    }
  }

  lemma {:induction false} PutPut(doc: Any, at: seq<string>, v: Any, w: Any)
    requires Get(doc, at).Some?
    ensures Get(Put(doc, at, v), at).Some? && Put(Put(doc, at, v), at, w) == Put(doc, at, w)
  {
    if at != [] {
      var s := Select(doc, at[0]);
      PutPut(Child(doc, s), at[1..], v, w);
      var below := Put(Child(doc, s), at[1..], v);
      assert WithChild(WithChild(doc, s, below), s, Put(below, at[1..], w)) == WithChild(doc, s, Put(below, at[1..], w));
    }
  }

  lemma {:induction false} PutSame(doc: Any, at: seq<string>)
    requires Get(doc, at).Some?
    ensures Put(doc, at, Get(doc, at).value) == doc
  {
    if at != [] {
      PutSame(Child(doc, Select(doc, at[0])), at[1..]);
    }
  }

  lemma {:induction false} GetChild(doc: Any, at: seq<string>, token: string)
    requires Get(doc, at).Some?
    ensures var node := Get(doc, at).value;
            var s := Select(node, token);
            Get(doc, at + [token]) == if s.Item? || s.Member? then Some(Child(node, s)) else None
  {
    if at == [] {
      assert (at + [token])[1..] == [];
    } else {
      assert (at + [token])[1..] == at[1..] + [token];
      GetChild(Child(doc, Select(doc, at[0])), at[1..], token);
    }
  }

  lemma {:induction false} PutChild(doc: Any, at: seq<string>, token: string, v: Any)
    requires Get(doc, at).Some? && Get(doc, at + [token]).Some?
    ensures var node := Get(doc, at).value;
            var s := Select(node, token);
            (s.Item? || s.Member?) && Put(doc, at + [token], v) == Put(doc, at, WithChild(node, s, v))
  {
    GetChild(doc, at, token);
    if at == [] {
      assert (at + [token])[1..] == [];
    } else {
      assert (at + [token])[1..] == at[1..] + [token];
      PutChild(Child(doc, Select(doc, at[0])), at[1..], token, v);
    }
  }

  // ---------------------------------------------------------------- locality of one patch

  function Lift(doc: Any, at: seq<string>, r: Outcome): Outcome
    requires Get(doc, at).Some?
  {
    match r
    case Done(node) => Done(Put(doc, at, node))
    case other => other
  }

  /** A pointer that passes through a value only changes that value. */
  lemma {:induction false} ApplyIsLocal(doc: Any, at: seq<string>, rest: seq<string>, op: Op, key: string, last: string, v: Any)
    requires Get(doc, at).Some? && rest != [] && last == rest[|rest| - 1]
    ensures ApplyTokens(doc, at + rest, op, key, last, v)
         == Lift(doc, at, ApplyTokens(Get(doc, at).value, rest, op, key, last, v))
  {
    if at == [] {
      assert at + rest == rest;
    } else {
      assert (at + rest)[1..] == at[1..] + rest;
      ApplyIsLocal(Child(doc, Select(doc, at[0])), at[1..], rest, op, key, last, v);
    }
  }

  ghost predicate AllPlain(tokens: seq<string>) {
    forall i :: 0 <= i < |tokens| ==> Plain(tokens[i])
  }

  lemma ApplyAt(addKey: AddKey, doc: Any, at: seq<string>, k: string, op: Op, v: Any)
    requires AllTokens(at) && k != "" && '/' !in k && Get(doc, at).Some?
    ensures Apply(addKey, doc, Patch(op, Join(at) + "/" + k, v))
         == Lift(doc, at, ApplyHere(Get(doc, at).value, [k], op, KeyOf(addKey, at + [k]), k, v))
  {
    var tokens := at + [k];
    assert tokens[..|at|] == at;
    TokensOfJoin(tokens);
    ApplyIsLocal(doc, at, [k], op, KeyOf(addKey, tokens), k, v);
  }

  lemma {:induction false} ReplayAppend(addKey: AddKey, doc: Any, p: seq<Patch>, q: seq<Patch>)
    ensures var r := Replay(addKey, doc, p);
            Replay(addKey, doc, p + q) == if r.ok then Replay(addKey, r.doc, q) else r
    decreases |p|
  {
    if p == [] {
      assert p + q == q;
    } else {
      assert (p + q)[1..] == p[1..] + q;
      match Apply(addKey, doc, p[0])
      case Done(next) => ReplayAppend(addKey, next, p[1..], q);
      case _ =>
    }
  }

  lemma {:induction false} ReplayCons(addKey: AddKey, doc: Any, p: Patch, rest: seq<Patch>)
    ensures var r := Apply(addKey, doc, p);
            Replay(addKey, doc, [p] + rest) == if r.Done? then Replay(addKey, r.doc, rest) else Patched(doc, false)
  {
    assert ([p] + rest)[1..] == rest;
  }

  lemma ReplayNothing(addKey: AddKey, doc: Any)
    ensures Replay(addKey, doc, []) == Patched(doc, true)
  {
  }

  // ---------------------------------------------------------------- patches for one place

  /** Replaying the patches on the document only turns the value at `at` into `node`. */
  ghost predicate Turns(addKey: AddKey, doc: Any, at: seq<string>, patches: seq<Patch>, node: Any, ok: bool) {
    Get(doc, at).Some? && Replay(addKey, doc, patches) == Patched(Put(doc, at, node), ok)
  }

  lemma TurnsNothing(addKey: AddKey, doc: Any, at: seq<string>)
    requires Get(doc, at).Some?
    ensures Turns(addKey, doc, at, [], Get(doc, at).value, true)
  {
    PutSame(doc, at);
  }

  lemma TurnsInto(addKey: AddKey, doc: Any, at: seq<string>, p: seq<Patch>, node: Any, ok: bool)
    requires Turns(addKey, doc, at, p, node, ok)
    ensures Get(Replay(addKey, doc, p).doc, at) == Some(node)
  {
    GetPut(doc, at, node);
  }

  lemma TurnsThen(addKey: AddKey, doc: Any, at: seq<string>, p: seq<Patch>, node1: Any, q: seq<Patch>, node2: Any, ok: bool)
    requires Turns(addKey, doc, at, p, node1, true)
    requires Turns(addKey, Replay(addKey, doc, p).doc, at, q, node2, ok)
    ensures Turns(addKey, doc, at, p + q, node2, ok)
  {
    ReplayAppend(addKey, doc, p, q);
    PutPut(doc, at, node1, node2);
  }

  lemma TurnsNoFurther(addKey: AddKey, doc: Any, at: seq<string>, p: seq<Patch>, node: Any, q: seq<Patch>)
    requires Turns(addKey, doc, at, p, node, false)
    ensures Turns(addKey, doc, at, p + q, node, false)
  {
    ReplayAppend(addKey, doc, p, q);
  }

  /** What happens to a child happens to its parent. */
  lemma TurnsParent(addKey: AddKey, doc: Any, at: seq<string>, k: string, p: seq<Patch>, child: Any, ok: bool)
    requires Get(doc, at).Some? && Turns(addKey, doc, at + [k], p, child, ok)
    ensures var node := Get(doc, at).value;
            var s := Select(node, k);
            (s.Item? || s.Member?) && Turns(addKey, doc, at, p, WithChild(node, s, child), ok)
  {
    PutChild(doc, at, k, child);
  }

  /** One patch whose pointer ends right below `at`. */
  lemma TurnsByOne(addKey: AddKey, doc: Any, at: seq<string>, k: string, op: Op, v: Any)
    requires AllPlain(at) && Plain(k) && Get(doc, at).Some?
    ensures var node := Get(doc, at).value;
            var patch := [Patch(op, Join(at) + "/" + k, v)];
            var r := ApplyHere(node, [k], op, KeyOf(addKey, at + [k]), k, v);
            if r.Done? then Turns(addKey, doc, at, patch, r.doc, true) else Turns(addKey, doc, at, patch, node, false)
  {
    var patch := Patch(op, Join(at) + "/" + k, v);
    PlainIsToken(at);
    ApplyAt(addKey, doc, at, k, op, v);
    assert [patch] == [patch] + [];
    ReplayCons(addKey, doc, patch, []);
    PutSame(doc, at);
  }

  lemma JoinOneMore(at: seq<string>, k: string)
    ensures Join(at + [k]) == Join(at) + "/" + k
  {
    assert (at + [k])[..|at|] == at;
  }

  /** What an index selects. */
  lemma IndexSelects(items: seq<Any>, i: nat)
    ensures Select(Array(items), ToDecimal(i)) == if i < |items| && i < 0x8000_0000 then Item(i) else Missing
    ensures ToDecimal(i) != "" && '/' !in ToDecimal(i) && ToDecimal(i) != "-"
    ensures StoI(ToDecimal(i)) == if i < 0x8000_0000 then Some(i) else None
  {
    hide ToDecimal, StoI, ReplaceAll;
    DecimalToken(i);
    if i < 0x8000_0000 { assert i % 0x1_0000_0000 == i; }
  }
}
