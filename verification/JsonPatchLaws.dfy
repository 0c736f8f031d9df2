/** What one patch of `src/any.cpp` leaves behind, item by item and member by member (section 4 of RFC 6902). */
module JsonPatchLaws {
  import opened JsonPointer
  import opened JsonPatch
  import opened JsonPlaces

  /** The outcome of one operation on the item or member `k` of the value at `at`. */
  function Applied(addKey: AddKey, doc: Any, op: Op, at: seq<string>, k: string, v: Any): Outcome {
    Apply(addKey, doc, Patch(op, Join(at) + "/" + k, v))
  }

  /** The patch succeeds, and what it changes is the value at `at`, which becomes `node`. */
  ghost predicate Becomes(r: Outcome, doc: Any, at: seq<string>, node: Any) {
    r.Done? && Get(doc, at).Some? && Get(r.doc, at) == Some(node) && r.doc == Put(doc, at, node)
  }

  lemma BecomesHere(addKey: AddKey, doc: Any, op: Op, at: seq<string>, k: string, v: Any)
    requires AllTokens(at) && k != "" && '/' !in k && Get(doc, at).Some?
    ensures var here, r := ApplyHere(Get(doc, at).value, [k], op, KeyOf(addKey, at + [k]), k, v), Applied(addKey, doc, op, at, k, v);
            if here.Done? then Becomes(r, doc, at, here.doc) else r == here
  {
    hide Join, ApplyHere;
    ApplyAt(addKey, doc, at, k, op, v);
    var here := ApplyHere(Get(doc, at).value, [k], op, KeyOf(addKey, at + [k]), k, v);
    if here.Done? { GetPut(doc, at, here.doc); }
  }

  /** A changed value is seen through the pointers that lead into it, and no other child of its parent changes. */
  lemma OthersStay(doc: Any, at: seq<string>, k: string, j: string, v: Any)
    requires Get(doc, at).Some? && Get(doc, at + [k]).Some?
    requires Select(Get(doc, at).value, k) != Select(Get(doc, at).value, j)
    ensures Get(Put(doc, at + [k], v), at + [j]) == Get(doc, at + [j])
  {
    hide Get, Put, Select;
    var node := Get(doc, at).value;
    var s := Select(node, k);
    GetChild(doc, at, k);
    PutChild(doc, at, k, v);
    GetPut(doc, at, WithChild(node, s, v));
    PutPut(doc, at, WithChild(node, s, v), node);
    GetChild(doc, at, j);
    GetChild(Put(doc, at, WithChild(node, s, v)), at, j);
    SelectStays(node, s, v, j);
  }

  lemma SelectStays(node: Any, s: Selected, v: Any, j: string)
    requires (s.Item? && node.Array? && s.i < |node.items|) || (s.Member? && node.Object? && s.key in node.members)
    ensures var t := Select(node, j);
            && Select(WithChild(node, s, v), j) == t
            && (t != s && (t.Item? || t.Member?) ==> Child(WithChild(node, s, v), t) == Child(node, t))
  {
    hide Unescape, StoI;
  }

  // ---------------------------------------------------------------- arrays

  ghost predicate Inserted(items: seq<Any>, i: nat, v: Any, r: seq<Any>) {
    && i <= |items| && |r| == |items| + 1 && r[i] == v
    && (forall j :: 0 <= j < i ==> r[j] == items[j])
    && (forall j :: i < j < |r| ==> r[j] == items[j - 1])
  }

  ghost predicate Removed(items: seq<Any>, i: nat, r: seq<Any>) {
    && i < |items| && |r| == |items| - 1
    && (forall j :: 0 <= j < i ==> r[j] == items[j])
    && (forall j :: i <= j < |r| ==> r[j] == items[j + 1])
  }

  ghost predicate Replaced(items: seq<Any>, i: nat, v: Any, r: seq<Any>) {
    && i < |items| && |r| == |items| && r[i] == v && (forall j :: 0 <= j < |r| && j != i ==> r[j] == items[j])
  }

  lemma InsertedIs(items: seq<Any>, i: nat, v: Any)
    requires i <= |items|
    ensures Inserted(items, i, v, items[..i] + [v] + items[i..])
  {
  }

  lemma RemovedIs(items: seq<Any>, i: nat)
    requires i < |items|
    ensures Removed(items, i, items[..i] + items[i + 1..])
  {
  }

  lemma ReplacedIs(items: seq<Any>, i: nat, v: Any)
    requires i < |items|
    ensures Replaced(items, i, v, items[i := v])
  {
  }

  /** Adding at an index inserts in front of what is there; behind the end the iterator is out of range, and an index
      that is no int throws. */
  lemma AddItem(addKey: AddKey, doc: Any, at: seq<string>, items: seq<Any>, i: nat, v: Any) returns (r: seq<Any>)
    requires AllTokens(at) && Get(doc, at) == Some(Array(items))
    ensures var o := Applied(addKey, doc, Add, at, ToDecimal(i), v);
            if v.Null? then o == Refused
            else if i >= 0x8000_0000 then o == Threw
            else if i > |items| then o == Undefined
            else Inserted(items, i, v, r) && Becomes(o, doc, at, Array(r))
  {
    hide ToDecimal, StoI, Select, Becomes, Applied, Inserted, Removed, Replaced;
    IndexSelects(items, i);
    BecomesHere(addKey, doc, Add, at, ToDecimal(i), v);
    r := items;
    if i <= |items| {
      InsertedIs(items, i, v);
      r := items[..i] + [v] + items[i..];
    }
  }

  lemma AppendItem(addKey: AddKey, doc: Any, at: seq<string>, items: seq<Any>, v: Any) returns (r: seq<Any>)
    requires AllTokens(at) && Get(doc, at) == Some(Array(items))
    ensures var o := Applied(addKey, doc, Add, at, "-", v);
            if v.Null? then o == Refused else Inserted(items, |items|, v, r) && Becomes(o, doc, at, Array(r))
  {
    hide StoI, Becomes, Applied, Inserted;
    NoTilde("-");
    BecomesHere(addKey, doc, Add, at, "-", v);
    InsertedIs(items, |items|, v);
    assert items[..|items|] + [v] + items[|items|..] == items + [v];
    r := items + [v];
  }

  lemma RemoveItem(addKey: AddKey, doc: Any, at: seq<string>, items: seq<Any>, i: nat, v: Any) returns (r: seq<Any>)
    requires AllTokens(at) && Get(doc, at) == Some(Array(items))
    ensures var o := Applied(addKey, doc, Remove, at, ToDecimal(i), v);
            if i >= |items| || i >= 0x8000_0000 then o == Refused
            else Removed(items, i, r) && Becomes(o, doc, at, Array(r))
  {
    hide ToDecimal, StoI, Select, Becomes, Applied, Inserted, Removed, Replaced;
    IndexSelects(items, i);
    BecomesHere(addKey, doc, Remove, at, ToDecimal(i), v);
    r := items;
    if i < |items| {
      RemovedIs(items, i);
      r := items[..i] + items[i + 1..];
    }
  }

  lemma ReplaceItem(addKey: AddKey, doc: Any, at: seq<string>, items: seq<Any>, i: nat, v: Any) returns (r: seq<Any>)
    requires AllTokens(at) && Get(doc, at) == Some(Array(items))
    ensures var o := Applied(addKey, doc, Replace, at, ToDecimal(i), v);
            if i >= |items| || i >= 0x8000_0000 || v.Null? then o == Refused
            else Replaced(items, i, v, r) && Becomes(o, doc, at, Array(r))
  {
    hide ToDecimal, StoI, Select, Becomes, Applied, Inserted, Removed, Replaced;
    IndexSelects(items, i);
    BecomesHere(addKey, doc, Replace, at, ToDecimal(i), v);
    r := items;
    if i < |items| {
      ReplacedIs(items, i, v);
      r := items[i := v];
    }
  }

  // ---------------------------------------------------------------- objects

  ghost predicate OnlyMember(members: map<string, Any>, key: string, r: map<string, Any>) {
    forall k :: k != key ==> (k in r <==> k in members) && (k in r ==> r[k] == members[k])
  }

  /** What an escaped key selects. */
  lemma KeySelects(members: map<string, Any>, key: string)
    requires key != ""
    ensures Select(Object(members), Escape(key)) == if key in members then Member(key) else Missing
    ensures Escape(key) != "" && '/' !in Escape(key)
  {
    hide Unescape, Escape;
    EscapeIsRead(key);
  }

  /** Adding a member that is there replaces it.  A new one is named by a token of the pointer as it stands: the first
      one or the last one, and with its escapes. */
  lemma AddMember(addKey: AddKey, doc: Any, at: seq<string>, members: map<string, Any>, key: string, v: Any)
      returns (name: string, r: map<string, Any>)
    requires AllTokens(at) && Get(doc, at) == Some(Object(members)) && key != ""
    ensures name == if key in members then key else KeyOf(addKey, at + [Escape(key)])
    ensures var o := Applied(addKey, doc, Add, at, Escape(key), v);
            if v.Null? then o == Refused
            else
              && OnlyMember(members, name, r) && Becomes(o, doc, at, Object(r))
              && name in r && r[name] == if key !in members && name in members then members[name] else v
  {
    hide Escape, Select, Becomes, Applied;
    KeySelects(members, key);
    BecomesHere(addKey, doc, Add, at, Escape(key), v);
    name := if key in members then key else KeyOf(addKey, at + [Escape(key)]);
    r := if key !in members && name in members then members else members[name := v];
  }

  lemma RemoveMember(addKey: AddKey, doc: Any, at: seq<string>, members: map<string, Any>, key: string, v: Any)
      returns (r: map<string, Any>)
    requires AllTokens(at) && Get(doc, at) == Some(Object(members)) && key != ""
    ensures var o := Applied(addKey, doc, Remove, at, Escape(key), v);
            if key !in members then o == Refused
            else key !in r && OnlyMember(members, key, r) && Becomes(o, doc, at, Object(r))
  {
    hide Escape, Select, Becomes, Applied;
    KeySelects(members, key);
    BecomesHere(addKey, doc, Remove, at, Escape(key), v);
    r := members - {key};
  }

  lemma ReplaceMember(addKey: AddKey, doc: Any, at: seq<string>, members: map<string, Any>, key: string, v: Any)
      returns (r: map<string, Any>)
    requires AllTokens(at) && Get(doc, at) == Some(Object(members)) && key != ""
    ensures var o := Applied(addKey, doc, Replace, at, Escape(key), v);
            if key !in members || v.Null? then o == Refused
            else key in r && r[key] == v && OnlyMember(members, key, r) && Becomes(o, doc, at, Object(r))
  {
    hide Escape, Select, Becomes, Applied;
    KeySelects(members, key);
    BecomesHere(addKey, doc, Replace, at, Escape(key), v);
    r := members[key := v];
  }

  // ---------------------------------------------------------------- elsewhere

  /** In a value that is no container an addition succeeds and does nothing; the others are refused. */
  lemma ScalarStays(addKey: AddKey, doc: Any, op: Op, at: seq<string>, k: string, v: Any)
    requires AllTokens(at) && k != "" && '/' !in k && Get(doc, at).Some? && !Get(doc, at).value.Array? && !Get(doc, at).value.Object?
    ensures var o := Applied(addKey, doc, op, at, k, v);
            if op == Add && !v.Null? then o == Done(doc) else o == Refused
  {
    hide Becomes, Applied, Join, Get, Put;
    BecomesHere(addKey, doc, op, at, k, v);
    if op == Add && !v.Null? { StaysAsItWas(Applied(addKey, doc, op, at, k, v), doc, at); }
  }

  lemma StaysAsItWas(r: Outcome, doc: Any, at: seq<string>)
    requires Get(doc, at).Some? && Becomes(r, doc, at, Get(doc, at).value)
    ensures r == Done(doc)
  {
    PutSame(doc, at);
  }

  /** Behind a token that selects nothing every patch is refused. */
  lemma NothingBelow(addKey: AddKey, doc: Any, op: Op, at: seq<string>, k: string, rest: seq<string>, v: Any)
    requires AllTokens(at + [k] + rest) && rest != [] && Get(doc, at).Some? && Select(Get(doc, at).value, k).Missing?
    ensures Apply(addKey, doc, Patch(op, Join(at + [k] + rest), v)) == Refused
  {
    hide Join, Get, Select, AllTokens;
    var tokens := at + [k] + rest;
    var last := tokens[|tokens| - 1];
    assert tokens == at + ([k] + rest);
    TokensOfJoin(tokens);
    ApplyIsLocal(doc, at, [k] + rest, op, KeyOf(addKey, tokens), last, v);
  }

  /** With an empty pointer the whole document goes, or is replaced. */
  lemma WholeDocument(addKey: AddKey, doc: Any, op: Op, v: Any)
    ensures Apply(addKey, doc, Patch(op, "", v)) == if op == Remove then Done(Null) else if v.Null? then Refused else Done(v)
  {
  }

  /** The document and the patch of lines 1947 to 1949. */
  lemma AddInTheMiddle(addKey: AddKey)
    ensures Apply(addKey, Array([String("foo"), String("sil")]), Patch(Add, "/1", String("bar")))
         == Done(Array([String("foo"), String("bar"), String("sil")]))
  {
    hide ToDecimal, Tokens, ApplyTokens, StoI;
    var items := [String("foo"), String("sil")];
    DecimalOneMore(0, 1);
    OneToken("1");
    assert "/" + "1" == "/1";
    GetNothing(Array(items));
    var r := AddItem(addKey, Array(items), [], items, 1, String("bar"));
    assert r == [String("foo"), String("bar"), String("sil")];
  }

  lemma OneToken(k: string)
    ensures Join([]) + "/" + k == "/" + k
  {
  }
}
