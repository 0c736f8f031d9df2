/** The differ (`create_patches`, `add_patch`) and the patcher (`find`, `apply`, `patch`) of `src/any.cpp`. */
module JsonPatch {
  import opened JsonPointer

  datatype Op = Add | Remove | Replace

  /** One entry of a patch list; a missing "value" reads as null. */
  datatype Patch = Patch(op: Op, path: string, value: Any)

  /** `diff` starts from a null value and turns it into an array at the first entry. */
  datatype PatchList = NoList | List(patches: seq<Patch>)

  /** Which token names the member that an "add" creates.  The code uses the first token of the
      pointer; its array branch, and the standard, use the last. */
  datatype AddKey = FirstToken | LastToken

  /** What `apply` does: `Threw` is an exception from `stoi`, `Undefined` an iterator used out of range. */
  datatype Outcome = Done(doc: Any) | Refused | Threw | Undefined

  // ---------------------------------------------------------------- walking a pointer

  /** What one token selects in a value. */
  datatype Selected = Item(i: nat) | Member(key: string) | End | Missing

  /** `find`'s treatment of one token: "-" is the end of an array, other tokens must index one of its
      items (a negative index wraps around 32 bits, so it never does) or name a member. */
  function Select(node: Any, token: string): (r: Selected)
    ensures r.Item? ==> node.Array? && r.i < |node.items|
    ensures r.Member? ==> node.Object? && r.key in node.members
    ensures r.End? ==> node.Array?
  {
    var t := Unescape(token);
    match node
    case Array(items) =>
      if t == "-" then End
      else (match StoI(t)
            case None => Missing
            case Some(v) =>
              var index := v % 0x1_0000_0000;
              if index < |items| then Item(index) else Missing)
    case Object(members) => if t in members then Member(t) else Missing
    case _ => Missing
  }

  function Child(node: Any, s: Selected): Any
    requires s.Item? ==> node.Array? && s.i < |node.items|
    requires s.Member? ==> node.Object? && s.key in node.members
    requires s.Item? || s.Member?
  {
    if s.Item? then node.items[s.i] else node.members[s.key]
  }

  function WithChild(node: Any, s: Selected, child: Any): Any
    requires s.Item? ==> node.Array? && s.i < |node.items|
    requires s.Member? ==> node.Object? && s.key in node.members
    requires s.Item? || s.Member?
  {
    if s.Item? then Array(node.items[s.i := child]) else Object(node.members[s.key := child])
  }

  /** The value that a list of tokens leads to. */
  function Get(doc: Any, tokens: seq<string>): Option<Any> {
    if tokens == [] then Some(doc)
    else
      var s := Select(doc, tokens[0]);
      if s.Item? || s.Member? then Get(Child(doc, s), tokens[1..]) else None
  }

  /** The document with another value in that place. */
  function Put(doc: Any, tokens: seq<string>, value: Any): Any
    requires Get(doc, tokens).Some?
  {
    if tokens == [] then value
    else
      var s := Select(doc, tokens[0]);
      WithChild(doc, s, Put(Child(doc, s), tokens[1..], value))
  }

  // ---------------------------------------------------------------- applying one patch

  /** `add` in a value that the walk ended in, `left` tokens before the end of the pointer. */
  function AddHere(node: Any, s: Selected, left: nat, key: string, last: string, value: Any): Outcome
    requires s.Member? ==> node.Object?
  {
    if (s.Missing? && left != 1) || value.Null? then Refused
    else
      match node
      case Array(items) =>
        if last == "-" then Done(Array(items + [value]))
        else (match StoI(last)
              case None => Threw
              case Some(v) =>
                if 0 <= v <= |items| then Done(Array(items[..v] + [value] + items[v..])) else Undefined)
      case Object(members) =>
        if s.Member? then Done(Object(members[s.key := value]))
        else if key in members then Done(node)
        else Done(Object(members[key := value]))
      case _ => Done(node)
  }

  function RemoveHere(node: Any, s: Selected): Outcome
    requires s.Item? ==> node.Array? && s.i < |node.items|
    requires s.Member? ==> node.Object?
  {
    match s
    case Item(i) => Done(Array(node.items[..i] + node.items[i + 1..]))
    case Member(key) => Done(Object(node.members - {key}))
    case End => Undefined
    case Missing => Refused
  }

  function ReplaceHere(node: Any, s: Selected, value: Any): Outcome
    requires s.Item? ==> node.Array? && s.i < |node.items|
    requires s.Member? ==> node.Object?
  {
    if s.Missing? || value.Null? then Refused
    else
      match s
      case Item(i) => Done(Array(node.items[i := value]))
      case Member(key) => Done(Object(node.members[key := value]))
      case _ => Undefined
  }

  /** The effect at the value in which the walk ended; `tokens` are the ones from there on. */
  function ApplyHere(node: Any, tokens: seq<string>, op: Op, key: string, last: string, value: Any): Outcome
    requires tokens != [] && last == tokens[|tokens| - 1]
  {
    var s := Select(node, tokens[0]);
    match op
    case Add => AddHere(node, s, |tokens|, key, last, value)
    case Remove => RemoveHere(node, s)
    case Replace => ReplaceHere(node, s, value)
  }

  /** The walk goes on below the selected child while tokens are left. */
  predicate WalksOn(node: Any, tokens: seq<string>) {
    |tokens| > 1 && (Select(node, tokens[0]).Item? || Select(node, tokens[0]).Member?)
  }

  function ApplyTokens(node: Any, tokens: seq<string>, op: Op, key: string, last: string, value: Any): Outcome
    requires tokens != [] && last == tokens[|tokens| - 1]
    decreases |tokens|
  {
    if WalksOn(node, tokens) then
      var s := Select(node, tokens[0]);
      match ApplyTokens(Child(node, s), tokens[1..], op, key, last, value)
      case Done(child) => Done(WithChild(node, s, child))
      case other => other
    else
      ApplyHere(node, tokens, op, key, last, value)
  }

  function ApplyToRoot(root: Any, op: Op, value: Any): Outcome {
    if op == Remove then Done(Null) else if value.Null? then Refused else Done(value)
  }

  function KeyOf(addKey: AddKey, tokens: seq<string>): string
    requires tokens != []
  {
    if addKey == FirstToken then tokens[0] else tokens[|tokens| - 1]
  }

  /** `apply`. */
  function Apply(addKey: AddKey, root: Any, patch: Patch): Outcome {
    var tokens := Tokens(patch.path);
    if tokens == [] then
      ApplyToRoot(root, patch.op, patch.value)
    else
      ApplyTokens(root, tokens, patch.op, KeyOf(addKey, tokens), tokens[|tokens| - 1], patch.value)
  }

  /** The document after a list of patches, and whether all of them succeeded; the first one that
      does not ends the run. */
  datatype Patched = Patched(doc: Any, ok: bool)

  function Replay(addKey: AddKey, root: Any, patches: seq<Patch>): Patched
    decreases |patches|
  {
    if patches == [] then Patched(root, true)
    else
      match Apply(addKey, root, patches[0])
      case Done(doc) => Replay(addKey, doc, patches[1..])
      case _ => Patched(root, false)
  }

  /** `patch`: anything but an array is refused. */
  function PatchWith(addKey: AddKey, root: Any, list: PatchList): Patched {
    match list
    case NoList => Patched(root, false)
    case List(patches) => Replay(addKey, root, patches)
  }

  // ---------------------------------------------------------------- the differ

  /** An order in which the pairs of an unordered map may come. */
  ghost predicate IsOrder(order: set<string> -> seq<string>) {
    forall keys :: Enumerates(order(keys), keys)
  }

  ghost predicate Enumerates(keys: seq<string>, members: set<string>) {
    && (forall k :: k in keys <==> k in members)
    && (forall i, j :: 0 <= i < j < |keys| ==> keys[i] != keys[j])
  }

  /** Some order of the members of a set. */
  ghost function Listed(members: set<string>): seq<string>
    decreases |members|
  {
    if members == {} then [] else var k :| k in members; [k] + Listed(members - {k})
  }

  lemma {:induction false} ListedEnumerates(members: set<string>)
    ensures Enumerates(Listed(members), members)
    decreases |members|
  {
    if members != {} {
      var first := Listed(members)[0];
      assert Listed(members) == [first] + Listed(members - {first});
      ListedEnumerates(members - {first});
    }
  }

  /** Every set can be enumerated, so there is an order. */
  lemma OrderExists()
    ensures exists order :: IsOrder(order)
  {
    ghost var order := (members: set<string>) => Listed(members);
    forall members ensures Enumerates(order(members), members) {
      ListedEnumerates(members);
    }
    assert IsOrder(order);
  }

  /** `add_patch`: nothing for an excluded path, no "value" for a null. */
  function AddPatch(op: Op, path: string, suffix: string, value: Any, exclusions: seq<string>): seq<Patch> {
    var actual := if suffix != "" then path + "/" + suffix else path;
    if actual in exclusions then [] else [Patch(op, actual, value)]
  }

  function ToUint64(i: Int64): nat { i % 0x1_0000_0000_0000_0000 }

  /** `create_patches`. */
  function CreatePatches(path: string, lhs: Any, rhs: Any, exclusions: seq<string>,
                         order: set<string> -> seq<string>): seq<Patch>
    decreases lhs, 1, 0
  {
    var changed := AddPatch(Replace, path, "", rhs, exclusions);
    match (lhs, rhs)
    case (Null, Null) => []
    case (Boolean(x), Boolean(y)) => if x != y then changed else []
    case (Integer(x), Integer(y)) => if ToUint64(x) != ToUint64(y) then changed else []
    case (Floating(x), Floating(y)) => if x != y then changed else []
    case (String(x), String(y)) => if x != y then changed else []
    case (Blob(x), Blob(y)) => if x != y then changed else []
    case (Array(x), Array(y)) =>
      var min := if |x| < |y| then |x| else |y|;
      ItemPatches(path, lhs, y, 0, min, exclusions, order)
      + LeftoverPatches(path, min, |x| - min, exclusions)
      + NewItemPatches(path, y[min..], exclusions)
    case (Object(x), Object(y)) =>
      MemberPatches(path, lhs, y, order(x.Keys), exclusions, order)
      + NewMemberPatches(path, x, y, order(y.Keys), exclusions)
    case _ => changed
  }

  /** The items that both arrays have. */
  function ItemPatches(path: string, lhs: Any, rhs: seq<Any>, index: nat, min: nat, exclusions: seq<string>,
                       order: set<string> -> seq<string>): seq<Patch>
    requires lhs.Array? && index <= min <= |lhs.items| && min <= |rhs|
    decreases lhs, 0, min - index
  {
    if index == min then []
    else CreatePatches(path + "/" + ToDecimal(index), lhs.items[index], rhs[index], exclusions, order)
         + ItemPatches(path, lhs, rhs, index + 1, min, exclusions, order)
  }

  /** Every leftover item is removed at the same index. */
  function LeftoverPatches(path: string, min: nat, count: nat, exclusions: seq<string>): seq<Patch> {
    if count == 0 then []
    else AddPatch(Remove, path, ToDecimal(min), Null, exclusions)
         + LeftoverPatches(path, min, count - 1, exclusions)
  }

  function NewItemPatches(path: string, items: seq<Any>, exclusions: seq<string>): seq<Patch> {
    if items == [] then []
    else AddPatch(Add, path, "-", items[0], exclusions) + NewItemPatches(path, items[1..], exclusions)
  }

  /** The members of the left object: compared, or removed. */
  function MemberPatches(path: string, lhs: Any, rhs: map<string, Any>, keys: seq<string>, exclusions: seq<string>,
                         order: set<string> -> seq<string>): seq<Patch>
    requires lhs.Object?
    decreases lhs, 0, |keys|
  {
    if keys == [] then []
    else
      var k := keys[0];
      (if k !in lhs.members then []
       else if k in rhs then CreatePatches(path + "/" + k, lhs.members[k], rhs[k], exclusions, order)
       else AddPatch(Remove, path, k, Null, exclusions))
      + MemberPatches(path, lhs, rhs, keys[1..], exclusions, order)
  }

  /** The members that only the right object has. */
  function NewMemberPatches(path: string, lhs: map<string, Any>, rhs: map<string, Any>, keys: seq<string>,
                            exclusions: seq<string>): seq<Patch>
  {
    if keys == [] then []
    else
      var k := keys[0];
      (if k in rhs && k !in lhs then AddPatch(Add, path, k, rhs[k], exclusions) else [])
      + NewMemberPatches(path, lhs, rhs, keys[1..], exclusions)
  }

  /** `diff`. */
  function Diff(lhs: Any, rhs: Any, exclusions: seq<string>, order: set<string> -> seq<string>): PatchList {
    var patches := CreatePatches("", lhs, rhs, exclusions, order);
    if patches == [] then NoList else List(patches)
  }
}
