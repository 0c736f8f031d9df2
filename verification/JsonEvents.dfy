/** Writing a tree as a sequence of events and building a tree from one: `deflate` and `parser_context` of
    `src/json.cpp`.  The text between the two, written by rapidjson and read by yajl, is not modelled. */
module JsonEvents {
  import opened JsonPointer
  import opened JsonPatch

  datatype Event =
    | NullValue
    | BoolValue(boolean: bool)
    | IntegerValue(integer: Int64)
    | DoubleValue(floating: real)
    | StringValue(text: string)
    | StartArray
    | EndArray
    | StartMap
    | MapKey(key: string)
    | EndMap

  // ---------------------------------------------------------------- writing

  /** `deflate` (lines 290 to 361): members come in the order of the unordered map; a blob is written as the
      string `text` makes of it. */
  function Events(t: Any, order: set<string> -> seq<string>, text: seq<bv8> -> string): seq<Event>
    decreases t, 1, 0
  {
    match t
    case Null => [NullValue]
    case Boolean(b) => [BoolValue(b)]
    case Integer(i) => [IntegerValue(i)]
    case Floating(f) => [DoubleValue(f)]
    case String(s) => [StringValue(s)]
    case Blob(b) => [StringValue(text(b))]
    case Array(items) => [StartArray] + ItemEvents(t, |items|, order, text) + [EndArray]
    case Object(members) =>
      var keys := order(members.Keys);
      if forall k :: k in keys ==> k in members then [StartMap] + MemberEvents(t, keys, |keys|, order, text) + [EndMap]
      else []
  }

  function ItemEvents(t: Any, n: nat, order: set<string> -> seq<string>, text: seq<bv8> -> string): seq<Event>
    requires t.Array? && n <= |t.items|
    decreases t, 0, n
  {
    if n == 0 then [] else ItemEvents(t, n - 1, order, text) + Events(t.items[n - 1], order, text)
  }

  function MemberEvents(t: Any, keys: seq<string>, n: nat, order: set<string> -> seq<string>, text: seq<bv8> -> string): seq<Event>
    requires t.Object? && n <= |keys| && forall k :: k in keys ==> k in t.members
    decreases t, 0, n
  {
    if n == 0 then []
    else MemberEvents(t, keys, n - 1, order, text) + [MapKey(keys[n - 1])] + Events(t.members[keys[n - 1]], order, text)
  }

  /** An array and an object with their parts. */
  lemma ExampleEvents(order: set<string> -> seq<string>, text: seq<bv8> -> string)
    requires order({"k"}) == ["k"]
    ensures Events(Array([Integer(1), Array([]), String("a")]), order, text)
         == [StartArray, IntegerValue(1), StartArray, EndArray, StringValue("a"), EndArray]
    ensures Events(Object(map["k" := Null]), order, text) == [StartMap, MapKey("k"), NullValue, EndMap]
  {
    var t := Array([Integer(1), Array([]), String("a")]);
    assert ItemEvents(t, 1, order, text) == ItemEvents(t, 0, order, text) + [IntegerValue(1)];
    assert ItemEvents(t, 2, order, text) == ItemEvents(t, 1, order, text) + [StartArray, EndArray];
    assert ItemEvents(t, 3, order, text) == ItemEvents(t, 2, order, text) + [StringValue("a")];
    var o := Object(map["k" := Null]);
    assert o.members.Keys == {"k"};
    assert MemberEvents(o, ["k"], 1, order, text) == MemberEvents(o, ["k"], 0, order, text) + [MapKey("k")] + [NullValue];
  }

  // ---------------------------------------------------------------- building

  /** The two stacks, top last, and the tree that was finished last. */
  datatype Context = Context(vals: seq<Any>, keys: seq<string>, root: Any)

  /** A value goes into the container on top; outside of all containers it is dropped.  None where an
      assertion of the source fails. */
  function Added(c: Context, v: Any): Option<Context> {
    if c.vals == [] then Some(c)
    else
      var rest, top := c.vals[..|c.vals| - 1], c.vals[|c.vals| - 1];
      if top.Array? then Some(c.(vals := rest + [Array(top.items + [v])]))
      else if top.Object? then
        if c.keys == [] then None
        else
          var key := c.keys[|c.keys| - 1];
          var members := if key in top.members then top.members else top.members[key := v];
          Some(Context(rest + [Object(members)], c.keys[..|c.keys| - 1], c.root))
      else Some(c)
  }

  /** A container is finished: it goes into the one around it, or is the root. */
  function Popped(c: Context): Option<Context> {
    if c.vals == [] then None
    else if |c.vals| > 1 then Added(c.(vals := c.vals[..|c.vals| - 1]), c.vals[|c.vals| - 1])
    else Some(Context([], c.keys, c.vals[0]))
  }

  function Step(c: Context, e: Event): Option<Context> {
    match e
    case NullValue => Added(c, Null)
    case BoolValue(b) => Added(c, Boolean(b))
    case IntegerValue(i) => Added(c, Integer(i))
    case DoubleValue(f) => Added(c, Floating(f))
    case StringValue(s) => Added(c, String(s))
    case StartArray => Some(c.(vals := c.vals + [Array([])]))
    case StartMap => Some(c.(vals := c.vals + [Object(map[])]))
    case MapKey(k) => Some(c.(keys := c.keys + [k]))
    case EndArray => Popped(c)
    case EndMap => Popped(c)
  }

  function Feed(c: Option<Context>, events: seq<Event>): Option<Context>
    decreases |events|
  {
    if events == [] then c
    else
      var before := Feed(c, events[..|events| - 1]);
      if before.None? then None else Step(before.value, events[|events| - 1])
  }

  lemma {:induction false} FeedConcat(c: Option<Context>, p: seq<Event>, q: seq<Event>)
    ensures Feed(c, p + q) == Feed(Feed(c, p), q)
    decreases |q|
  {
    if q == [] {
      assert p + q == p;
    } else {
      assert (p + q)[..|p + q| - 1] == p + q[..|q| - 1];
      FeedConcat(c, p, q[..|q| - 1]);
    }
  }

  lemma FeedOne(c: Option<Context>, e: Event)
    ensures Feed(c, [e]) == if c.None? then None else Step(c.value, e)
  {
    assert [e][..0] == [];
  }

  /** Of two members with the same name the first one stays. */
  lemma SecondMemberIsDropped(c: Context, key: string, v: Any, w: Any)
    ensures var open := c.(vals := c.vals + [Object(map[])]);
            var first := Added(open.(keys := open.keys + [key]), v);
            && first == Some(c.(vals := c.vals + [Object(map[key := v])]))
            && Added(first.value.(keys := first.value.keys + [key]), w) == first
  {
    var top := c.vals + [Object(map[])];
    assert top[..|top| - 1] == c.vals && (c.keys + [key])[..|c.keys|] == c.keys;
    var next := c.vals + [Object(map[key := v])];
    assert next[..|next| - 1] == c.vals;
  }

  // ---------------------------------------------------------------- the round trip

  /** The tree with each blob replaced by the string it is written as. */
  function Rebuilt(t: Any, text: seq<bv8> -> string): Any {
    match t
    case Blob(b) => String(text(b))
    case Array(items) => Array(seq(|items|, i requires 0 <= i < |items| => Rebuilt(items[i], text)))
    case Object(members) => Object(map k | k in members :: Rebuilt(members[k], text))
    case _ => t
  }

  predicate BlobFree(t: Any) {
    match t
    case Blob(_) => false
    case Array(items) => forall i :: 0 <= i < |items| ==> BlobFree(items[i])
    case Object(members) => forall k :: k in members ==> BlobFree(members[k])
    case _ => true
  }

  lemma {:induction false} RebuiltIsSame(t: Any, text: seq<bv8> -> string)
    ensures Rebuilt(t, text) == t <==> BlobFree(t)
  {
    match t
    case Array(items) =>
      forall i | 0 <= i < |items| ensures Rebuilt(items[i], text) == items[i] <==> BlobFree(items[i]) {
        RebuiltIsSame(items[i], text);
      }
      if BlobFree(t) { assert Rebuilt(t, text).items == items; }
    case Object(members) =>
      forall k | k in members ensures Rebuilt(members[k], text) == members[k] <==> BlobFree(members[k]) {
        RebuiltIsSame(members[k], text);
      }
      if BlobFree(t) { assert Rebuilt(t, text).members == members; }
    case _ =>
  }

  ghost predicate IsContainer(t: Any) { t.Array? || t.Object? }

  /** A value can be taken: the container on top is not an object, or it has a key waiting. */
  ghost predicate Ready(c: Context) {
    c.vals != [] && c.vals[|c.vals| - 1].Object? ==> c.keys != []
  }

  /** What a whole value does: a container outside of all others is the root, anything else is added. */
  ghost function Delivered(c: Context, v: Any): Option<Context> {
    if c.vals == [] && IsContainer(v) then Some(c.(root := v)) else Added(c, v)
  }

  lemma PopDelivers(c: Context, v: Any)
    requires IsContainer(v)
    ensures Popped(c.(vals := c.vals + [v])) == Delivered(c, v)
  {
    assert (c.vals + [v])[..|c.vals|] == c.vals;
  }

  lemma RebuiltItems(t: Any, text: seq<bv8> -> string)
    requires t.Array?
    ensures Rebuilt(t, text).Array? && |Rebuilt(t, text).items| == |t.items|
    ensures forall i :: 0 <= i < |t.items| ==> Rebuilt(t, text).items[i] == Rebuilt(t.items[i], text)
  {
  }

  lemma RebuiltMembers(t: Any, text: seq<bv8> -> string)
    requires t.Object?
    ensures Rebuilt(t, text).Object? && Rebuilt(t, text).members.Keys == t.members.Keys
    ensures forall k :: k in t.members ==> Rebuilt(t, text).members[k] == Rebuilt(t.members[k], text)
  {
  }

  lemma AddedToArray(c: Context, items: seq<Any>, v: Any)
    ensures var mid := c.(vals := c.vals + [Array(items)]);
            Ready(mid) && Delivered(mid, v) == Some(c.(vals := c.vals + [Array(items + [v])]))
  {
    assert (c.vals + [Array(items)])[..|c.vals|] == c.vals;
  }

  lemma AddedToObject(c: Context, members: map<string, Any>, key: string, v: Any)
    requires key !in members
    ensures var mid := Context(c.vals + [Object(members)], c.keys + [key], c.root);
            Ready(mid) && Delivered(mid, v) == Some(c.(vals := c.vals + [Object(members[key := v])]))
  {
    assert (c.vals + [Object(members)])[..|c.vals|] == c.vals && (c.keys + [key])[..|c.keys|] == c.keys;
  }

  /** The items of an array under construction. */
  lemma {:induction false} FeedItems(t: Any, n: nat, c: Context, order: set<string> -> seq<string>, text: seq<bv8> -> string)
    requires t.Array? && n <= |t.items| && IsOrder(order)
    ensures Rebuilt(t, text).Array? && |Rebuilt(t, text).items| == |t.items|
    ensures Feed(Some(c.(vals := c.vals + [Array([])])), ItemEvents(t, n, order, text))
         == Some(c.(vals := c.vals + [Array(Rebuilt(t, text).items[..n])]))
    decreases t, 0, n
  {
    hide Events, Delivered, Rebuilt, Step, IsOrder, Ready;
    var start := Some(c.(vals := c.vals + [Array([])]));
    RebuiltItems(t, text);
    var items := Rebuilt(t, text).items;
    if n > 0 {
      FeedItems(t, n - 1, c, order, text);
      FeedConcat(start, ItemEvents(t, n - 1, order, text), Events(t.items[n - 1], order, text));
      AddedToArray(c, items[..n - 1], items[n - 1]);
      FeedTree(t.items[n - 1], c.(vals := c.vals + [Array(items[..n - 1])]), order, text);
      assert items[..n] == items[..n - 1] + [items[n - 1]];
    }
  }

  /** The members with the first `n` keys. */
  ghost function Part(m: map<string, Any>, keys: seq<string>, n: nat): (r: map<string, Any>)
    requires n <= |keys|
  {
    map k | k in m && k in keys[..n] :: m[k]
  }

  lemma PartNext(m: map<string, Any>, keys: seq<string>, n: nat)
    requires n < |keys| && keys[n] in m && (forall i, j :: 0 <= i < j < |keys| ==> keys[i] != keys[j])
    ensures keys[n] !in Part(m, keys, n) && Part(m, keys, n + 1) == Part(m, keys, n)[keys[n] := m[keys[n]]]
  {
    assert forall i :: 0 <= i < n ==> keys[..n][i] != keys[n];
    assert forall k :: k in keys[..n + 1] <==> k in keys[..n] || k == keys[n] by {
      assert keys[..n + 1] == keys[..n] + [keys[n]];
    }
  }

  lemma PartOfNone(m: map<string, Any>, keys: seq<string>)
    ensures Part(m, keys, 0) == map[]
  {
  }

  /** A key, and the value that goes under it. */
  lemma FeedMember(t: Any, key: string, c: Context, part: map<string, Any>, order: set<string> -> seq<string>, text: seq<bv8> -> string)
    requires t.Object? && key in t.members && key !in part && IsOrder(order)
    ensures Feed(Some(c.(vals := c.vals + [Object(part)])), [MapKey(key)] + Events(t.members[key], order, text))
         == Some(c.(vals := c.vals + [Object(part[key := Rebuilt(t.members[key], text)])]))
    decreases t, 0, 0
  {
    hide Events, Delivered, Rebuilt, IsOrder, Ready, Added, Popped;
    var mid := c.(vals := c.vals + [Object(part)]);
    FeedConcat(Some(mid), [MapKey(key)], Events(t.members[key], order, text));
    FeedOne(Some(mid), MapKey(key));
    AddedToObject(c, part, key, Rebuilt(t.members[key], text));
    FeedTree(t.members[key], Context(c.vals + [Object(part)], c.keys + [key], c.root), order, text);
  }

  lemma {:induction false} FeedMembers(t: Any, keys: seq<string>, n: nat, c: Context, order: set<string> -> seq<string>, text: seq<bv8> -> string)
    requires t.Object? && n <= |keys| && IsOrder(order) && Enumerates(keys, t.members.Keys)
    ensures Rebuilt(t, text).Object?
    ensures Feed(Some(c.(vals := c.vals + [Object(map[])])), MemberEvents(t, keys, n, order, text))
         == Some(c.(vals := c.vals + [Object(Part(Rebuilt(t, text).members, keys, n))]))
    decreases t, 0, n + 1
  {
    hide Events, Delivered, Rebuilt, Step, IsOrder, Ready, Part;
    var start := Some(c.(vals := c.vals + [Object(map[])]));
    RebuiltMembers(t, text);
    var m := Rebuilt(t, text).members;
    if n == 0 {
      PartOfNone(m, keys);
    } else {
      var key := keys[n - 1];
      assert key in keys;
      FeedMembers(t, keys, n - 1, c, order, text);
      PartNext(m, keys, n - 1);
      var before, value := MemberEvents(t, keys, n - 1, order, text), Events(t.members[key], order, text);
      assert before + [MapKey(key)] + value == before + ([MapKey(key)] + value);
      FeedConcat(start, before, [MapKey(key)] + value);
      FeedMember(t, key, c, Part(m, keys, n - 1), order, text);
    }
  }

  lemma FeedArray(t: Any, c: Context, order: set<string> -> seq<string>, text: seq<bv8> -> string)
    requires t.Array? && IsOrder(order)
    ensures Feed(Some(c), Events(t, order, text)) == Delivered(c, Rebuilt(t, text))
    decreases t, 0, |t.items| + 1
  {
    hide Rebuilt, Delivered, IsOrder, ItemEvents, Popped, Added;
    var events := ItemEvents(t, |t.items|, order, text);
    FeedConcat(Some(c), [StartArray] + events, [EndArray]);
    FeedConcat(Some(c), [StartArray], events);
    FeedOne(Some(c), StartArray);
    FeedItems(t, |t.items|, c, order, text);
    var v := Rebuilt(t, text);
    assert v.items[..|t.items|] == v.items;
    FeedOne(Some(c.(vals := c.vals + [v])), EndArray);
    PopDelivers(c, v);
  }

  lemma FeedObject(t: Any, c: Context, order: set<string> -> seq<string>, text: seq<bv8> -> string)
    requires t.Object? && IsOrder(order)
    ensures Feed(Some(c), Events(t, order, text)) == Delivered(c, Rebuilt(t, text))
    decreases t, 0, |order(t.members.Keys)| + 2
  {
    hide Rebuilt, Delivered, MemberEvents, Popped, Added;
    var keys := order(t.members.Keys);
    assert Enumerates(keys, t.members.Keys);
    var events := MemberEvents(t, keys, |keys|, order, text);
    FeedConcat(Some(c), [StartMap] + events, [EndMap]);
    FeedConcat(Some(c), [StartMap], events);
    FeedOne(Some(c), StartMap);
    FeedMembers(t, keys, |keys|, c, order, text);
    var v := Rebuilt(t, text);
    RebuiltMembers(t, text);
    assert keys[..|keys|] == keys;
    assert Part(v.members, keys, |keys|) == v.members;
    FeedOne(Some(c.(vals := c.vals + [v])), EndMap);
    PopDelivers(c, v);
  }

  /** At any depth, the events of a tree put the tree where it belongs and leave both stacks as they were
      otherwise. */
  lemma {:induction false} FeedTree(t: Any, c: Context, order: set<string> -> seq<string>, text: seq<bv8> -> string)
    requires IsOrder(order) && Ready(c)
    ensures Feed(Some(c), Events(t, order, text)) == Delivered(c, Rebuilt(t, text))
    decreases t, 1, 0
  {
    hide Feed, Step;
    match t
    case Array(items) => FeedArray(t, c, order, text);
    case Object(members) => FeedObject(t, c, order, text);
    case _ => FeedScalar(t, c, order, text);
  }

  lemma FeedScalar(t: Any, c: Context, order: set<string> -> seq<string>, text: seq<bv8> -> string)
    requires !IsContainer(t)
    ensures Feed(Some(c), Events(t, order, text)) == Delivered(c, Rebuilt(t, text))
  {
    hide Feed, Added, Popped;
    FeedOne(Some(c), Events(t, order, text)[0]);
  }

  /** A tree comes back exactly when it has no blobs and is a container, or is the null that the reader
      starts with. */
  lemma InflateOfDeflate(t: Any, order: set<string> -> seq<string>, text: seq<bv8> -> string)
    requires IsOrder(order)
    ensures var r := Feed(Some(Context([], [], Null)), Events(t, order, text));
            && r.Some? && r.value.vals == [] && r.value.keys == []
            && (r.value.root == t <==> BlobFree(t) && (IsContainer(t) || t.Null?))
  {
    FeedTree(t, Context([], [], Null), order, text);
    RebuiltIsSame(t, text);
  }

  // ---------------------------------------------------------------- the parser's object

  class ParserContext {
    var keyStack: seq<string>
    var valStack: seq<Any>
    var root: Any

    ghost function State(): Context
      reads this
    {
      Context(valStack, keyStack, root)
    }

    constructor ()
      ensures State() == Context([], [], Null)
    {
      keyStack, valStack, root := [], [], Null;
    }

    /** `add` (lines 90 to 111). */
    method AddValue(v: Any)
      requires Added(State(), v).Some?
      modifies this
      ensures State() == Added(old(State()), v).value
    {
      if |valStack| > 0 {
        var top := valStack[|valStack| - 1];
        if top.Array? {
          valStack := valStack[..|valStack| - 1] + [Array(top.items + [v])];
        } else if top.Object? {
          var key := keyStack[|keyStack| - 1];
          if key !in top.members {
            valStack := valStack[..|valStack| - 1] + [Object(top.members[key := v])];
          } else {
            assert valStack == valStack[..|valStack| - 1] + [Object(top.members)];
          }
          keyStack := keyStack[..|keyStack| - 1];
        }
      }
    }

    /** `pop` (lines 113 to 137). */
    method PopValue()
      requires Popped(State()).Some?
      modifies this
      ensures State() == Popped(old(State())).value
    {
      if |valStack| > 1 {
        var v := valStack[|valStack| - 1];
        valStack := valStack[..|valStack| - 1];
        AddValue(v);
      } else {
        root := valStack[0];
        valStack := [];
      }
    }

    /** The callbacks (lines 139 to 245). */
    method On(e: Event)
      requires Step(State(), e).Some?
      modifies this
      ensures State() == Step(old(State()), e).value
    {
      match e
      case NullValue => AddValue(Null);
      case BoolValue(b) => AddValue(Boolean(b));
      case IntegerValue(i) => AddValue(Integer(i));
      case DoubleValue(f) => AddValue(Floating(f));
      case StringValue(s) => AddValue(String(s));
      case StartArray => valStack := valStack + [Array([])];
      case StartMap => valStack := valStack + [Object(map[])];
      case MapKey(k) => keyStack := keyStack + [k];
      case EndArray => PopValue();
      case EndMap => PopValue();
    }

    /** A sequence of callbacks none of which fails an assertion. */
    method OnAll(events: seq<Event>)
      requires Feed(Some(State()), events).Some?
      modifies this
      ensures State() == Feed(Some(old(State())), events).value
    {
      ghost var start := State();
      for n := 0 to |events|
        invariant Feed(Some(start), events[..n]) == Some(State())
      {
        FeedPrefix(start, events, n + 1);
        assert events[..n + 1][..n] == events[..n];
        On(events[n]);
      }
      assert events[..|events|] == events;
    }
  }

  lemma {:induction false} FeedPrefix(c: Context, events: seq<Event>, n: nat)
    requires n <= |events| && Feed(Some(c), events).Some?
    ensures Feed(Some(c), events[..n]).Some?
    decreases |events|
  {
    if n < |events| {
      assert events[..|events| - 1][..n] == events[..n];
      FeedPrefix(c, events[..|events| - 1], n);
    } else {
      assert events[..n] == events;
    }
  }

  /** Writing a container without blobs and reading the events back rebuilds it. */
  method RoundTrip(t: Any, order: set<string> -> seq<string>, text: seq<bv8> -> string) returns (r: Any)
    requires IsOrder(order)
    ensures r == t <==> BlobFree(t) && (IsContainer(t) || t.Null?)
  {
    InflateOfDeflate(t, order, text);
    var context := new ParserContext();
    context.OnAll(Events(t, order, text));
    r := context.root;
  }
}
