/** The patcher of `src/any.cpp` as it works on a document in place. */
module JsonDocument {
  import opened JsonPointer
  import opened JsonPatch
  import Places = JsonPlaces

  /** What `find` reports: where the walk ended (the tokens that lead to `parent`), what the next
      token selects there, how many tokens it went through, and whether the pointer is good. */
  datatype Found = Found(tokens: seq<string>, index: nat, hasParent: bool, parent: seq<string>, child: Selected, valid: bool)

  datatype Status = Ok | InvalidArgument | Exception | UndefinedBehaviour

  function StatusOf(r: Outcome): Status {
    match r
    case Done(_) => Ok
    case Refused => InvalidArgument
    case Threw => Exception
    case Undefined => UndefinedBehaviour
  }

  /** `f` describes the longest walk along the pointer: it stops in front of the last token, or at the
      first token that selects no child. */
  ghost predicate IsFound(root: Any, pointer: string, f: Found) {
    && f.tokens == Tokens(pointer)
    && (pointer == "" ==> f.tokens == [] && !f.hasParent && f.valid)
    && (pointer != "" ==>
          && f.hasParent
          && |f.parent| < |f.tokens| && f.parent == f.tokens[..|f.parent|]
          && Get(root, f.parent).Some?
          && f.child == Select(Get(root, f.parent).value, f.tokens[|f.parent|])
          && f.valid == !f.child.Missing?
          && (if f.child.Item? || f.child.Member?
              then |f.parent| == |f.tokens| - 1 && f.index == |f.tokens|
              else f.index == |f.parent|))
  }

  class Document {
    var root: Any

    constructor (root: Any)
      ensures this.root == root
    {
      this.root := root;
    }

    method Find(pointer: string) returns (f: Found)
      ensures IsFound(root, pointer, f)
    {
      hide Get, Tokens, Select;
      f := Found([], 0, false, [], Missing, true);
      Places.GetNothing(root);
      NoTokens();
      if |pointer| > 0 {
        var tokens := Tokens(pointer);
        TokensNotEmpty(pointer);
        var index, node, hasParent, parent, child := 0, root, false, [], Missing;
        while index < |tokens|
          invariant index <= |tokens| && hasParent == (index > 0)
          invariant |parent| == (if index == 0 then 0 else index - 1) && parent == tokens[..|parent|]
          invariant Get(root, parent) == Some(node)
          invariant hasParent ==> child == Select(node, tokens[index - 1]) && (child.Item? || child.Member?)
        {
          if hasParent {
            Places.GetChild(root, parent, tokens[index - 1]);
            node := Child(node, child);
            parent := parent + [tokens[index - 1]];
          } else {
            hasParent := true;
          }
          child := Select(node, tokens[index]);
          if child.Missing? || child.End? {
            break;
          }
          index := index + 1;
        }
        f := Found(tokens, index, hasParent, parent, child, !child.Missing?);
      }
    }

    /** `apply`: changes the document as the specification says, or leaves it and says why. */
    method Apply(addKey: AddKey, patch: Patch) returns (status: Status)
      modifies this
      ensures var r := JsonPatch.Apply(addKey, old(root), patch);
              status == StatusOf(r) && root == if r.Done? then r.doc else old(root)
    {
      hide JsonPatch.Apply, Get, Put, Select, Tokens, StoI;
      var value := patch.value;
      if |patch.path| == 0 {
        RootApplied(addKey, root, patch);
        if patch.op == Remove {
          root := Null;
        } else if value.Null? {
          return InvalidArgument;
        } else {
          root := value;
        }
        return Ok;
      }
      TokensNotEmpty(patch.path);
      var found := Find(patch.path);
      var at, tokens, child := found.parent, found.tokens, found.child;
      var last, node := tokens[|tokens| - 1], Get(root, at).value;
      WalkEnds(addKey, root, patch, at);
      Places.PutSame(root, at);
      match patch.op {
        case Remove =>
          if !found.valid { return InvalidArgument; }
          match child {
            case Item(i) => root := Put(root, at, Array(node.items[..i] + node.items[i + 1..]));
            case Member(k) => root := Put(root, at, Object(node.members - {k}));
            case End => return UndefinedBehaviour;
          }
        case Replace =>
          if !found.valid || value.Null? { return InvalidArgument; }
          match child {
            case Item(i) => root := Put(root, at, Array(node.items[i := value]));
            case Member(k) => root := Put(root, at, Object(node.members[k := value]));
            case End => return UndefinedBehaviour;
          }
        case Add =>
          if !(found.valid || |tokens| - found.index == 1) || value.Null? { return InvalidArgument; }
          if node.Array? {
            if last == "-" {
              root := Put(root, at, Array(node.items + [value]));
            } else {
              match StoI(last) {
                case None => return Exception;
                case Some(i) =>
                  if !(0 <= i <= |node.items|) { return UndefinedBehaviour; }
                  root := Put(root, at, Array(node.items[..i] + [value] + node.items[i..]));
              }
            }
          } else if node.Object? {
            if found.valid {
              root := Put(root, at, Object(node.members[child.key := value]));
            } else {
              var key := KeyOf(addKey, tokens);
              if key !in node.members {
                root := Put(root, at, Object(node.members[key := value]));
              }
            }
          }
      }
      return Ok;
    }

    /** `patch`: applies the entries in order until one of them fails. */
    method PatchAll(addKey: AddKey, list: PatchList) returns (ok: bool)
      modifies this
      ensures Patched(root, ok) == PatchWith(addKey, old(root), list)
    {
      hide JsonPatch.Apply, Replay;
      if list.NoList? {
        return false;
      }
      var patches := list.patches;
      var i := 0;
      assert patches[0..] == patches;
      while i < |patches|
        invariant i <= |patches|
        invariant Replay(addKey, old(root), patches) == Replay(addKey, root, patches[i..])
      {
        assert patches[i..] == [patches[i]] + patches[i + 1..];
        Places.ReplayCons(addKey, root, patches[i], patches[i + 1..]);
        var status := Apply(addKey, patches[i]);
        if status != Ok {
          return false;
        }
        i := i + 1;
      }
      assert patches[i..] == [];
      Places.ReplayNothing(addKey, root);
      return true;
    }
  }

  lemma NoTokens()
    ensures Tokens("") == []
  {
  }

  lemma RootApplied(addKey: AddKey, root: Any, patch: Patch)
    requires patch.path == ""
    ensures JsonPatch.Apply(addKey, root, patch) == ApplyToRoot(root, patch.op, patch.value)
  {
  }

  /** Where the walk ends, the patch has its effect. */
  lemma WalkEnds(addKey: AddKey, root: Any, patch: Patch, at: seq<string>)
    requires var tokens := Tokens(patch.path);
             && |at| < |tokens| && at == tokens[..|at|] && Get(root, at).Some?
             && !WalksOn(Get(root, at).value, tokens[|at|..])
    ensures var tokens := Tokens(patch.path);
            var node := Get(root, at).value;
            JsonPatch.Apply(addKey, root, patch)
              == Places.Lift(root, at, ApplyHere(node, tokens[|at|..], patch.op, KeyOf(addKey, tokens), tokens[|tokens| - 1], patch.value))
  {
    var tokens := Tokens(patch.path);
    assert at + tokens[|at|..] == tokens;
    Places.ApplyIsLocal(root, at, tokens[|at|..], patch.op, KeyOf(addKey, tokens), tokens[|tokens| - 1], patch.value);
  }
}
