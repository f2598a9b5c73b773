/** The pointer operations as loops over the tokens that walk down a tree and change it in place. */
module PointerOperations {
  import opened Bytes
  import opened Values
  import opened PointerTrees
  import Equality

  /** A value the pointer operations work on; a pointer into the tree is the path to the node it points to. */
  class Tree {
    var root: Value

    constructor (root: Value)
      ensures this.root == root
    {
      this.root := root;
    }

    /** The place a pointer resolves to, and otherwise the token that does not resolve. */
    method Get(ts: seq<Token>) returns (place: Option<seq<nat>>, unresolved: nat)
      ensures place == PointerTrees.Get(root, ts)
      ensures place.None? ==> unresolved < |ts| && PointerTrees.Get(root, ts[..unresolved]).Some?
                              && PointerTrees.Get(root, ts[..unresolved + 1]).None?
    {
      var path := [];
      unresolved := 0;
      BelowRoot(PointerTrees.Get(root, ts));
      for i := 0 to |ts|
        invariant IsPath(root, path) && PointerTrees.Get(root, ts[..i]) == Some(path)
        invariant PointerTrees.Get(root, ts) == Below(path, PointerTrees.Get(NodeAt(root, path), ts[i..]))
      {
        var v := NodeAt(root, path);
        GetStep(root, path, ts, i);
        match Resolve(v, ts[i]) {
          case None =>
            return None, i;
          case Some(k) =>
            PathExtends(root, path, k);
            path := path + [k];
        }
      }
      assert ts[..|ts|] == ts;
      place := Some(path);
    }

    /**
      One token of `Create` on the node it meets: change its type where the token needs another one, fill an array up
      with nulls, or add a null member.
     */
    static method Grow(node: Value, t: Token) returns (v: Value, k: nat, exist: bool)
      ensures (v, k) == Grown(node, t) && exist == WasThere(node, t)
    {
      v, exist := node, true;
      if v.ArrayValue? && |t.name| == 1 && t.name[0] == MINUS {
        v := ArrayValue(v.elements + [NullValue]);
        return v, |v.elements| - 1, false;
      }
      if t.index == INVALID {
        if !v.ObjectValue? { v := ObjectValue([]); }
      } else if !v.ArrayValue? && !v.ObjectValue? {
        v := ArrayValue([]);
      }
      if v.ArrayValue? {
        ghost var es := v.elements;
        while t.index >= |v.elements|
          invariant v.ArrayValue? && |es| <= |v.elements| && (|v.elements| <= t.index + 1 || v.elements == es)
          invariant v.elements == es + Nulls(|v.elements| - |es|)
          invariant exist == (v.elements == es)
          decreases t.index + 1 - |v.elements|
        {
          v := ArrayValue(v.elements + [NullValue]);
          exist := false;
        }
        k := t.index;
      } else {
        k := Equality.FindMember(v.members, StringValue(t.name));
        if k == |v.members| {
          v := ObjectValue(v.members + [Member(StringValue(t.name), NullValue)]);
          exist := false;
        }
      }
    }

    /** Create the value a pointer names; the tree grows, and is retyped, on the way down. */
    method Create(ts: seq<Token>) returns (path: seq<nat>, exist: bool)
      modifies this
      ensures Created(root, path, exist) == PointerTrees.Create(old(root), ts)
    {
      ghost var whole := PointerTrees.Create(root, ts);
      path, exist := [], true;
      for i := 0 to |ts|
        invariant IsPath(root, path)
        invariant var rest := PointerTrees.Create(NodeAt(root, path), ts[i..]);
                  whole == Created(Replace(root, path, rest.root), path + rest.path, exist && rest.exist)
      {
        var w, k, there := Grow(NodeAt(root, path), ts[i]);
        exist := exist && there;
        CreateStep(root, path, ts[i..]);
        assert ts[i..][1..] == ts[i + 1..];
        root := Replace(root, path, w);
        path := path + [k];
      }
      ReplaceAt(root, path, root);
      assert path + [] == path;
    }

    method Erase(ts: seq<Token>) returns (ok: bool)
      modifies this
      ensures ok == PointerTrees.Erase(old(root), ts).Some?
      ensures root == if ok then PointerTrees.Erase(old(root), ts).value else old(root)
    {
      EraseIffResolved(root, ts);
      if ts == [] { return false; }
      var last := |ts| - 1;
      var path := [];
      ghost var whole := PointerTrees.Get(root, ts);
      BelowRoot(whole);
      for i := 0 to last
        invariant IsPath(root, path)
        invariant root == old(root) && whole == Below(path, PointerTrees.Get(NodeAt(root, path), ts[i..]))
      {
        GetStep(root, path, ts, i);
        match Resolve(NodeAt(root, path), ts[i]) {
          case None =>
            return false;
          case Some(k) =>
            PathExtends(root, path, k);
            path := path + [k];
        }
      }
      GetLast(NodeAt(root, path), ts[last..]);
      match Resolve(NodeAt(root, path), ts[last]) {
        case None =>
          ok := false;
        case Some(k) =>
          assert whole == Some(path + [k]);
          assert (path + [k])[..|path|] == path;
          root := Replace(root, path, WithoutChild(NodeAt(root, path), k));
          ok := true;
      }
    }
  }
}
