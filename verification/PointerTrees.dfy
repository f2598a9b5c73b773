/** JSON Pointers on trees: `Get`, `Create` and `Erase`, with places in a tree named by paths of positions. */
module PointerTrees {
  import opened Bytes
  import opened Events
  import opened Values
  import opened Equality

  const INVALID: uint32 := 0xFFFF_FFFF
  const DASH: Text := [0x2D]

  datatype Token = Token(name: Text, index: uint32)

  /** As `Parse` leaves tokens: "-" is not an index. */
  predicate Consistent(t: Token) {
    t.name == DASH ==> t.index == INVALID
  }

  predicate AllConsistent(ts: seq<Token>) {
    forall t | t in ts :: Consistent(t)
  }

  // ---------------------------------------------------------------- places

  predicate HasChild(v: Value, k: nat) {
    (v.ArrayValue? && k < |v.elements|) || (v.ObjectValue? && k < |v.members|)
  }

  function Child(v: Value, k: nat): Value
    requires HasChild(v, k)
  {
    if v.ArrayValue? then v.elements[k] else v.members[k].value
  }

  function WithChild(v: Value, k: nat, x: Value): Value
    requires HasChild(v, k)
  {
    if v.ArrayValue? then ArrayValue(v.elements[k := x])
    else ObjectValue(v.members[k := Member(v.members[k].name, x)])
  }

  predicate IsPath(v: Value, p: seq<nat>)
    decreases |p|
  {
    p == [] || (HasChild(v, p[0]) && IsPath(Child(v, p[0]), p[1..]))
  }

  function NodeAt(v: Value, p: seq<nat>): Value
    requires IsPath(v, p)
    decreases |p|
  {
    if p == [] then v else NodeAt(Child(v, p[0]), p[1..])
  }

  function Replace(v: Value, p: seq<nat>, x: Value): Value
    requires IsPath(v, p)
    decreases |p|
  {
    if p == [] then x else WithChild(v, p[0], Replace(Child(v, p[0]), p[1..], x))
  }

  // ---------------------------------------------------------------- Get

  /** The child a token names, if there is one. */
  function Resolve(v: Value, t: Token): Option<nat> {
    match v
    case ObjectValue(ms) =>
      var i := Equality.Find(ms, StringValue(t.name));
      if i == |ms| then None else Some(i)
    case ArrayValue(es) => if t.index == INVALID || t.index >= |es| then None else Some(t.index)
    case _ => None
  }

  function Get(v: Value, ts: seq<Token>): Option<seq<nat>>
    decreases |ts|
  {
    if ts == [] then Some([])
    else
      match Resolve(v, ts[0])
      case None => None
      case Some(k) =>
        Below([k], Get(Child(v, k), ts[1..]))
  }

  /** A path found below another one. */
  function Below(path: seq<nat>, found: Option<seq<nat>>): Option<seq<nat>> {
    match found case None => None case Some(p) => Some(path + p)
  }

  lemma {:induction false} GetIsPath(v: Value, ts: seq<Token>)
    requires Get(v, ts).Some?
    ensures IsPath(v, Get(v, ts).value) && |Get(v, ts).value| == |ts|
    decreases |ts|
  {
    if ts != [] {
      GetIsPath(Child(v, Resolve(v, ts[0]).value), ts[1..]);
    }
  }

  // ---------------------------------------------------------------- Create

  function Nulls(n: nat): seq<Value> {
    seq(n, i => NullValue)
  }

  /** A "-" token that stands at an array. */
  predicate AtDash(v: Value, t: Token) {
    v.ArrayValue? && t.name == DASH
  }

  /** The node after its type was changed where the token needs another one. */
  function Retyped(v: Value, t: Token): Value {
    if t.index == INVALID then if v.ObjectValue? then v else ObjectValue([])
    else if v.ArrayValue? || v.ObjectValue? then v else ArrayValue([])
  }

  /** One token of `Create`: the node with the child in it, and the child's position. */
  function Grown(v: Value, t: Token): (r: (Value, nat))
    ensures HasChild(r.0, r.1)
  {
    if AtDash(v, t) then (ArrayValue(v.elements + [NullValue]), |v.elements|)
    else
      match Retyped(v, t)
      case ArrayValue(es) =>
        (ArrayValue(if t.index >= |es| then es + Nulls(t.index + 1 - |es|) else es), t.index)
      case ObjectValue(ms) =>
        var i := Equality.Find(ms, StringValue(t.name));
        (ObjectValue(if i == |ms| then ms + [Member(StringValue(t.name), NullValue)] else ms), i)
  }

  /** The child was there already. */
  predicate WasThere(v: Value, t: Token)
  {
    !AtDash(v, t) && HasChild(Retyped(v, t), Grown(v, t).1)
  }

  datatype Created = Created(root: Value, path: seq<nat>, exist: bool)

  function Create(v: Value, ts: seq<Token>): Created
    decreases |ts|
  {
    if ts == [] then Created(v, [], true)
    else
      var (w, k) := Grown(v, ts[0]);
      var c := Create(Child(w, k), ts[1..]);
      Created(WithChild(w, k, c.root), [k] + c.path, WasThere(v, ts[0]) && c.exist)
  }

  lemma ResolvesWhatWasThere(v: Value, t: Token)
    requires Consistent(t)
    ensures WasThere(v, t) <==> Resolve(v, t).Some?
    ensures WasThere(v, t) ==> Grown(v, t) == (v, Resolve(v, t).value)
  {
  }

  lemma ChildPutBack(v: Value, k: nat)
    requires HasChild(v, k)
    ensures WithChild(v, k, Child(v, k)) == v
  {
    if v.ObjectValue? {
      assert Member(v.members[k].name, v.members[k].value) == v.members[k];
    }
  }

  /** `alreadyExist` is reported exactly when `Get` resolved before, and then nothing changes. */
  lemma {:induction false} ExistIffResolved(v: Value, ts: seq<Token>)
    requires AllConsistent(ts)
    ensures Create(v, ts).exist <==> Get(v, ts).Some?
    ensures Create(v, ts).exist ==> Create(v, ts).root == v && Get(v, ts) == Some(Create(v, ts).path)
    decreases |ts|
  {
    if ts != [] {
      ResolvesWhatWasThere(v, ts[0]);
      if WasThere(v, ts[0]) {
        var k := Resolve(v, ts[0]).value;
        ExistIffResolved(Child(v, k), ts[1..]);
        ChildPutBack(v, k);
      }
    }
  }

  /** Some "-" token meets an array while the pointer is created. */
  predicate MeetsDash(v: Value, ts: seq<Token>)
    decreases |ts|
  {
    ts != [] && (AtDash(v, ts[0]) || (var (w, k) := Grown(v, ts[0]); MeetsDash(Child(w, k), ts[1..])))
  }

  lemma FindAppended(ms: seq<Member>, name: Value, m: Member)
    ensures Equality.Find(ms, name) < |ms| ==> Equality.Find(ms + [m], name) == Equality.Find(ms, name)
    ensures Equality.Find(ms, name) == |ms| && m.name == name ==> Equality.Find(ms + [m], name) == |ms|
  {
    var i, j := Equality.Find(ms, name), Equality.Find(ms + [m], name);
    assert forall k | 0 <= k < |ms| :: (ms + [m])[k] == ms[k];
    assert (ms + [m])[|ms|] == m;
    if i < |ms| {
      assert (ms + [m])[i].name == name;
    }
  }

  lemma {:induction false} FindByNames(ms: seq<Member>, ns: seq<Member>, name: Value, k: nat)
    requires |ms| == |ns| && k <= |ms| && forall i | 0 <= i < |ms| :: ms[i].name == ns[i].name
    ensures FindFrom(ms, name, k) == FindFrom(ns, name, k)
    decreases |ms| - k
  {
    if k < |ms| && ms[k].name != name {
      FindByNames(ms, ns, name, k + 1);
    }
  }

  /** The token resolves to the grown child, whatever is put there: unless it was a "-" at an array. */
  lemma GrownResolves(v: Value, t: Token, x: Value)
    requires Consistent(t)
    ensures var (w, k) := Grown(v, t); Resolve(WithChild(w, k, x), t) == if AtDash(v, t) then None else Some(k)
  {
    var (w, k) := Grown(v, t);
    if w.ObjectValue? {
      var ms := Retyped(v, t).members;
      FindAppended(ms, StringValue(t.name), Member(StringValue(t.name), NullValue));
      FindByNames(w.members, WithChild(w, k, x).members, StringValue(t.name), 0);
    }
  }

  /** After `Create` the pointer resolves to the created value if and only if no "-" met an array. */
  lemma {:induction false} CreatedResolves(v: Value, ts: seq<Token>)
    requires AllConsistent(ts)
    ensures var c := Create(v, ts);
            && IsPath(c.root, c.path)
            && Get(c.root, ts) == if MeetsDash(v, ts) then None else Some(c.path)
    decreases |ts|
  {
    if ts != [] {
      var (w, k) := Grown(v, ts[0]);
      var c := Create(Child(w, k), ts[1..]);
      CreatedResolves(Child(w, k), ts[1..]);
      GrownResolves(v, ts[0], c.root);
      ChildOfWith(w, k, c.root);
    }
  }

  lemma ChildOfWith(v: Value, k: nat, x: Value)
    requires HasChild(v, k)
    ensures HasChild(WithChild(v, k, x), k) && Child(WithChild(v, k, x), k) == x
    ensures forall j: nat | HasChild(v, j) && j != k ::
              HasChild(WithChild(v, k, x), j) && Child(WithChild(v, k, x), j) == Child(v, j)
  {
  }

  /** A child that was not there is null. */
  lemma GrownIsNull(v: Value, t: Token)
    ensures !WasThere(v, t) ==> Child(Grown(v, t).0, Grown(v, t).1) == NullValue
    ensures v.NullValue? ==> !WasThere(v, t)
  {
  }

  /** A value that `Create` did not find is null. */
  lemma {:induction false} CreatedIsNull(v: Value, ts: seq<Token>)
    ensures var c := Create(v, ts);
            IsPath(c.root, c.path) && (!c.exist ==> NodeAt(c.root, c.path) == NullValue)
    ensures v.NullValue? && ts != [] ==> !Create(v, ts).exist
    decreases |ts|
  {
    if ts != [] {
      var (w, k) := Grown(v, ts[0]);
      GrownIsNull(v, ts[0]);
      CreatedIsNull(Child(w, k), ts[1..]);
      ChildOfWith(w, k, Create(Child(w, k), ts[1..]).root);
    }
  }

  /** A growing array ends at the position asked for, with nulls in between; an object gains the one name. */
  lemma GrownFillsWithNulls(v: Value, t: Token)
    requires !AtDash(v, t) && !WasThere(v, t)
    ensures var w, node := Grown(v, t).0, Retyped(v, t);
            if node.ObjectValue? then w == ObjectValue(node.members + [Member(StringValue(t.name), NullValue)])
            else
              && node.ArrayValue? && w.ArrayValue? && |w.elements| == t.index + 1 && node.elements <= w.elements
              && forall j | |node.elements| <= j <= t.index :: w.elements[j] == NullValue
  {
  }

  /** The members with one of that name among them: a new null member behind the others if there was none. */
  predicate Holding(ms: seq<Member>, name: Value, ns: seq<Member>, k: nat) {
    && k < |ns| && ns[k].name == name && (forall j | 0 <= j < k :: ns[j].name != name)
    && (if exists j | 0 <= j < |ms| :: ms[j].name == name then ns == ms
        else |ns| == |ms| + 1 && ns[..|ms|] == ms && ns[|ms|] == Member(name, NullValue))
  }

  /** The elements with as many nulls behind them as the position needs. */
  predicate Reaching(es: seq<Value>, k: nat, fs: seq<Value>) {
    && |fs| == (if k < |es| then |es| else k + 1) && fs[..|es|] == es
    && forall j | |es| <= j < |fs| :: fs[j] == NullValue
  }

  /**
    One token of `Create`, case by case: a "-" appends to an array; a name that is no index makes anything but an
    object an empty object; an index makes anything but an array or object an empty array; then the child is there.
   */
  lemma GrownAsDocumented(v: Value, t: Token)
    requires Consistent(t)
    ensures var (w, k) := Grown(v, t); var name := StringValue(t.name);
            if v.ArrayValue? && t.name == DASH then w == ArrayValue(v.elements + [NullValue]) && k == |v.elements|
            else if v.ObjectValue? then w.ObjectValue? && Holding(v.members, name, w.members, k)
            else if t.index == INVALID then w.ObjectValue? && Holding([], name, w.members, k)
            else if v.ArrayValue? then w.ArrayValue? && k == t.index && Reaching(v.elements, k, w.elements)
            else w.ArrayValue? && k == t.index && Reaching([], k, w.elements)
  {
    var (w, k) := Grown(v, t);
    if w.ObjectValue? {
      var ms := if v.ObjectValue? then v.members else [];
      FindNamed(ms, StringValue(t.name));
    }
  }

  /** The node at the i-th token when its turn comes. */
  function Reached(v: Value, ts: seq<Token>, i: nat): Value
    requires i <= |ts|
    decreases i
  {
    if i == 0 then v
    else
      var (w, k) := Grown(v, ts[0]);
      Reached(Child(w, k), ts[1..], i - 1)
  }

  /** Every node on the way is the node reached, grown by its token, with the next node on the way as that child. */
  lemma {:induction false} CreatedOnTheWay(v: Value, ts: seq<Token>, i: nat)
    requires i < |ts|
    ensures var c := Create(v, ts); var (w, k) := Grown(Reached(v, ts, i), ts[i]);
            && |c.path| == |ts| && c.path[i] == k
            && IsPath(c.root, c.path[..i]) && IsPath(c.root, c.path[..i + 1])
            && NodeAt(c.root, c.path[..i]) == WithChild(w, k, NodeAt(c.root, c.path[..i + 1]))
    decreases i
  {
    hide *;
    var (w, k) := Grown(v, ts[0]);
    var c, inner := Create(v, ts), Create(Child(w, k), ts[1..]);
    CreateUnfolds(v, ts);
    CreatedLength(Child(w, k), ts[1..]);
    ReachedStep(v, ts, i);
    TakeOne(k, inner.path, i);
    UnderChild(w, k, inner.root, inner.path[..i]);
    UnderChild(w, k, inner.root, []);
    RootIsPath(c.root);
    if i > 0 {
      CreatedOnTheWay(Child(w, k), ts[1..], i - 1);
      TakeOne(k, inner.path, i - 1);
      UnderChild(w, k, inner.root, inner.path[..i - 1]);
    } else {
      RootIsPath(inner.root);
      assert inner.path[..0] == [] && c.path[..0] == [] && [k] + [] == [k];
    }
  }

  lemma ReachedStep(v: Value, ts: seq<Token>, i: nat)
    requires i < |ts|
    ensures var (w, k) := Grown(v, ts[0]);
            Reached(v, ts, i) == (if i == 0 then v else Reached(Child(w, k), ts[1..], i - 1)) && (i > 0 ==> ts[1..][i - 1] == ts[i])
  {
    hide Grown;
  }

  lemma TakeOne<T>(x: T, s: seq<T>, i: nat)
    requires i <= |s|
    ensures ([x] + s)[..i + 1] == [x] + s[..i] && (i < |s| ==> ([x] + s)[i + 1] == s[i])
  {
  }

  lemma RootIsPath(v: Value)
    ensures IsPath(v, []) && NodeAt(v, []) == v
  {
  }

  /** A place below a child that was put in. */
  lemma UnderChild(w: Value, k: nat, x: Value, q: seq<nat>)
    requires HasChild(w, k)
    ensures IsPath(WithChild(w, k, x), [k] + q) <==> IsPath(x, q)
    ensures IsPath(x, q) ==> NodeAt(WithChild(w, k, x), [k] + q) == NodeAt(x, q)
  {
    hide WithChild;
    ChildOfWith(w, k, x);
    assert ([k] + q)[0] == k && ([k] + q)[1..] == q;
  }

  lemma {:induction false} CreatedLength(v: Value, ts: seq<Token>)
    ensures |Create(v, ts).path| == |ts|
    decreases |ts|
  {
    if ts != [] {
      var (w, k) := Grown(v, ts[0]);
      CreatedLength(Child(w, k), ts[1..]);
    }
  }

  // ---------------------------------------------------------------- what survives

  /** The type of some node on the way to path q was replaced, and q lies below it. */
  predicate Lost(v: Value, ts: seq<Token>, q: seq<nat>)
    decreases |ts|
  {
    && ts != [] && q != []
    && ((!AtDash(v, ts[0]) && Retyped(v, ts[0]) != v)
        || (var (w, k) := Grown(v, ts[0]); q[0] == k && HasChild(v, k) && Lost(Child(w, k), ts[1..], q[1..])))
  }

  /** A node that is not replaced keeps its children and the tokens that name them. */
  lemma GrownKeeps(v: Value, t: Token, u: Token, x: Value)
    requires Consistent(t) && (AtDash(v, t) || Retyped(v, t) == v) && Resolve(v, u).Some?
    ensures var (w, k) := Grown(v, t); var j := Resolve(v, u).value;
            && Resolve(WithChild(w, k, x), u) == Some(j) && HasChild(v, j)
            && Child(WithChild(w, k, x), j) == (if j == k then x else Child(v, j))
            && (j == k ==> Child(w, k) == Child(v, k))
  {
    var (w, k) := Grown(v, t);
    var j := Resolve(v, u).value;
    if v.ObjectValue? {
      FindAppended(v.members, StringValue(u.name), Member(StringValue(t.name), NullValue));
      FindByNames(w.members, WithChild(w, k, x).members, StringValue(u.name), 0);
    }
  }

  /**
    Every value that resolved before, and does not lie below a replaced node, resolves after `Create` at the same
    place; it is unchanged unless the new value was put at or below it.
   */
  lemma {:induction false} CreateKeeps(v: Value, ts: seq<Token>, us: seq<Token>)
    requires AllConsistent(ts) && Get(v, us).Some? && !Lost(v, ts, Get(v, us).value)
    ensures var c, q := Create(v, ts), Get(v, us).value;
            && Get(c.root, us) == Some(q) && IsPath(v, q) && IsPath(c.root, q)
            && (!(q <= c.path) ==> NodeAt(c.root, q) == NodeAt(v, q))
    decreases |us|
  {
    var c, q := Create(v, ts), Get(v, us).value;
    GetIsPath(v, us);
    if us == [] {
      assert q <= c.path;
    } else if ts != [] {
      var (w, k) := Grown(v, ts[0]);
      var inner := Create(Child(w, k), ts[1..]);
      var j := Resolve(v, us[0]).value;
      GrownKeeps(v, ts[0], us[0], inner.root);
      if j == k {
        CreateKeeps(Child(v, k), ts[1..], us[1..]);
        assert c.path == [k] + inner.path && q == [k] + q[1..];
        assert q[1..] <= inner.path ==> q <= c.path;
      }
    }
  }

  // ---------------------------------------------------------------- Erase

  /** The container without its k-th child; the children behind move up. */
  function WithoutChild(v: Value, k: nat): Value
    requires HasChild(v, k)
  {
    if v.ArrayValue? then ArrayValue(Without(v.elements, k)) else ObjectValue(Without(v.members, k))
  }

  /** The tree after `Erase`; None when it fails. */
  function Erase(v: Value, ts: seq<Token>): Option<Value>
    decreases |ts|
  {
    if ts == [] then None
    else
      match Resolve(v, ts[0])
      case None => None
      case Some(k) =>
        if |ts| == 1 then Some(WithoutChild(v, k))
        else
          match Erase(Child(v, k), ts[1..])
          case None => None
          case Some(x) => Some(WithChild(v, k, x))
  }

  /** `Erase` succeeds exactly on a non-empty pointer that resolves, and removes that child from its parent only. */
  lemma {:induction false} EraseIffResolved(v: Value, ts: seq<Token>)
    ensures Erase(v, ts).Some? <==> ts != [] && Get(v, ts).Some?
    ensures Erase(v, ts).Some? ==>
              var p := Get(v, ts).value; var n := |p| - 1;
              && IsPath(v, p) && n >= 0 && IsPath(v, p[..n]) && HasChild(NodeAt(v, p[..n]), p[n])
              && Erase(v, ts) == Some(Replace(v, p[..n], WithoutChild(NodeAt(v, p[..n]), p[n])))
    decreases |ts|
  {
    if ts != [] && Resolve(v, ts[0]).Some? {
      var k := Resolve(v, ts[0]).value;
      EraseIffResolved(Child(v, k), ts[1..]);
      if |ts| == 1 {
        assert Get(Child(v, k), ts[1..]) == Some([]);
      } else if Erase(v, ts).Some? {
        var q := Get(Child(v, k), ts[1..]).value;
        var p := Get(v, ts).value;
        assert p == [k] + q && p[1..] == q;
        assert p[..|p| - 1][1..] == q[..|q| - 1] && p[..|p| - 1][0] == k;
      }
    }
  }

  /** The children of w are those of v but for the k-th; the ones behind it move up, in objects with their names. */
  predicate LosesChild(v: Value, k: nat, w: Value) {
    match v
    case ArrayValue(es) =>
      && w.ArrayValue? && k < |es| && |w.elements| == |es| - 1
      && forall j | 0 <= j < |w.elements| :: w.elements[j] == es[if j < k then j else j + 1]
    case ObjectValue(ms) =>
      && w.ObjectValue? && k < |ms| && |w.members| == |ms| - 1
      && forall j | 0 <= j < |w.members| :: w.members[j] == ms[if j < k then j else j + 1]
    case _ => false
  }

  /** Neither path leads through the other place. */
  predicate Apart(p: seq<nat>, q: seq<nat>) {
    !(p <= q) && !(q <= p)
  }

  /** One kind, one number of children, and in objects the same names. */
  predicate SameShape(v: Value, w: Value) {
    match v
    case ArrayValue(es) => w.ArrayValue? && |w.elements| == |es|
    case ObjectValue(ms) =>
      w.ObjectValue? && |w.members| == |ms| && forall j | 0 <= j < |ms| :: w.members[j].name == ms[j].name
    case _ => w == v
  }

  /** Putting a value at p changes nothing at any place apart from p, and only values below the places above it. */
  lemma {:induction false} ReplaceFrame(v: Value, p: seq<nat>, x: Value, q: seq<nat>)
    requires IsPath(v, p)
    ensures Apart(p, q) ==>
              && (IsPath(Replace(v, p, x), q) <==> IsPath(v, q))
              && (IsPath(v, q) ==> NodeAt(Replace(v, p, x), q) == NodeAt(v, q))
    ensures q < p ==>
              && IsPath(v, q) && IsPath(Replace(v, p, x), q)
              && SameShape(NodeAt(v, q), NodeAt(Replace(v, p, x), q))
    decreases |p|
  {
    if p != [] {
      var y := Replace(Child(v, p[0]), p[1..], x);
      ChildOfWith(v, p[0], y);
      ShapeOfWith(v, p[0], y);
      if q != [] && q[0] == p[0] {
        ReplaceFrame(Child(v, p[0]), p[1..], x, q[1..]);
        assert p == [p[0]] + p[1..] && q == [q[0]] + q[1..];
        assert p[1..] <= q[1..] ==> p <= q;
        assert q[1..] <= p[1..] ==> q <= p;
      } else if q != [] {
        assert !(p <= q) && !(q <= p);
      }
    }
  }

  lemma ShapeOfWith(v: Value, k: nat, x: Value)
    requires HasChild(v, k)
    ensures SameShape(v, WithChild(v, k, x))
    ensures forall j: nat :: HasChild(WithChild(v, k, x), j) <==> HasChild(v, j)
  {
  }

  lemma LosesIt(v: Value, k: nat)
    requires HasChild(v, k)
    ensures LosesChild(v, k, WithoutChild(v, k))
  {
  }

  /**
    Where the pointer resolved to the k-th child of some parent, the parent has lost that child and nothing else, every
    place apart from the parent is as it was, and the places above it keep their kind, size and names.
   */
  lemma ErasedInParent(v: Value, ts: seq<Token>, q: seq<nat>)
    requires Erase(v, ts).Some?
    ensures Get(v, ts).Some?
    ensures var w, p := Erase(v, ts).value, Get(v, ts).value; var n := |p| - 1; var parent := p[..n];
            && n >= 0 && IsPath(v, parent) && IsPath(w, parent)
            && LosesChild(NodeAt(v, parent), p[n], NodeAt(w, parent))
            && (Apart(parent, q) ==>
                  (IsPath(w, q) <==> IsPath(v, q)) && (IsPath(v, q) ==> NodeAt(w, q) == NodeAt(v, q)))
            && (q < parent ==> IsPath(v, q) && IsPath(w, q) && SameShape(NodeAt(v, q), NodeAt(w, q)))
  {
    hide *;
    EraseIffResolved(v, ts);
    var p := Get(v, ts).value;
    var n := |p| - 1;
    var x := WithoutChild(NodeAt(v, p[..n]), p[n]);
    LosesIt(NodeAt(v, p[..n]), p[n]);
    ReplaceAt(v, p[..n], x);
    ReplaceFrame(v, p[..n], x, q);
  }

  /** In an object with unique names an erased member no longer resolves. */
  lemma ErasedIsGone(v: Value, t: Token)
    requires v.ObjectValue? && DistinctNames(v.members) && Resolve(v, t).Some?
    ensures Resolve(WithoutChild(v, Resolve(v, t).value), t).None?
  {
    var k := Resolve(v, t).value;
    var ms, ns := v.members, Without(v.members, k);
    forall i | 0 <= i < |ns| ensures ns[i].name != StringValue(t.name) {
      assert ns[i] == ms[if i < k then i else i + 1];
    }
  }

  // ---------------------------------------------------------------- the operations on a tree in place

  lemma {:induction false} PathExtends(v: Value, p: seq<nat>, k: nat)
    requires IsPath(v, p)
    ensures IsPath(v, p + [k]) <==> HasChild(NodeAt(v, p), k)
    ensures HasChild(NodeAt(v, p), k) ==> NodeAt(v, p + [k]) == Child(NodeAt(v, p), k)
    decreases |p|
  {
    if p == [] {
      assert [] + [k] == [k];
    } else {
      assert (p + [k])[1..] == p[1..] + [k];
      PathExtends(Child(v, p[0]), p[1..], k);
    }
  }

  lemma {:induction false} ReplaceAt(v: Value, p: seq<nat>, x: Value)
    requires IsPath(v, p)
    ensures IsPath(Replace(v, p, x), p) && NodeAt(Replace(v, p, x), p) == x
    ensures forall y :: Replace(Replace(v, p, x), p, y) == Replace(v, p, y)
    ensures Replace(v, p, NodeAt(v, p)) == v
    decreases |p|
  {
    if p != [] {
      ReplaceAt(Child(v, p[0]), p[1..], x);
      ChildPutBack(v, p[0]);
      forall y ensures Replace(Replace(v, p, x), p, y) == Replace(v, p, y) {
        WithTwice(v, p[0], Replace(Child(v, p[0]), p[1..], x), Replace(Child(v, p[0]), p[1..], y));
      }
    }
  }

  lemma WithTwice(v: Value, k: nat, x: Value, y: Value)
    requires HasChild(v, k)
    ensures HasChild(WithChild(v, k, x), k) && WithChild(WithChild(v, k, x), k, y) == WithChild(v, k, y)
  {
  }

  lemma {:induction false} ReplaceBelow(v: Value, p: seq<nat>, k: nat, x: Value)
    requires IsPath(v, p) && HasChild(NodeAt(v, p), k)
    ensures IsPath(v, p + [k]) && Replace(v, p + [k], x) == Replace(v, p, WithChild(NodeAt(v, p), k, x))
    decreases |p|
  {
    if p == [] {
      assert [] + [k] == [k];
      assert [k][1..] == [];
      assert Replace(Child(v, k), [], x) == x;
    } else {
      assert (p + [k])[1..] == p[1..] + [k];
      ReplaceBelow(Child(v, p[0]), p[1..], k, x);
    }
  }

  lemma BelowBelow(p: seq<nat>, q: seq<nat>, found: Option<seq<nat>>)
    ensures Below(p, Below(q, found)) == Below(p + q, found)
  {
    if found.Some? {
      assert p + (q + found.value) == p + q + found.value;
    }
  }

  lemma GetStep(v: Value, path: seq<nat>, ts: seq<Token>, i: nat)
    requires IsPath(v, path) && i < |ts|
    ensures match Resolve(NodeAt(v, path), ts[i])
            case None => Get(NodeAt(v, path), ts[i..]).None?
            case Some(k) =>
              && IsPath(v, path + [k])
              && Below(path, Get(NodeAt(v, path), ts[i..])) == Below(path + [k], Get(NodeAt(v, path + [k]), ts[i + 1..]))
    ensures Get(v, ts[..i]) == Some(path) ==>
              Get(v, ts[..i + 1]) ==
              match Resolve(NodeAt(v, path), ts[i]) case None => None case Some(k) => Some(path + [k])
  {
    assert ts[i..][1..] == ts[i + 1..];
    if Resolve(NodeAt(v, path), ts[i]).Some? {
      var k := Resolve(NodeAt(v, path), ts[i]).value;
      PathExtends(v, path, k);
      BelowBelow(path, [k], Get(NodeAt(v, path + [k]), ts[i + 1..]));
    }
    if Get(v, ts[..i]) == Some(path) {
      assert ts[..i + 1] == ts[..i] + [ts[i]];
      GetAppend(v, ts[..i], ts[i]);
      GetLast(NodeAt(v, path), [ts[i]]);
    }
  }

  lemma {:induction false} GetAppend(v: Value, ts: seq<Token>, t: Token)
    requires Get(v, ts).Some?
    ensures IsPath(v, Get(v, ts).value)
    ensures Get(v, ts + [t]) == Below(Get(v, ts).value, Get(NodeAt(v, Get(v, ts).value), [t]))
    decreases |ts|
  {
    GetIsPath(v, ts);
    if ts == [] {
      assert [] + [t] == [t];
      BelowRoot(Get(v, [t]));
    } else {
      var k := Resolve(v, ts[0]).value;
      var p := Get(Child(v, k), ts[1..]).value;
      GetAppend(Child(v, k), ts[1..], t);
      assert (ts + [t])[1..] == ts[1..] + [t];
      assert ([k] + p)[0] == k && ([k] + p)[1..] == p;
      BelowBelow([k], p, Get(NodeAt(Child(v, k), p), [t]));
    }
  }

  lemma BelowRoot(found: Option<seq<nat>>)
    ensures Below([], found) == found
  {
    if found.Some? {
      assert [] + found.value == found.value;
    }
  }

  lemma GetLast(v: Value, ts: seq<Token>)
    requires |ts| == 1
    ensures Get(v, ts) == match Resolve(v, ts[0]) case None => None case Some(k) => Some([k])
  {
    assert ts[1..] == [];
    if Resolve(v, ts[0]).Some? {
      var k := Resolve(v, ts[0]).value;
      assert Get(Child(v, k), ts[1..]) == Some([]);
      assert [k] + [] == [k];
    }
  }

  /** One token of `Create`, at a place inside the tree. */
  lemma CreateStep(v: Value, path: seq<nat>, ts: seq<Token>)
    requires IsPath(v, path) && ts != []
    ensures var (w, k) := Grown(NodeAt(v, path), ts[0]);
            var v' := Replace(v, path, w);
            && IsPath(v', path + [k])
            && var rest, inner := Create(NodeAt(v, path), ts), Create(NodeAt(v', path + [k]), ts[1..]);
               && Replace(v, path, rest.root) == Replace(v', path + [k], inner.root)
               && path + rest.path == path + [k] + inner.path
               && rest.exist == (WasThere(NodeAt(v, path), ts[0]) && inner.exist)
  {
    hide *;
    var (w, k) := Grown(NodeAt(v, path), ts[0]);
    var inner := Create(Child(w, k), ts[1..]);
    CreateUnfolds(NodeAt(v, path), ts);
    GrownInPlace(v, path, w, k, inner.root);
    assert path + ([k] + inner.path) == path + [k] + inner.path;
  }

  lemma CreateUnfolds(v: Value, ts: seq<Token>)
    requires ts != []
    ensures var (w, k) := Grown(v, ts[0]); var c := Create(Child(w, k), ts[1..]);
            Create(v, ts) == Created(WithChild(w, k, c.root), [k] + c.path, WasThere(v, ts[0]) && c.exist)
  {
  }

  lemma GrownInPlace(v: Value, path: seq<nat>, w: Value, k: nat, x: Value)
    requires IsPath(v, path) && HasChild(w, k)
    ensures var v' := Replace(v, path, w);
            && IsPath(v', path + [k]) && NodeAt(v', path + [k]) == Child(w, k)
            && Replace(v', path + [k], x) == Replace(v, path, WithChild(w, k, x))
  {
    hide *;
    var v' := Replace(v, path, w);
    ReplaceAt(v, path, w);
    PathExtends(v', path, k);
    ReplaceBelow(v', path, k, x);
  }
}
