/**
  Equality of objects that repeat names at any depth: when what holds one way holds the other way too, and when a
  value, or several values together, equal anything at all.
 */
module RepeatedNames {
  import opened Bytes
  import opened Events
  import opened Values
  import opened Equality

  // ---------------------------------------------------------------- symmetry

  /** Each name of the left value is found in the right one, and so on in what is found there. */
  predicate NamesFound(b: Value, a: Value) {
    match b
    case ArrayValue(fs) =>
      a.ArrayValue? && |fs| == |a.elements| && forall i | 0 <= i < |fs| :: NamesFound(fs[i], a.elements[i])
    case ObjectValue(ns) =>
      a.ObjectValue? &&
      forall j | 0 <= j < |ns| ::
        && Find(a.members, ns[j].name) < |a.members|
        && NamesFound(ns[j].value, a.members[Find(a.members, ns[j].name)].value)
    case _ => true
  }

  /** What holds one way holds both ways if and only if the right value equals itself and has no other names. */
  lemma {:induction false} SymmetricIffNamesFound(a: Value, b: Value)
    requires DoubleFree(a) && DoubleFree(b) && Same(a, b)
    ensures Same(b, a) <==> Same(b, b) && NamesFound(b, a)
  {
    if Same(b, a) {
      SameIsTransitive(b, a, b);
      SameFindsNames(b, a);
    }
    if Same(b, b) && NamesFound(b, a) {
      TurnedAround(a, b);
    }
  }

  lemma {:induction false} SameFindsNames(b: Value, a: Value)
    requires DoubleFree(a) && DoubleFree(b) && Same(b, a)
    ensures NamesFound(b, a)
    decreases b
  {
    if b.ArrayValue? {
      forall i | 0 <= i < |b.elements| ensures NamesFound(b.elements[i], a.elements[i]) {
        SameFindsNames(b.elements[i], a.elements[i]);
      }
    } else if b.ObjectValue? {
      forall j | 0 <= j < |b.members|
        ensures NamesFound(b.members[j].value, a.members[Find(a.members, b.members[j].name)].value)
      {
        MemberFindsNames(b.members[j], a.members[Find(a.members, b.members[j].name)]);
      }
    }
  }

  lemma {:induction false} MemberFindsNames(n: Member, m: Member)
    requires DoubleFree(m.value) && DoubleFree(n.value) && Same(n.value, m.value)
    ensures NamesFound(n.value, m.value)
    decreases n
  {
    SameFindsNames(n.value, m.value);
  }

  lemma {:induction false} TurnedAround(a: Value, b: Value)
    requires DoubleFree(a) && DoubleFree(b) && Same(a, b) && Same(b, b) && NamesFound(b, a)
    ensures Same(b, a)
    decreases b
  {
    if b.ArrayValue? {
      ElementsTurned(a.elements, b.elements);
    } else if b.ObjectValue? {
      MembersTurned(a.members, b.members);
    }
  }

  lemma {:induction false} ElementsTurned(es: seq<Value>, fs: seq<Value>)
    requires DoubleFreeElements(es) && DoubleFreeElements(fs)
    requires Same(ArrayValue(es), ArrayValue(fs)) && Same(ArrayValue(fs), ArrayValue(fs))
    requires NamesFound(ArrayValue(fs), ArrayValue(es))
    ensures Same(ArrayValue(fs), ArrayValue(es))
    decreases fs
  {
    forall i | 0 <= i < |fs| ensures Same(fs[i], es[i]) {
      TurnedAround(es[i], fs[i]);
    }
  }

  lemma {:induction false} MembersTurned(ms: seq<Member>, ns: seq<Member>)
    requires DoubleFreeMembers(ms) && DoubleFreeMembers(ns)
    requires Same(ObjectValue(ms), ObjectValue(ns)) && Same(ObjectValue(ns), ObjectValue(ns))
    requires NamesFound(ObjectValue(ns), ObjectValue(ms))
    ensures Same(ObjectValue(ns), ObjectValue(ms))
    decreases ns, 1
  {
    forall j: nat | j < |ns| ensures Same(ns[j].value, ms[Find(ms, ns[j].name)].value) {
      MemberTurned(ms, ns, j);
    }
  }

  /** The member found first under the same name is turned around; the others equal that one. */
  lemma {:induction false} MemberTurned(ms: seq<Member>, ns: seq<Member>, j: nat)
    requires DoubleFreeMembers(ms) && DoubleFreeMembers(ns) && j < |ns|
    requires Same(ObjectValue(ms), ObjectValue(ns)) && Same(ObjectValue(ns), ObjectValue(ns))
    requires NamesFound(ObjectValue(ns), ObjectValue(ms))
    ensures Same(ns[j].value, ms[Find(ms, ns[j].name)].value)
    decreases ns, 0
  {
    var i, k := Find(ms, ns[j].name), Find(ns, ns[j].name);
    assert Find(ns, ns[k].name) == k && Find(ms, ns[k].name) == i;
    ValueTurned(ms[i], ns[k]);
    SameIsTransitive(ns[j].value, ns[k].value, ms[i].value);
  }

  lemma {:induction false} ValueTurned(m: Member, n: Member)
    requires DoubleFree(m.value) && DoubleFree(n.value)
    requires Same(m.value, n.value) && Same(n.value, n.value) && NamesFound(n.value, m.value)
    ensures Same(n.value, m.value)
    decreases n
  {
    TurnedAround(m.value, n.value);
  }

  // ---------------------------------------------------------------- values with a common equal

  /** At most d containers stand around anything in the value, and d is positive for a container. */
  predicate Within(v: Value, d: nat) {
    match v
    case ArrayValue(es) => d > 0 && forall i | 0 <= i < |es| :: Within(es[i], d - 1)
    case ObjectValue(ms) => d > 0 && forall i | 0 <= i < |ms| :: Within(ms[i].value, d - 1)
    case _ => true
  }

  lemma {:induction false} WithinMore(v: Value, d: nat, e: nat)
    requires Within(v, d) && d <= e
    ensures Within(v, e)
    decreases d
  {
    if v.ArrayValue? {
      forall i | 0 <= i < |v.elements| ensures Within(v.elements[i], e - 1) {
        WithinMore(v.elements[i], d - 1, e - 1);
      }
    } else if v.ObjectValue? {
      forall i | 0 <= i < |v.members| ensures Within(v.members[i].value, e - 1) {
        WithinMore(v.members[i].value, d - 1, e - 1);
      }
    }
  }

  /** Every value has such a depth. */
  lemma {:induction false} DepthOf(v: Value) returns (d: nat)
    ensures Within(v, d)
    decreases v
  {
    d := 0;
    if v.ArrayValue? {
      d := DepthOfElements(v.elements);
      d := d + 1;
    } else if v.ObjectValue? {
      d := DepthOfMembers(v.members);
      d := d + 1;
    }
  }

  lemma {:induction false} DepthOfElements(es: seq<Value>) returns (d: nat)
    ensures forall i | 0 <= i < |es| :: Within(es[i], d)
    decreases es
  {
    d := 0;
    if es != [] {
      var n := |es| - 1;
      var outer := DepthOfElements(es[..n]);
      var last := DepthOf(es[n]);
      d := outer + last;
      forall i | 0 <= i < |es| ensures Within(es[i], d) {
        WithinMore(es[i], if i < n then outer else last, d);
      }
    }
  }

  lemma {:induction false} DepthOfMember(m: Member) returns (d: nat)
    ensures Within(m.value, d)
    decreases m
  {
    d := DepthOf(m.value);
  }

  lemma {:induction false} DepthOfMembers(ms: seq<Member>) returns (d: nat)
    ensures forall i | 0 <= i < |ms| :: Within(ms[i].value, d)
    decreases ms
  {
    d := 0;
    if ms != [] {
      var n := |ms| - 1;
      var outer := DepthOfMembers(ms[..n]);
      var last := DepthOfMember(ms[n]);
      d := outer + last;
      forall i | 0 <= i < |ms| ensures Within(ms[i].value, d) {
        WithinMore(ms[i].value, if i < n then outer else last, d);
      }
    }
  }

  predicate Comparable(vs: set<Value>, d: nat) {
    forall v | v in vs :: DoubleFree(v) && Within(v, d)
  }

  /** Equal as far as the values themselves go: one kind, one content, one number of items. */
  predicate Alike(v: Value, w: Value) {
    match v
    case NumberValue(n) => w.NumberValue? && DoubleFree(v) && DoubleFree(w) && n.bits == w.n.bits
    case ArrayValue(es) => w.ArrayValue? && |es| == |w.elements|
    case ObjectValue(ms) => w.ObjectValue? && |ms| == |w.members|
    case _ => v == w
  }

  /** The elements at one place of all the arrays. */
  function Column(vs: set<Value>, i: nat): set<Value> {
    set v | v in vs && v.ArrayValue? && i < |v.elements| :: v.elements[i]
  }

  /** All the values that some object has under one name. */
  function Under(vs: set<Value>, name: Value): set<Value> {
    set v, k | v in vs && v.ObjectValue? && 0 <= k < |v.members| && v.members[k].name == name :: v.members[k].value
  }

  function NamesOf(vs: set<Value>): set<Value> {
    set v, k | v in vs && v.ObjectValue? && 0 <= k < |v.members| :: v.members[k].name
  }

  lemma Shallower(vs: set<Value>, d: nat)
    requires d > 0 && Comparable(vs, d)
    ensures forall i: nat :: Comparable(Column(vs, i), d - 1)
    ensures forall name :: Comparable(Under(vs, name), d - 1)
  {
  }

  /**
    Alike, and so are all values at one place and all values under one name, in whichever objects and at whichever of
    their members; and no object is too small for all the names.
   */
  ghost predicate Compatible(vs: set<Value>, d: nat)
    requires Comparable(vs, d)
    decreases d
  {
    && (forall v, w | v in vs && w in vs :: Alike(v, w))
    && (forall v | v in vs && v.ObjectValue? :: |NamesOf(vs)| <= |v.members|)
    && (d > 0 ==>
          (Shallower(vs, d);
           && (forall i: nat :: Compatible(Column(vs, i), d - 1))
           && (forall name :: Compatible(Under(vs, name), d - 1))))
  }

  /** All of the values equal b, and none holds a double. */
  predicate AllSame(vs: set<Value>, b: Value) {
    DoubleFree(b) && forall v | v in vs :: DoubleFree(v) && Same(v, b)
  }

  // ---------------------------------------------------------------- a common equal makes values compatible

  lemma SameIsAlike(v: Value, w: Value, b: Value)
    requires DoubleFree(v) && DoubleFree(w) && DoubleFree(b) && Same(v, b) && Same(w, b)
    ensures Alike(v, w)
  {
  }

  lemma {:induction false} NamesFit(ms: seq<Member>)
    ensures |set k | 0 <= k < |ms| :: ms[k].name| <= |ms|
  {
    var names := set k | 0 <= k < |ms| :: ms[k].name;
    if ms != [] {
      var n := |ms| - 1;
      NamesFit(ms[..n]);
      var fewer := set k | 0 <= k < n :: ms[..n][k].name;
      assert names == fewer + {ms[n].name};
    } else {
      assert names == {};
    }
  }

  lemma {:induction false} Subset<T>(a: set<T>, b: set<T>)
    requires a <= b
    ensures |a| <= |b|
  {
    if a != {} {
      var x :| x in a;
      Subset(a - {x}, b - {x});
    }
  }

  lemma NamesInBound(vs: set<Value>, b: Value, v: Value)
    requires AllSame(vs, b) && v in vs && v.ObjectValue?
    ensures |NamesOf(vs)| <= |v.members|
  {
    var names := set k | 0 <= k < |b.members| :: b.members[k].name;
    forall name | name in NamesOf(vs) ensures name in names {
      var w, k :| w in vs && w.ObjectValue? && 0 <= k < |w.members| && w.members[k].name == name;
      assert Same(w, b);
      assert b.members[Find(b.members, name)].name == name;
    }
    Subset(NamesOf(vs), names);
    NamesFit(b.members);
    assert Same(v, b);
  }

  lemma ColumnSame(vs: set<Value>, b: Value, i: nat) returns (c: Value)
    requires AllSame(vs, b)
    ensures AllSame(Column(vs, i), c)
  {
    c := if b.ArrayValue? && i < |b.elements| then b.elements[i] else NullValue;
  }

  lemma UnderSame(vs: set<Value>, b: Value, name: Value) returns (c: Value)
    requires AllSame(vs, b)
    ensures AllSame(Under(vs, name), c)
  {
    c := NullValue;
    if b.ObjectValue? && Find(b.members, name) < |b.members| {
      c := b.members[Find(b.members, name)].value;
    }
  }

  lemma AllAlike(vs: set<Value>, b: Value)
    requires AllSame(vs, b)
    ensures forall v, w | v in vs && w in vs :: Alike(v, w)
    ensures forall v | v in vs && v.ObjectValue? :: |NamesOf(vs)| <= |v.members|
  {
    hide NamesOf;
    forall v, w | v in vs && w in vs ensures Alike(v, w) {
      SameIsAlike(v, w, b);
    }
    forall v | v in vs && v.ObjectValue? ensures |NamesOf(vs)| <= |v.members| {
      NamesInBound(vs, b, v);
    }
  }

  lemma {:induction false} SameIsCompatible(vs: set<Value>, b: Value, d: nat)
    requires Comparable(vs, d) && AllSame(vs, b)
    ensures Compatible(vs, d)
    decreases d
  {
    hide AllSame, Alike, NamesOf, Column, Under, Comparable;
    AllAlike(vs, b);
    if d > 0 {
      Shallower(vs, d);
      forall i: nat ensures Compatible(Column(vs, i), d - 1) {
        var c := ColumnSame(vs, b, i);
        SameIsCompatible(Column(vs, i), c, d - 1);
      }
      forall name ensures Compatible(Under(vs, name), d - 1) {
        var c := UnderSame(vs, b, name);
        SameIsCompatible(Under(vs, name), c, d - 1);
      }
    }
  }

  // ---------------------------------------------------------------- compatible values have a common equal

  lemma {:induction false} CommonElements(vs: set<Value>, d: nat, n: nat) returns (es: seq<Value>)
    requires d > 0 && Comparable(vs, d) && Compatible(vs, d)
    ensures |es| == n && DoubleFreeElements(es)
    ensures forall i: nat | i < n :: AllSame(Column(vs, i), es[i])
    decreases d, 0, n
  {
    hide Alike, AllSame, Comparable, Column, Under, NamesOf;
    es := [];
    if n > 0 {
      Shallower(vs, d);
      var first := CommonElements(vs, d, n - 1);
      var last := CommonEqual(Column(vs, n - 1), d - 1);
      es := first + [last];
    }
  }

  /** What is found under the name equals all values that are under it. */
  predicate MemberFor(vs: set<Value>, ns: seq<Member>, name: Value)
  {
    Find(ns, name) < |ns| && AllSame(Under(vs, name), ns[Find(ns, name)].value)
  }

  lemma StillFound(vs: set<Value>, ns: seq<Member>, more: seq<Member>, name: Value)
    requires MemberFor(vs, ns, name)
    ensures MemberFor(vs, ns + more, name)
  {
    var k := Find(ns, name);
    assert (ns + more)[..|ns|] == ns;
    assert forall j | 0 <= j < k :: (ns + more)[j] == ns[j];
    assert Find(ns + more, name) == k;
  }

  lemma NewlyFound(vs: set<Value>, ns: seq<Member>, m: Member)
    requires (forall k | 0 <= k < |ns| :: ns[k].name != m.name) && AllSame(Under(vs, m.name), m.value)
    ensures MemberFor(vs, ns + [m], m.name)
  {
    assert (ns + [m])[|ns|] == m && forall j | 0 <= j < |ns| :: (ns + [m])[j] == ns[j];
    assert Find(ns + [m], m.name) == |ns|;
  }

  /** One member for each of the names. */
  lemma {:induction false} CommonMembers(vs: set<Value>, d: nat, names: set<Value>) returns (ns: seq<Member>)
    requires d > 0 && Comparable(vs, d) && Compatible(vs, d)
    ensures |ns| == |names| && DoubleFreeMembers(ns) && forall k | 0 <= k < |ns| :: ns[k].name in names
    ensures forall name | name in names :: MemberFor(vs, ns, name)
    decreases d, 0, |names|
  {
    hide MemberFor, Find, Same, Alike, DoubleFree, Comparable, Column, Under, NamesOf;
    ns := [];
    if names != {} {
      Shallower(vs, d);
      var name :| name in names;
      var rest := CommonMembers(vs, d, names - {name});
      var value := CommonEqual(Under(vs, name), d - 1);
      ns := rest + [Member(name, value)];
      NewlyFound(vs, rest, Member(name, value));
      forall x | x in names ensures MemberFor(vs, ns, x) {
        if x != name {
          StillFound(vs, rest, [Member(name, value)], x);
        }
      }
    }
  }

  /** As many members as the objects have: the first one is repeated where names are missing. */
  lemma Padded(vs: set<Value>, ns: seq<Member>, n: nat) returns (ms: seq<Member>)
    requires DoubleFreeMembers(ns) && |ns| <= n && (n > 0 ==> ns != [])
    ensures |ms| == n && DoubleFreeMembers(ms)
    ensures forall name | MemberFor(vs, ns, name) :: MemberFor(vs, ms, name)
  {
    hide MemberFor, DoubleFree;
    var more := seq(n - |ns|, i requires 0 <= i < n - |ns| => ns[0]);
    ms := ns + more;
    forall name | MemberFor(vs, ns, name) ensures MemberFor(vs, ms, name) {
      StillFound(vs, ns, more, name);
    }
  }

  lemma CommonObject(vs: set<Value>, ns: seq<Member>, v: Value)
    requires (forall w | w in vs :: DoubleFree(w) && Alike(v, w)) && v.ObjectValue?
    requires |ns| == |v.members| && DoubleFreeMembers(ns)
    requires forall name | name in NamesOf(vs) :: MemberFor(vs, ns, name)
    ensures AllSame(vs, ObjectValue(ns))
  {
    hide Find;
    forall w | w in vs ensures Same(w, ObjectValue(ns)) {
      assert Alike(v, w);
      forall i | 0 <= i < |w.members|
        ensures Find(ns, w.members[i].name) < |ns| && Same(w.members[i].value, ns[Find(ns, w.members[i].name)].value)
      {
        var name := w.members[i].name;
        assert name in NamesOf(vs) && w.members[i].value in Under(vs, name);
        assert MemberFor(vs, ns, name);
      }
    }
  }

  lemma CommonArray(vs: set<Value>, es: seq<Value>, v: Value)
    requires (forall w | w in vs :: DoubleFree(w) && Alike(v, w)) && v.ArrayValue?
    requires |es| == |v.elements| && DoubleFreeElements(es)
    requires forall i: nat | i < |es| :: AllSame(Column(vs, i), es[i])
    ensures AllSame(vs, ArrayValue(es))
  {
    forall w | w in vs ensures Same(w, ArrayValue(es)) {
      assert Alike(v, w);
      forall i: nat | i < |es| ensures DoubleFree(w.elements[i]) && Same(w.elements[i], es[i]) {
        assert w.elements[i] in Column(vs, i);
      }
    }
  }

  lemma CommonLeaf(vs: set<Value>, v: Value)
    requires v in vs && (forall w | w in vs :: DoubleFree(w) && Alike(v, w)) && !v.ArrayValue? && !v.ObjectValue?
    ensures AllSame(vs, v)
  {
  }

  lemma {:induction false} CommonEqual(vs: set<Value>, d: nat) returns (b: Value)
    requires Comparable(vs, d) && Compatible(vs, d)
    ensures DoubleFree(b) && AllSame(vs, b)
    decreases d, 1, 0
  {
    hide Column, Under, NamesOf, MemberFor, Same;
    b := NullValue;
    if v :| v in vs {
      if v.ArrayValue? {
        var es := CommonElements(vs, d, |v.elements|);
        b := ArrayValue(es);
        CommonArray(vs, es, v);
      } else if v.ObjectValue? {
        var some := CommonMembers(vs, d, NamesOf(vs));
        SomeName(vs, v);
        var ns := Padded(vs, some, |v.members|);
        b := ObjectValue(ns);
        CommonObject(vs, ns, v);
      } else {
        b := v;
        CommonLeaf(vs, v);
      }
    }
  }

  lemma SomeName(vs: set<Value>, v: Value)
    requires v in vs && v.ObjectValue?
    ensures v.members != [] ==> NamesOf(vs) != {} && |NamesOf(vs)| > 0
  {
    if v.members != [] {
      assert v.members[0].name in NamesOf(vs);
    }
  }

  // ---------------------------------------------------------------- the condition

  /**
    Some value is equal to all of the given ones if and only if they are compatible. For one value this says when it
    equals anything at all, with names repeated at any depth.
   */
  lemma EqualSomethingIffCompatible(vs: set<Value>, d: nat)
    requires Comparable(vs, d)
    ensures (exists b :: AllSame(vs, b)) <==> Compatible(vs, d)
  {
    if b :| AllSame(vs, b) {
      SameIsCompatible(vs, b, d);
    }
    if Compatible(vs, d) {
      var b := CommonEqual(vs, d);
    }
  }

  lemma FirstAt(ms: seq<Member>, name: Value, k: nat)
    requires k <= |ms| && (k < |ms| ==> ms[k].name == name) && forall j | 0 <= j < k :: ms[j].name != name
    ensures Find(ms, name) == k
  {
  }

  predicate FoundSame(m: Member, ns: seq<Member>)
    requires DoubleFree(m.value) && DoubleFreeMembers(ns)
  {
    Find(ns, m.name) < |ns| && Same(m.value, ns[Find(ns, m.name)].value)
  }

  lemma ObjectsSame(ms: seq<Member>, ns: seq<Member>)
    requires |ms| == |ns| == 2 && DoubleFree(ms[0].value) && DoubleFree(ms[1].value)
    requires DoubleFree(ns[0].value) && DoubleFree(ns[1].value)
    ensures DoubleFreeMembers(ns) && DoubleFree(ObjectValue(ms)) && DoubleFree(ObjectValue(ns))
    ensures Same(ObjectValue(ms), ObjectValue(ns)) <==> FoundSame(ms[0], ns) && FoundSame(ms[1], ns)
  {
    hide Find;
    assert ms == [ms[0], ms[1]] && ns == [ns[0], ns[1]];
  }

  lemma FirstFound(m: Member, ns: seq<Member>)
    requires DoubleFree(m.value) && DoubleFreeMembers(ns) && ns != [] && ns[0].name == m.name
    ensures FoundSame(m, ns) <==> Same(m.value, ns[0].value)
  {
    hide Same, DoubleFree;
    FirstAt(ns, m.name, 0);
  }

  /** Only the first namesake on the right is looked at. */
  lemma NamesakesSame(p: Value, u: Value, w: Value, x: Value, y: Value)
    requires DoubleFree(u) && DoubleFree(w) && DoubleFree(x) && DoubleFree(y)
    ensures var a, b := ObjectValue([Member(p, u), Member(p, w)]), ObjectValue([Member(p, x), Member(p, y)]);
            DoubleFree(a) && DoubleFree(b) && (Same(a, b) <==> Same(u, x) && Same(w, x))
  {
    hide *;
    var ms, ns := [Member(p, u), Member(p, w)], [Member(p, x), Member(p, y)];
    ObjectsSame(ms, ns);
    FirstFound(ms[0], ns);
    FirstFound(ms[1], ns);
  }

  /** Two namesakes that both equal t, where the second does not equal the first: the object equals only others. */
  lemma NamesakesApart(p: Value, u: Value, w: Value, t: Value)
    requires DoubleFree(u) && DoubleFree(w) && DoubleFree(t) && Same(u, t) && Same(w, t) && !Same(w, u)
    ensures var a, b := ObjectValue([Member(p, u), Member(p, w)]), ObjectValue([Member(p, t), Member(p, t)]);
            DoubleFree(a) && DoubleFree(b) && Same(a, b) && !Same(a, a)
  {
    hide *;
    NamesakesSame(p, u, w, t, t);
    NamesakesSame(p, u, w, u, w);
  }

  lemma OneNameEach(x: Value, y: Value)
    requires x != y
    ensures var u := ObjectValue([Member(x, NullValue), Member(x, NullValue)]);
            var w := ObjectValue([Member(y, NullValue), Member(y, NullValue)]);
            var t := ObjectValue([Member(x, NullValue), Member(y, NullValue)]);
            DoubleFree(u) && DoubleFree(w) && DoubleFree(t) && Same(u, t) && Same(w, t) && !Same(w, u)
  {
    var us, ws := [Member(x, NullValue), Member(x, NullValue)], [Member(y, NullValue), Member(y, NullValue)];
    var ts := [Member(x, NullValue), Member(y, NullValue)];
    hide Find;
    FirstAt(ts, x, 0);
    FirstAt(ts, y, 1);
    FirstAt(us, y, 2);
    assert ws[0].name == y;
  }

  /**
    Below the first level a value may equal another one but not itself:
    {"p": {"x": null, "x": null}, "p": {"y": null, "y": null}}.
   */
  lemma EqualToAnotherOnly()
    ensures var p, x, y := StringValue([0x70]), StringValue([0x78]), StringValue([0x79]);
            var u := ObjectValue([Member(x, NullValue), Member(x, NullValue)]);
            var w := ObjectValue([Member(y, NullValue), Member(y, NullValue)]);
            var a := ObjectValue([Member(p, u), Member(p, w)]);
            DoubleFree(a) && !Same(a, a) && exists b :: DoubleFree(b) && Same(a, b)
  {
    hide Same, DoubleFree;
    var p, x, y := StringValue([0x70]), StringValue([0x78]), StringValue([0x79]);
    assert x != y by { assert [0x78][0] != [0x79][0]; }
    OneNameEach(x, y);
    NamesakesApart(p, ObjectValue([Member(x, NullValue), Member(x, NullValue)]),
                   ObjectValue([Member(y, NullValue), Member(y, NullValue)]),
                   ObjectValue([Member(x, NullValue), Member(y, NullValue)]));
  }
}
