/**
  Equality of document values. Objects are compared by looking up each member of the left one in the right one;
  with unique names this is equality of what the values mean, hence an equivalence that ignores member order.
 */
module Equality {
  import opened Bytes
  import opened Events
  import opened Values
  import opened Reordering

  // ---------------------------------------------------------------- the comparison

  /** The linear search of `DoFindMember`: the first member of that name, or the number of members. */
  function FindFrom(ms: seq<Member>, name: Value, k: nat): (i: nat)
    requires k <= |ms|
    ensures k <= i <= |ms| && (i < |ms| ==> ms[i].name == name)
    ensures forall j | k <= j < i :: ms[j].name != name
    decreases |ms| - k
  {
    if k == |ms| || ms[k].name == name then k else FindFrom(ms, name, k + 1)
  }

  function Find(ms: seq<Member>, name: Value): nat {
    FindFrom(ms, name, 0)
  }

  /** `operator==` on values without doubles; numbers are compared by their 64-bit words. */
  predicate Same(a: Value, b: Value)
    requires DoubleFree(a) && DoubleFree(b)
  {
    match a
    case NullValue => b.NullValue?
    case FalseValue => b.FalseValue?
    case TrueValue => b.TrueValue?
    case StringValue(s) => b.StringValue? && s == b.s
    case NumberValue(n) => b.NumberValue? && n.bits == b.n.bits
    case ArrayValue(es) => b.ArrayValue? && |es| == |b.elements| && forall i | 0 <= i < |es| :: Same(es[i], b.elements[i])
    case ObjectValue(ms) =>
      b.ObjectValue? && |ms| == |b.members| &&
      forall i | 0 <= i < |ms| ::
        Find(b.members, ms[i].name) < |b.members| && Same(ms[i].value, b.members[Find(b.members, ms[i].name)].value)
  }

  method FindMember(ms: seq<Member>, name: Value) returns (i: nat)
    ensures i == Find(ms, name)
  {
    i := 0;
    while i < |ms|
      invariant i <= |ms| && FindFrom(ms, name, i) == Find(ms, name)
    {
      if ms[i].name == name { return; }
      i := i + 1;
    }
  }

  method Equals(a: Value, b: Value) returns (r: bool)
    requires DoubleFree(a) && DoubleFree(b)
    ensures r == Same(a, b)
    decreases a
  {
    if a.ObjectValue? && b.ObjectValue? {
      r := EqualMembers(a.members, b.members);
    } else if a.ArrayValue? && b.ArrayValue? {
      r := EqualElements(a.elements, b.elements);
    } else if a.StringValue? && b.StringValue? {
      r := a.s == b.s;
    } else if a.NumberValue? && b.NumberValue? {
      r := a.n.bits == b.n.bits;
    } else {
      r := a == b;
    }
  }

  predicate DoubleFreeElements(es: seq<Value>) {
    forall k | 0 <= k < |es| :: DoubleFree(es[k])
  }

  predicate DoubleFreeMembers(ms: seq<Member>) {
    forall k | 0 <= k < |ms| :: DoubleFree(ms[k].value)
  }

  method EqualElements(es: seq<Value>, fs: seq<Value>) returns (r: bool)
    requires DoubleFreeElements(es) && DoubleFreeElements(fs)
    ensures r == Same(ArrayValue(es), ArrayValue(fs))
    decreases es
  {
    if |es| != |fs| { return false; }
    for i := 0 to |es|
      invariant forall k | 0 <= k < i :: Same(es[k], fs[k])
    {
      var equal := Equals(es[i], fs[i]);
      if !equal { return false; }
    }
    return true;
  }

  method EqualMember(m: Member, ms: seq<Member>) returns (r: bool)
    requires DoubleFree(m.value) && DoubleFreeMembers(ms)
    ensures r == (Find(ms, m.name) < |ms| && Same(m.value, ms[Find(ms, m.name)].value))
    decreases m
  {
    var i := FindMember(ms, m.name);
    if i == |ms| { return false; }
    r := Equals(m.value, ms[i].value);
  }

  method EqualMembers(ms: seq<Member>, ns: seq<Member>) returns (r: bool)
    requires DoubleFreeMembers(ms) && DoubleFreeMembers(ns)
    ensures r == Same(ObjectValue(ms), ObjectValue(ns))
    decreases ms
  {
    if |ms| != |ns| { return false; }
    for i := 0 to |ms|
      invariant forall k | 0 <= k < i ::
        Find(ns, ms[k].name) < |ns| && Same(ms[k].value, ns[Find(ns, ms[k].name)].value)
    {
      var equal := EqualMember(ms[i], ns);
      if !equal { return false; }
    }
    return true;
  }

  // ---------------------------------------------------------------- what values mean

  /** Objects as finite maps, so that neither order nor position of a member is left. */
  datatype Meaning =
    | Null
    | False
    | True
    | Text(s: Bytes.Text)
    | Word(bits: uint64)
    | List(items: seq<Meaning>)
    | Map(entries: map<Value, Meaning>)

  function MeaningOf(v: Value): Meaning
    requires DoubleFree(v)
  {
    match v
    case NullValue => Meaning.Null
    case FalseValue => False
    case TrueValue => True
    case StringValue(s) => Text(s)
    case NumberValue(n) => Word(n.bits)
    case ArrayValue(es) => List(MeaningsOf(es))
    case ObjectValue(ms) => Map(EntriesOf(ms))
  }

  function MeaningsOf(es: seq<Value>): (r: seq<Meaning>)
    requires DoubleFreeElements(es)
    ensures |r| == |es|
  {
    if es == [] then [] else MeaningsOf(es[..|es| - 1]) + [MeaningOf(es[|es| - 1])]
  }

  function MemberMeaning(m: Member): Meaning
    requires DoubleFree(m.value)
  {
    MeaningOf(m.value)
  }

  function EntriesOf(ms: seq<Member>): map<Value, Meaning>
    requires DoubleFreeMembers(ms)
  {
    if ms == [] then map[] else EntriesOf(ms[..|ms| - 1])[ms[|ms| - 1].name := MemberMeaning(ms[|ms| - 1])]
  }

  predicate DistinctNames(ms: seq<Member>) {
    forall i, j | 0 <= i < j < |ms| :: ms[i].name != ms[j].name
  }

  /** No object, at any depth, has two members of the same name. */
  predicate UniqueNames(v: Value) {
    match v
    case ObjectValue(ms) => DistinctNames(ms) && forall k | 0 <= k < |ms| :: UniqueNames(ms[k].value)
    case ArrayValue(es) => forall k | 0 <= k < |es| :: UniqueNames(es[k])
    case _ => true
  }

  lemma {:induction false} MeaningsAt(es: seq<Value>, i: nat)
    requires DoubleFreeElements(es) && i < |es|
    ensures MeaningsOf(es)[i] == MeaningOf(es[i])
  {
    hide MeaningOf;
    if i < |es| - 1 {
      MeaningsAt(es[..|es| - 1], i);
    }
  }

  predicate Named(ms: seq<Member>, name: Value) {
    exists i | 0 <= i < |ms| :: ms[i].name == name
  }

  /** The entries are exactly the members, each under its name. */
  lemma {:induction false} EntriesAre(ms: seq<Member>)
    requires DoubleFreeMembers(ms) && DistinctNames(ms)
    ensures |EntriesOf(ms)| == |ms|
    ensures forall i | 0 <= i < |ms| :: ms[i].name in EntriesOf(ms) && EntriesOf(ms)[ms[i].name] == MemberMeaning(ms[i])
    ensures forall name | name in EntriesOf(ms) :: Named(ms, name)
  {
    hide MemberMeaning, EntriesOf, Named, DoubleFree;
    NoEntries();
    if ms != [] {
      var n := |ms| - 1;
      EntriesAre(ms[..n]);
      EntriesStep(ms);
      NamedStep(ms);
      forall i | 0 <= i < n ensures ms[i].name in EntriesOf(ms) && EntriesOf(ms)[ms[i].name] == MemberMeaning(ms[i]) {
        assert ms[..n][i] == ms[i] && ms[i].name != ms[n].name;
      }
    }
  }

  lemma NoEntries()
    ensures EntriesOf([]) == map[]
  {
  }

  lemma EntriesStep(ms: seq<Member>)
    requires DoubleFreeMembers(ms) && ms != []
    ensures var n := |ms| - 1; EntriesOf(ms) == EntriesOf(ms[..n])[ms[n].name := MemberMeaning(ms[n])]
  {
  }

  lemma NamedStep(ms: seq<Member>)
    requires ms != [] && DistinctNames(ms)
    ensures var n := |ms| - 1; !Named(ms[..n], ms[n].name)
    ensures var n := |ms| - 1; forall name :: Named(ms, name) <==> name == ms[n].name || Named(ms[..n], name)
  {
    var n := |ms| - 1;
    forall name ensures Named(ms, name) <==> name == ms[n].name || Named(ms[..n], name) {
      if i :| 0 <= i < |ms| && ms[i].name == name {
        if i < n {
          assert ms[..n][i] == ms[i];
        }
      }
      if i :| 0 <= i < n && ms[..n][i].name == name {
        assert ms[i].name == name;
      }
    }
  }

  lemma FindNamed(ms: seq<Member>, name: Value)
    ensures Find(ms, name) < |ms| <==> Named(ms, name)
  {
  }

  /** A finite set inside another of the same size is that set. */
  lemma {:induction false} Pigeonhole<T>(a: set<T>, b: set<T>)
    requires a <= b && |a| == |b|
    ensures a == b
  {
    if a != {} {
      var x :| x in a;
      Pigeonhole(a - {x}, b - {x});
    }
  }

  /** The comparison decides whether two values mean the same. */
  lemma {:induction false} SameMeansEqual(a: Value, b: Value)
    requires DoubleFree(a) && DoubleFree(b) && UniqueNames(a) && UniqueNames(b)
    ensures Same(a, b) <==> MeaningOf(a) == MeaningOf(b)
    decreases a
  {
    if a.ArrayValue? && b.ArrayValue? {
      SameElements(a.elements, b.elements);
    } else if a.ObjectValue? && b.ObjectValue? {
      SameMembers(a.members, b.members);
    }
  }

  lemma {:induction false} SameElements(es: seq<Value>, fs: seq<Value>)
    requires DoubleFreeElements(es) && DoubleFreeElements(fs)
    requires UniqueNames(ArrayValue(es)) && UniqueNames(ArrayValue(fs))
    ensures Same(ArrayValue(es), ArrayValue(fs)) <==> MeaningsOf(es) == MeaningsOf(fs)
    decreases es
  {
    if |es| == |fs| {
      forall i | 0 <= i < |es| ensures Same(es[i], fs[i]) <==> MeaningsOf(es)[i] == MeaningsOf(fs)[i] {
        SameMeansEqual(es[i], fs[i]);
        MeaningsAt(es, i);
        MeaningsAt(fs, i);
      }
    }
  }

  lemma {:induction false} SameMember(m: Member, n: Member)
    requires DoubleFree(m.value) && DoubleFree(n.value) && UniqueNames(m.value) && UniqueNames(n.value)
    ensures Same(m.value, n.value) <==> MemberMeaning(m) == MemberMeaning(n)
    decreases m
  {
    SameMeansEqual(m.value, n.value);
  }

  lemma {:induction false} SameMembers(ms: seq<Member>, ns: seq<Member>)
    requires DoubleFreeMembers(ms) && DoubleFreeMembers(ns)
    requires UniqueNames(ObjectValue(ms)) && UniqueNames(ObjectValue(ns))
    ensures Same(ObjectValue(ms), ObjectValue(ns)) <==> EntriesOf(ms) == EntriesOf(ns)
    decreases ms, 1
  {
    if Same(ObjectValue(ms), ObjectValue(ns)) {
      SameGivesEntries(ms, ns);
    }
    if EntriesOf(ms) == EntriesOf(ns) {
      EntriesGiveSame(ms, ns);
    }
  }

  /** Every left member is found on the right, and there are as many: the right side has no other names. */
  lemma {:induction false} SameGivesEntries(ms: seq<Member>, ns: seq<Member>)
    requires DoubleFreeMembers(ms) && DoubleFreeMembers(ns)
    requires UniqueNames(ObjectValue(ms)) && UniqueNames(ObjectValue(ns)) && Same(ObjectValue(ms), ObjectValue(ns))
    ensures EntriesOf(ms) == EntriesOf(ns)
    decreases ms, 0
  {
    hide MemberMeaning, EntriesOf, Named;
    EntriesAre(ms);
    EntriesAre(ns);
    var x, y := EntriesOf(ms), EntriesOf(ns);
    forall name | name in x ensures name in y && x[name] == y[name] {
      NamedAt(ms, name);
      var i: nat :| i < |ms| && ms[i].name == name;
      SameMember(ms[i], ns[Find(ns, name)]);
    }
    Pigeonhole(x.Keys, y.Keys);
    assert x == y;
  }

  lemma {:induction false} EntriesGiveSame(ms: seq<Member>, ns: seq<Member>)
    requires DoubleFreeMembers(ms) && DoubleFreeMembers(ns)
    requires UniqueNames(ObjectValue(ms)) && UniqueNames(ObjectValue(ns)) && EntriesOf(ms) == EntriesOf(ns)
    ensures Same(ObjectValue(ms), ObjectValue(ns))
    decreases ms, 0
  {
    hide MemberMeaning, EntriesOf, Named;
    EntriesAre(ms);
    EntriesAre(ns);
    SameSize(ms, ns);
    forall i | 0 <= i < |ms|
      ensures Find(ns, ms[i].name) < |ns| && Same(ms[i].value, ns[Find(ns, ms[i].name)].value)
    {
      FindNamed(ns, ms[i].name);
      SameMember(ms[i], ns[Find(ns, ms[i].name)]);
    }
  }

  lemma SameSize(ms: seq<Member>, ns: seq<Member>)
    requires DoubleFreeMembers(ms) && DoubleFreeMembers(ns) && EntriesOf(ms) == EntriesOf(ns)
    requires |EntriesOf(ms)| == |ms| && |EntriesOf(ns)| == |ns|
    ensures |ms| == |ns|
  {
  }

  // ---------------------------------------------------------------- the equivalence

  /** Reflexive, symmetric and transitive on values with unique names. */
  lemma SameIsEquivalence(a: Value, b: Value, c: Value)
    requires DoubleFree(a) && DoubleFree(b) && DoubleFree(c)
    requires UniqueNames(a) && UniqueNames(b) && UniqueNames(c)
    ensures Same(a, a)
    ensures Same(a, b) <==> Same(b, a)
    ensures Same(a, b) && Same(b, c) ==> Same(a, c)
  {
    SameMeansEqual(a, a);
    SameMeansEqual(a, b);
    SameMeansEqual(b, a);
    SameMeansEqual(b, c);
    SameMeansEqual(a, c);
  }

  /** Values that differ only in the order of members, at any depth, mean the same, so they compare equal. */
  lemma {:induction false} ShuffledMeansSame(a: Value, b: Value)
    requires DoubleFree(a) && DoubleFree(b) && UniqueNames(a) && UniqueNames(b) && Shuffled(a, b)
    ensures MeaningOf(a) == MeaningOf(b) && Same(a, b)
    decreases a
  {
    if a.ArrayValue? {
      ShuffledElements(a.elements, b.elements);
    } else if a.ObjectValue? {
      ShuffledMembers(a.members, b.members);
    }
    SameMeansEqual(a, b);
  }

  lemma {:induction false} ShuffledElements(es: seq<Value>, fs: seq<Value>)
    requires DoubleFreeElements(es) && DoubleFreeElements(fs) && Shuffled(ArrayValue(es), ArrayValue(fs))
    requires UniqueNames(ArrayValue(es)) && UniqueNames(ArrayValue(fs))
    ensures MeaningsOf(es) == MeaningsOf(fs)
    decreases es
  {
    forall i | 0 <= i < |es| ensures MeaningsOf(es)[i] == MeaningsOf(fs)[i] {
      ShuffledMeansSame(es[i], fs[i]);
      MeaningsAt(es, i);
      MeaningsAt(fs, i);
    }
  }

  lemma {:induction false} ShuffledMember(m: Member, n: Member)
    requires DoubleFree(m.value) && DoubleFree(n.value) && UniqueNames(m.value) && UniqueNames(n.value)
    requires Shuffled(m.value, n.value)
    ensures MemberMeaning(m) == MemberMeaning(n)
    decreases m
  {
    ShuffledMeansSame(m.value, n.value);
  }

  lemma {:induction false} ShuffledMembers(ms: seq<Member>, ns: seq<Member>)
    requires DoubleFreeMembers(ms) && DoubleFreeMembers(ns) && Shuffled(ObjectValue(ms), ObjectValue(ns))
    requires UniqueNames(ObjectValue(ms)) && UniqueNames(ObjectValue(ns))
    ensures EntriesOf(ms) == EntriesOf(ns)
    decreases ms
  {
    hide MemberMeaning, EntriesOf, Named, Shuffled, DoubleFree, Same, UniqueNames;
    UniqueMembers(ms);
    UniqueMembers(ns);
    EntriesAre(ms);
    EntriesAre(ns);
    ShuffledPartner(ms, ns);
    var x, y := EntriesOf(ms), EntriesOf(ns);
    forall name | name in x ensures name in y && x[name] == y[name] {
      NamedAt(ms, name);
      var k: nat :| k < |ms| && ms[k].name == name;
      assert HasPartner(ms[k], ns);
      var j :| 0 <= j < |ns| && ms[k].name == ns[j].name && Shuffled(ms[k].value, ns[j].value);
      ShuffledMember(ms[k], ns[j]);
    }
    Pigeonhole(x.Keys, y.Keys);
    assert x == y;
  }

  ghost predicate HasPartner(m: Member, ns: seq<Member>) {
    exists j | 0 <= j < |ns| :: m.name == ns[j].name && Shuffled(m.value, ns[j].value)
  }

  /** Every member has its partner on the other side. */
  lemma ShuffledPartner(ms: seq<Member>, ns: seq<Member>)
    requires Shuffled(ObjectValue(ms), ObjectValue(ns))
    ensures |ms| == |ns|
    ensures forall k | 0 <= k < |ms| :: HasPartner(ms[k], ns)
  {
    var p :| IsPermutation(p, |ms|) &&
      forall i | 0 <= i < |ms| :: ms[i].name == ns[p[i]].name && Shuffled(ms[i].value, ns[p[i]].value);
    hide Shuffled;
    forall k | 0 <= k < |ms| ensures HasPartner(ms[k], ns) {
      assert ms[k].name == ns[p[k]].name;
    }
  }

  lemma UniqueMembers(ms: seq<Member>)
    requires UniqueNames(ObjectValue(ms))
    ensures DistinctNames(ms) && forall k | 0 <= k < |ms| :: UniqueNames(ms[k].value)
  {
  }

  lemma NamedAt(ms: seq<Member>, name: Value)
    requires Named(ms, name)
    ensures exists k: nat :: k < |ms| && ms[k].name == name
  {
  }

  // ---------------------------------------------------------------- repeated names

  /** Transitive on all values, whether names are repeated or not. */
  lemma {:induction false} SameIsTransitive(a: Value, b: Value, c: Value)
    requires DoubleFree(a) && DoubleFree(b) && DoubleFree(c) && Same(a, b) && Same(b, c)
    ensures Same(a, c)
    decreases a
  {
    if a.ArrayValue? {
      forall i | 0 <= i < |a.elements| ensures Same(a.elements[i], c.elements[i]) {
        SameIsTransitive(a.elements[i], b.elements[i], c.elements[i]);
      }
    } else if a.ObjectValue? {
      var ms, ns, os := a.members, b.members, c.members;
      forall i | 0 <= i < |ms|
        ensures Find(os, ms[i].name) < |os| && Same(ms[i].value, os[Find(os, ms[i].name)].value)
      {
        var k := Find(ns, ms[i].name);
        MemberIsTransitive(ms[i], ns[k], os[Find(os, ns[k].name)]);
      }
    }
  }

  lemma {:induction false} MemberIsTransitive(l: Member, m: Member, n: Member)
    requires DoubleFree(l.value) && DoubleFree(m.value) && DoubleFree(n.value)
    requires Same(l.value, m.value) && Same(m.value, n.value)
    ensures Same(l.value, n.value)
    decreases l
  {
    SameIsTransitive(l.value, m.value, n.value);
  }

  /** A value equal to one with unique names has unique names: all its members are looked up. */
  lemma {:induction false} SameKeepsUnique(a: Value, b: Value)
    requires DoubleFree(a) && DoubleFree(b) && UniqueNames(a) && Same(a, b)
    ensures UniqueNames(b)
    decreases a
  {
    if a.ArrayValue? {
      forall i | 0 <= i < |a.elements| ensures UniqueNames(b.elements[i]) {
        SameKeepsUnique(a.elements[i], b.elements[i]);
      }
    } else if a.ObjectValue? {
      var ms, ns := a.members, b.members;
      AllLookedUp(ms, ns);
      forall k | 0 <= k < |ns| ensures UniqueNames(ns[k].value) {
        assert LookedUp(ms, ns, |ms|, k);
        var i :| 0 <= i < |ms| && Find(ns, ms[i].name) == k;
        MemberKeepsUnique(ms[i], ns[k]);
      }
    }
  }

  lemma {:induction false} MemberKeepsUnique(m: Member, n: Member)
    requires DoubleFree(m.value) && DoubleFree(n.value) && UniqueNames(m.value) && Same(m.value, n.value)
    ensures UniqueNames(n.value)
    decreases m
  {
    SameKeepsUnique(m.value, n.value);
  }

  function Below(n: nat): (r: set<nat>)
    ensures |r| == n && forall k: nat :: k in r <==> k < n
  {
    if n == 0 then {} else Below(n - 1) + {n - 1}
  }

  /** Where the first n left members are found on the right. */
  function Places(ms: seq<Member>, ns: seq<Member>, n: nat): (r: set<nat>)
    requires n <= |ms|
    ensures forall i | 0 <= i < n :: Find(ns, ms[i].name) in r
  {
    if n == 0 then {} else Places(ms, ns, n - 1) + {Find(ns, ms[n - 1].name)}
  }

  /** One of the first n left members is found at k. */
  predicate LookedUp(ms: seq<Member>, ns: seq<Member>, n: nat, k: nat)
    requires n <= |ms|
  {
    exists i | 0 <= i < n :: Find(ns, ms[i].name) == k
  }

  lemma {:induction false} PlacesAre(ms: seq<Member>, ns: seq<Member>, n: nat)
    requires DistinctNames(ms) && n <= |ms| && forall i | 0 <= i < |ms| :: Find(ns, ms[i].name) < |ns|
    ensures |Places(ms, ns, n)| == n && forall k | k in Places(ms, ns, n) :: k < |ns| && LookedUp(ms, ns, n, k)
  {
    hide Find, DistinctNames, LookedUp;
    if n > 0 {
      PlacesAre(ms, ns, n - 1);
      LastPlace(ms, ns, n);
    }
  }

  lemma LastPlace(ms: seq<Member>, ns: seq<Member>, n: nat)
    requires DistinctNames(ms) && 0 < n <= |ms| && forall i | 0 <= i < |ms| :: Find(ns, ms[i].name) < |ns|
    ensures LookedUp(ms, ns, n, Find(ns, ms[n - 1].name)) && !LookedUp(ms, ns, n - 1, Find(ns, ms[n - 1].name))
    ensures forall k | LookedUp(ms, ns, n - 1, k) :: LookedUp(ms, ns, n, k)
  {
  }

  /** As many different names as members, all found on the right: each right member is found, under its own name. */
  lemma AllLookedUp(ms: seq<Member>, ns: seq<Member>)
    requires DistinctNames(ms) && |ms| == |ns| && forall i | 0 <= i < |ms| :: Find(ns, ms[i].name) < |ns|
    ensures DistinctNames(ns) && forall k: nat | k < |ns| :: LookedUp(ms, ns, |ms|, k)
  {
    PlacesAre(ms, ns, |ms|);
    Pigeonhole(Places(ms, ns, |ms|), Below(|ns|));
    forall k: nat | k < |ns| ensures LookedUp(ms, ns, |ms|, k) {
      assert k in Below(|ns|);
    }
    forall j, k: nat | 0 <= j < k < |ns| ensures ns[j].name != ns[k].name {
      assert LookedUp(ms, ns, |ms|, k);
    }
  }

  /** Members of one name have values equal to that of the first one. */
  predicate NamesakesAgree(ms: seq<Member>)
    requires DoubleFreeMembers(ms)
  {
    forall i | 0 <= i < |ms| :: Same(ms[i].value, ms[Find(ms, ms[i].name)].value)
  }

  /** Every member's value has unique names; the members themselves may share theirs. */
  predicate UniqueWithin(ms: seq<Member>) {
    forall k | 0 <= k < |ms| :: UniqueNames(ms[k].value)
  }

  /** Symmetric wherever the left value has unique names, whatever the right one is. */
  lemma SameIsSymmetric(a: Value, b: Value)
    requires DoubleFree(a) && DoubleFree(b) && UniqueNames(a) && Same(a, b)
    ensures Same(b, a)
  {
    SameKeepsUnique(a, b);
    SameIsEquivalence(a, b, a);
  }

  /** Members of one name agree exactly when they do so pairwise. */
  lemma AgreePairwise(ms: seq<Member>)
    requires DoubleFreeMembers(ms) && UniqueWithin(ms)
    ensures NamesakesAgree(ms) <==>
              forall i, j | 0 <= i < |ms| && 0 <= j < |ms| && ms[i].name == ms[j].name :: Same(ms[i].value, ms[j].value)
  {
    if NamesakesAgree(ms) {
      forall i, j | 0 <= i < |ms| && 0 <= j < |ms| && ms[i].name == ms[j].name
        ensures Same(ms[i].value, ms[j].value)
      {
        var k := Find(ms, ms[i].name);
        SameIsEquivalence(ms[j].value, ms[k].value, ms[j].value);
        SameIsTransitive(ms[i].value, ms[k].value, ms[j].value);
      }
    }
  }

  /**
    An object compares equal to some object, and then also to itself, if and only if its members of one name agree:
    objects with repeated names compare unequal to every object exactly when two namesakes differ.
   */
  lemma EqualsSomethingIffNamesakesAgree(ms: seq<Member>)
    requires DoubleFreeMembers(ms) && UniqueWithin(ms)
    ensures (exists ns :: DoubleFreeMembers(ns) && Same(ObjectValue(ms), ObjectValue(ns))) <==> NamesakesAgree(ms)
    ensures Same(ObjectValue(ms), ObjectValue(ms)) <==> NamesakesAgree(ms)
  {
    if ns: seq<Member> :| DoubleFreeMembers(ns) && Same(ObjectValue(ms), ObjectValue(ns)) {
      forall i | 0 <= i < |ms| ensures Same(ms[i].value, ms[Find(ms, ms[i].name)].value) {
        var f, k := Find(ms, ms[i].name), Find(ns, ms[i].name);
        SameIsSymmetric(ms[f].value, ns[k].value);
        SameIsTransitive(ms[i].value, ns[k].value, ms[f].value);
      }
    }
    if NamesakesAgree(ms) {
      forall i | 0 <= i < |ms| ensures Find(ms, ms[i].name) < |ms| {
        FindNamed(ms, ms[i].name);
      }
      assert Same(ObjectValue(ms), ObjectValue(ms));
    }
  }

  /** What holds one way holds both ways if and only if the right object has no other names and its namesakes agree. */
  lemma SymmetricIffNamesakesAgree(ms: seq<Member>, ns: seq<Member>)
    requires DoubleFreeMembers(ms) && DoubleFreeMembers(ns) && UniqueWithin(ms)
    requires Same(ObjectValue(ms), ObjectValue(ns))
    ensures Same(ObjectValue(ns), ObjectValue(ms)) <==>
              NamesakesAgree(ns) && forall j | 0 <= j < |ns| :: Named(ms, ns[j].name)
  {
    forall j | 0 <= j < |ns| && Named(ms, ns[j].name)
      ensures var i, k := Find(ms, ns[j].name), Find(ns, ns[j].name);
              i < |ms| && k < |ns| && Same(ms[i].value, ns[k].value) && Same(ns[k].value, ms[i].value)
    {
      FindNamed(ms, ns[j].name);
      SameIsSymmetric(ms[Find(ms, ns[j].name)].value, ns[Find(ns, ns[j].name)].value);
    }
    if Same(ObjectValue(ns), ObjectValue(ms)) {
      forall j | 0 <= j < |ns|
        ensures Named(ms, ns[j].name) && Same(ns[j].value, ns[Find(ns, ns[j].name)].value)
      {
        FindNamed(ms, ns[j].name);
        var i, k := Find(ms, ns[j].name), Find(ns, ns[j].name);
        SameIsTransitive(ns[j].value, ms[i].value, ns[k].value);
      }
    }
    if NamesakesAgree(ns) && forall j | 0 <= j < |ns| :: Named(ms, ns[j].name) {
      forall j | 0 <= j < |ns|
        ensures Find(ms, ns[j].name) < |ms| && Same(ns[j].value, ms[Find(ms, ns[j].name)].value)
      {
        SameIsTransitive(ns[j].value, ns[Find(ns, ns[j].name)].value, ms[Find(ms, ns[j].name)].value);
      }
    }
  }

  /** An object with a repeated name that equals itself. */
  lemma RepeatedNamesMayAgree()
    ensures var x := StringValue([0x78]); var a := ObjectValue([Member(x, NullValue), Member(x, NullValue)]);
            DoubleFree(a) && !UniqueNames(a) && Same(a, a)
  {
    var x := StringValue([0x78]);
    var ms := [Member(x, NullValue), Member(x, NullValue)];
    assert ms[0].name == ms[1].name;
    assert Find(ms, x) == 0;
  }

  /** With a repeated name the comparison is not symmetric: only the members of the left side are looked up. */
  lemma RepeatedNamesBreakSymmetry()
    ensures var x, y := StringValue([0x78]), StringValue([0x79]);
            var a := ObjectValue([Member(x, NullValue), Member(x, NullValue)]);
            var b := ObjectValue([Member(x, NullValue), Member(y, NullValue)]);
            DoubleFree(a) && DoubleFree(b) && Same(a, b) && !Same(b, a)
  {
    var x, y := StringValue([0x78]), StringValue([0x79]);
    var ms := [Member(x, NullValue), Member(x, NullValue)];
    var ns := [Member(x, NullValue), Member(y, NullValue)];
    assert Find(ns, x) == 0;
    assert ms[0].name != y && ms[1].name != y;
    assert Find(ms, ns[1].name) == 2;
  }
}
