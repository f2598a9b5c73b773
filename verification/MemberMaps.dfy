/**
  Objects with a name index: a multimap from names to positions beside the member array, and an array of map
  iterators. The index always has exactly one entry per member, so both forms of an object behave alike.
 */
module MemberMaps {
  import opened Bytes
  import opened Values
  import opened Equality

  // ---------------------------------------------------------------- the order of the map

  /** `memcmp` on the common prefix, by sign. */
  function Compare(a: Text, b: Text): (r: int)
    ensures -1 <= r <= 1
  {
    if a == [] || b == [] then 0
    else if a[0] < b[0] then -1
    else if a[0] > b[0] then 1
    else Compare(a[1..], b[1..])
  }

  predicate Less(a: Text, b: Text) {
    var cmp := Compare(a, b);
    cmp < 0 || (cmp == 0 && |a| < |b|)
  }

  /** Names are equivalent in the map exactly when they are equal. */
  lemma {:induction false} LessIsTotal(a: Text, b: Text)
    ensures !(Less(a, b) && Less(b, a))
    ensures !Less(a, b) && !Less(b, a) <==> a == b
  {
    if a != [] && b != [] && a[0] == b[0] {
      LessIsTotal(a[1..], b[1..]);
      assert a == [a[0]] + a[1..] && b == [b[0]] + b[1..];
    }
  }

  /** With the above, the strict weak order that a multimap asks of its comparison. */
  lemma {:induction false} LessIsTransitive(a: Text, b: Text, c: Text)
    requires Less(a, b) && Less(b, c)
    ensures Less(a, c)
  {
    if a != [] && b != [] && c != [] && a[0] == b[0] == c[0] {
      LessIsTransitive(a[1..], b[1..], c[1..]);
    }
  }

  /** Names are in lexicographic order of their bytes: the first difference decides, and else the shorter comes first. */
  lemma {:induction false} LessIsLexicographic(a: Text, b: Text)
    ensures Less(a, b) <==> exists k: nat :: DiffersAt(a, b, k)
  {
    if a != [] && b != [] && a[0] == b[0] {
      LessIsLexicographic(a[1..], b[1..]);
      assert Less(a, b) <==> Less(a[1..], b[1..]);
      forall k: nat ensures DiffersAt(a, b, k + 1) <==> DiffersAt(a[1..], b[1..], k) {
        LaterDifference(a, b, k);
      }
      assert !DiffersAt(a, b, 0);
      if k: nat :| DiffersAt(a, b, k) {
        assert DiffersAt(a[1..], b[1..], k - 1) <==> DiffersAt(a, b, (k - 1) + 1);
      }
      if k: nat :| DiffersAt(a[1..], b[1..], k) {
        assert DiffersAt(a, b, k + 1);
      }
    } else if a == [] || b == [] {
      assert DiffersAt(a, b, 0) <==> a == [] && b != [];
    } else {
      assert DiffersAt(a, b, 0) <==> a[0] < b[0];
      forall k: nat | k > 0 ensures !DiffersAt(a, b, k) {
        assert k <= |a| && k <= |b| ==> a[..k][0] == a[0] && b[..k][0] == b[0];
      }
    }
  }

  /** The names agree on k bytes; then a ends, or has the smaller byte. */
  predicate DiffersAt(a: Text, b: Text, k: nat) {
    k <= |a| && k < |b| && a[..k] == b[..k] && (k == |a| || a[k] < b[k])
  }

  lemma LaterDifference(a: Text, b: Text, k: nat)
    requires a != [] && b != [] && a[0] == b[0]
    ensures DiffersAt(a, b, k + 1) <==> DiffersAt(a[1..], b[1..], k)
  {
    if k + 1 <= |a| && k + 1 <= |b| {
      assert a[..k + 1] == [a[0]] + a[1..][..k] && b[..k + 1] == [b[0]] + b[1..][..k];
    }
  }

  // ---------------------------------------------------------------- operations on the member list

  /** The last member takes the place of the removed one. */
  function Removed<T>(ms: seq<T>, i: nat): (r: seq<T>)
    requires i < |ms|
    ensures |r| == |ms| - 1
  {
    var n := |ms| - 1;
    if i == n then ms[..n] else ms[..n][i := ms[n]]
  }

  function Erased<T>(ms: seq<T>, first: nat, last: nat): seq<T>
    requires first <= last <= |ms|
  {
    ms[..first] + ms[last..]
  }

  predicate AreNamed(ms: seq<Member>) {
    forall k | 0 <= k < |ms| :: ms[k].name.StringValue?
  }

  /** Removing by exchange keeps all members but the removed one. */
  lemma RemovedMembers(ms: seq<Member>, i: nat)
    requires i < |ms|
    ensures multiset(Removed(ms, i)) == multiset(ms) - multiset{ms[i]}
  {
    var n := |ms| - 1;
    assert ms == ms[..n] + [ms[n]];
    if i < n {
      assert ms == ms[..i] + [ms[i]] + ms[i + 1..n] + [ms[n]];
      assert Removed(ms, i) == ms[..i] + [ms[n]] + ms[i + 1..n];
      LastIntoHole(ms[..i], ms[i], ms[i + 1..n], ms[n]);
    } else {
      OneLess(ms[..n], ms[n]);
    }
  }

  /** Every other member stays where it is, but the last one, which fills the hole. */
  lemma RemovedAt<T>(ms: seq<T>, i: nat, k: nat)
    requires i < |ms| && k < |ms| - 1
    ensures |Removed(ms, i)| == |ms| - 1 && Removed(ms, i)[k] == ms[if k == i then |ms| - 1 else k]
  {
  }

  lemma OneLess<T>(a: seq<T>, x: T)
    ensures multiset(a) == multiset(a + [x]) - multiset{x}
  {
  }

  lemma LastIntoHole<T>(a: seq<T>, x: T, b: seq<T>, y: T)
    ensures multiset(a + [y] + b) == multiset(a + [x] + b + [y]) - multiset{x}
  {
  }

  // ---------------------------------------------------------------- the linear form

  class LinearObject {
    var members: seq<Member>

    constructor (ms: seq<Member>)
      requires AreNamed(ms)
      ensures members == ms
    {
      members := ms;
    }

    method AddMember(m: Member)
      requires m.name.StringValue?
      modifies this
      ensures members == old(members) + [m]
    {
      members := members + [m];
    }

    method RemoveMember(i: nat)
      requires i < |members|
      modifies this
      ensures members == Removed(old(members), i)
    {
      var last := |members| - 1;
      if |members| > 1 && i != last {
        members := members[i := members[last]];
      }
      members := members[..last];
    }

    method EraseMembers(first: nat, last: nat)
      requires first <= last <= |members|
      modifies this
      ensures members == Erased(old(members), first, last)
    {
      members := members[..first] + members[last..];
    }

    method Clear()
      modifies this
      ensures members == []
    {
      members := [];
    }

    method Find(name: Text) returns (i: nat)
      ensures i == Equality.Find(members, StringValue(name))
    {
      i := Equality.FindMember(members, StringValue(name));
    }
  }

  // ---------------------------------------------------------------- the indexed form

  /** A node of the multimap. */
  class Entry {
    const key: Text
    var second: nat

    constructor (key: Text, second: nat)
      ensures this.key == key && this.second == second
    {
      this.key, this.second := key, second;
    }
  }

  class MapObject {
    var members: seq<Member>
    var map_: set<Entry>
    var iterators: seq<Entry>

    /** One entry (name of member i, i) per member, and iterator i points to it. */
    ghost predicate Valid()
      reads this, map_
    {
      && AreNamed(members) && |iterators| == |members|
      && (forall i | 0 <= i < |iterators| ::
            iterators[i] in map_ && iterators[i].key == members[i].name.s && iterators[i].second == i)
      && (forall e | e in map_ :: e.second < |iterators| && iterators[e.second] == e)
    }

    constructor ()
      ensures Valid() && members == [] && map_ == {}
    {
      members, map_, iterators := [], {}, [];
    }

    /** `SetObjectRaw`: an index for members that are there already. */
    constructor FromMembers(ms: seq<Member>)
      requires AreNamed(ms)
      ensures Valid() && members == ms && fresh(map_)
    {
      members, map_, iterators := ms, {}, [];
      new;
      for i := 0 to |ms|
        invariant members == ms && |iterators| == i && fresh(map_)
        invariant forall k | 0 <= k < i ::
          iterators[k] in map_ && iterators[k].key == ms[k].name.s && iterators[k].second == k
        invariant forall e | e in map_ :: e.second < i && iterators[e.second] == e
      {
        var e := new Entry(ms[i].name.s, i);
        map_ := map_ + {e};
        iterators := iterators + [e];
      }
    }

    method AddMember(m: Member)
      requires Valid() && m.name.StringValue?
      modifies this
      ensures Valid() && members == old(members) + [m] && fresh(map_ - old(map_))
    {
      var e := new Entry(m.name.s, |members|);
      map_ := map_ + {e};
      iterators := iterators + [e];
      members := members + [m];
    }

    method RemoveMember(mpos: nat)
      requires Valid() && mpos < |members|
      modifies this, map_
      ensures Valid() && members == Removed(old(members), mpos) && map_ <= old(map_)
    {
      map_ := map_ - {iterators[mpos]};
      var last := |members| - 1;
      if |members| > 1 && mpos != last {
        iterators := iterators[mpos := iterators[last]];
        iterators[mpos].second := mpos;
        members := members[mpos := members[last]];
      }
      members := members[..last];
      iterators := iterators[..last];
    }

    /** Take the entries of a range of members out of the map. */
    method DropEntries(first: nat, last: nat)
      requires Valid() && first <= last <= |members|
      modifies this`map_
      ensures map_ <= old(map_)
      ensures forall k | 0 <= k < |iterators| :: iterators[k] in map_ <==> !(first <= k < last)
    {
      for i := first to last
        invariant map_ <= old(map_)
        invariant forall k | 0 <= k < |iterators| :: iterators[k] in map_ <==> !(first <= k < i)
      {
        assert forall k | 0 <= k < |iterators| && k != i :: iterators[k] != iterators[i];
        map_ := map_ - {iterators[i]};
      }
    }

    /** Move the members and iterators behind a range down to its start, one by one. */
    method MoveDown(first: nat, last: nat)
      requires AreNamed(members) && |iterators| == |members| && first < last <= |members|
      requires forall i, j | 0 <= i < j < |iterators| :: iterators[i] != iterators[j]
      requires forall i | 0 <= i < |iterators| :: iterators[i].second == i
      modifies this`members, this`iterators, iterators
      ensures |members| == |iterators| == old(|members|)
      ensures var size := |members| - (last - first);
              && members[..size] == Erased(old(members), first, last)
              && iterators[..size] == Erased(old(iterators), first, last)
              && forall k | 0 <= k < size :: iterators[k].second == k
    {
      hide Shifted;
      ghost var ms, its := members, iterators;
      var itr, next, end := first, last, |members|;
      ShiftStarts(ms, first, last);
      ShiftStarts(its, first, last);
      while next != end
        invariant last <= next <= end == |ms| == |its| && next - itr == last - first
        invariant members == Shifted(ms, first, last, next) && iterators == Shifted(its, first, last, next)
        invariant forall k | 0 <= k < |its| :: its[k].second == if last <= k < next then k - (last - first) else k
      {
        ShiftStep(ms, first, last, next);
        ShiftStep(its, first, last, next);
        members := members[itr := members[next]];
        iterators := iterators[itr := iterators[next]];
        iterators[itr].second := itr;
        itr, next := itr + 1, next + 1;
      }
      ShiftEnds(ms, first, last);
      ShiftEnds(its, first, last);
      forall k | 0 <= k < end - (last - first) ensures iterators[k].second == k {
        assert iterators[..end - (last - first)][k] == its[if k < first then k else k + (last - first)];
      }
    }

    method EraseMembers(first: nat, last: nat)
      requires Valid() && first <= last <= |members|
      modifies this, map_
      ensures Valid() && members == Erased(old(members), first, last) && map_ <= old(map_)
    {
      hide Erased;
      ghost var ms, its := members, iterators;
      DropEntries(first, last);
      if first != last {
        MoveDown(first, last);
      } else {
        ErasedNothing(ms, first);
        ErasedNothing(its, first);
      }
      var d := last - first;
      members := members[..|members| - d];
      iterators := iterators[..|iterators| - d];
      forall i | 0 <= i < |iterators|
        ensures members[i].name.StringValue? && iterators[i] in map_ && iterators[i].key == members[i].name.s
      {
        ghost var l := if i < first then i else i + d;
        ErasedAt(ms, first, last, l);
        ErasedAt(its, first, last, l);
        assert its[l] in map_ && its[l].key == ms[l].name.s;
      }
      forall e | e in map_ ensures e.second < |iterators| && iterators[e.second] == e {
        ghost var k := old(e.second);
        assert its[k] == e && !(first <= k < last);
        ErasedAt(its, first, last, k);
      }
    }

    method Clear()
      requires Valid()
      modifies this
      ensures Valid() && members == [] && map_ == {}
    {
      for i := 0 to |members|
        invariant members == old(members) && iterators == old(iterators) && map_ <= old(map_)
        invariant forall k | 0 <= k < |iterators| :: iterators[k] in map_ <==> i <= k
      {
        map_ := map_ - {iterators[i]};
      }
      members, iterators := [], [];
    }

    /** `map->find`: some entry whose key is neither less nor greater, or the end. */
    method Find(name: Text) returns (i: nat)
      requires Valid()
      ensures i <= |members|
      ensures i < |members| ==> members[i].name == StringValue(name)
      ensures i == |members| ==> forall k | 0 <= k < |members| :: members[k].name != StringValue(name)
      ensures DistinctNames(members) ==> i == Equality.Find(members, StringValue(name))
    {
      if e :| e in map_ && !Less(e.key, name) && !Less(name, e.key) {
        LessIsTotal(e.key, name);
        i := e.second;
      } else {
        i := |members|;
        forall k | 0 <= k < |members| ensures members[k].name != StringValue(name) {
          assert iterators[k] in map_;
          LessIsTotal(iterators[k].key, name);
        }
      }
    }
  }

  lemma ErasedNothing<T>(s: seq<T>, at: nat)
    requires at <= |s|
    ensures Erased(s, at, at) == s
  {
  }

  /** Members before the range stay, and those behind it move down by its length. */
  lemma ErasedAt<T>(s: seq<T>, first: nat, last: nat, k: nat)
    requires first <= last <= |s| && k < |s| && !(first <= k < last)
    ensures |Erased(s, first, last)| == |s| - (last - first)
    ensures Erased(s, first, last)[if k < first then k else k - (last - first)] == s[k]
  {
  }

  /** The items from `last` up to `next` have moved down to `first`; behind them nothing has changed yet. */
  function Shifted<T>(s: seq<T>, first: nat, last: nat, next: nat): (r: seq<T>)
    requires first <= last <= next <= |s|
    ensures |r| == |s|
  {
    s[..first] + s[last..next] + s[first + (next - last)..]
  }

  lemma ShiftStarts<T>(s: seq<T>, first: nat, last: nat)
    requires first <= last <= |s|
    ensures Shifted(s, first, last, last) == s
  {
  }

  lemma ShiftStep<T>(s: seq<T>, first: nat, last: nat, next: nat)
    requires first < last <= next < |s|
    ensures var r := Shifted(s, first, last, next);
            r[next] == s[next] && r[first + (next - last) := r[next]] == Shifted(s, first, last, next + 1)
  {
    var i := first + (next - last);
    assert s[last..next + 1] == s[last..next] + [s[next]];
    assert s[i..] == [s[i]] + s[i + 1..];
  }

  lemma ShiftEnds<T>(s: seq<T>, first: nat, last: nat)
    requires first <= last <= |s|
    ensures Shifted(s, first, last, |s|)[..|s| - (last - first)] == Erased(s, first, last)
  {
  }

  // ---------------------------------------------------------------- runs

  datatype Operation =
    | Add(m: Member)
    | Remove(i: nat)
    | Erase(first: nat, last: nat)
    | Clear

  /** The guards of the public operations. */
  predicate Allowed(ms: seq<Member>, op: Operation) {
    match op
    case Add(m) => m.name.StringValue?
    case Remove(i) => i < |ms|
    case Erase(first, last) => first <= last <= |ms|
    case Clear => true
  }

  function Apply(ms: seq<Member>, op: Operation): seq<Member>
    requires Allowed(ms, op)
  {
    match op
    case Add(m) => ms + [m]
    case Remove(i) => Removed(ms, i)
    case Erase(first, last) => Erased(ms, first, last)
    case Clear => []
  }

  /** The members after a run; None if a guard fails on the way. */
  function Applied(ops: seq<Operation>): Option<seq<Member>> {
    if ops == [] then Some([])
    else
      match Applied(ops[..|ops| - 1])
      case None => None
      case Some(ms) => if Allowed(ms, ops[|ops| - 1]) then Some(Apply(ms, ops[|ops| - 1])) else None
  }

  /** The same operations on both forms, up to the first whose guard fails: they hold the same members throughout. */
  method RunBoth(ops: seq<Operation>) returns (linear: LinearObject, indexed: MapObject, done: nat)
    ensures indexed.Valid() && linear.members == indexed.members && done <= |ops|
    ensures Applied(ops[..done]) == Some(linear.members)
    ensures done < |ops| ==> Applied(ops[..done + 1]).None?
  {
    linear := new LinearObject([]);
    indexed := new MapObject();
    done := 0;
    while done < |ops| && Allowed(linear.members, ops[done])
      invariant done <= |ops| && fresh(linear) && fresh(indexed) && fresh(indexed.map_)
      invariant indexed.Valid() && linear.members == indexed.members
      invariant Applied(ops[..done]) == Some(linear.members)
    {
      assert ops[..done + 1][..done] == ops[..done];
      match ops[done] {
        case Add(m) =>
          linear.AddMember(m);
          indexed.AddMember(m);
        case Remove(i) =>
          linear.RemoveMember(i);
          indexed.RemoveMember(i);
        case Erase(first, last) =>
          linear.EraseMembers(first, last);
          indexed.EraseMembers(first, last);
        case Clear =>
          linear.Clear();
          indexed.Clear();
      }
      done := done + 1;
    }
    assert done < |ops| ==> ops[..done + 1][..done] == ops[..done];
  }
}
