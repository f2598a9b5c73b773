/**
  What a hash code does depend on: every byte of a string and its place, every element of an array, every name and value
  of an object, and so every value at every depth.
 */
module HashCodes {
  import opened Bytes
  import opened Events
  import opened Fnv
  import opened Values
  import opened Hashing
  import opened PointerTrees

  // ---------------------------------------------------------------- strings

  lemma {:induction false} HashBytesCancels(h: Code, k: Code, data: Text)
    ensures HashBytes(h, data) == HashBytes(k, data) <==> h == k
  {
    hide Hash;
    if data != [] {
      var n := |data| - 1;
      HashBytesCancels(h, k, data[..n]);
      HashCancels(HashBytes(h, data[..n]), HashBytes(k, data[..n]), data[n], 0);
    }
  }

  lemma {:induction false} HashBytesAppend(h: Code, a: Text, b: Text)
    ensures HashBytes(h, a + b) == HashBytes(HashBytes(h, a), b)
  {
    hide Hash;
    if b == [] {
      assert a + b == a;
    } else {
      assert (a + b)[..|a + b| - 1] == a + b[..|b| - 1];
      HashBytesAppend(h, a, b[..|b| - 1]);
    }
  }

  lemma ShortText(h: Code, x: byte, y: byte)
    ensures HashBytes(h, [x]) == Hash(h, x) && HashBytes(h, [x, y]) == Hash(Hash(h, x), y)
  {
    hide Hash;
    assert [x][..0] == [] && [x, y][..1] == [x];
  }

  lemma Inserted(kind: Code, a: Text, b: Text, c: Text)
    ensures Buffer(kind, a + b + c) == HashBytes(HashBytes(Buffer(kind, a), b), c)
  {
    hide Hash, HashBytes;
    HashBytesAppend(Hash(BASIS, kind), a + b, c);
    HashBytesAppend(Hash(BASIS, kind), a, b);
  }

  /** Changing one byte of a string always changes its code. */
  lemma ByteCounts(kind: Code, a: Text, x: byte, y: byte, c: Text)
    ensures Buffer(kind, a + [x] + c) == Buffer(kind, a + [y] + c) <==> x == y
  {
    hide Hash, HashBytes, Buffer;
    var h := Buffer(kind, a);
    Inserted(kind, a, [x], c);
    Inserted(kind, a, [y], c);
    ShortText(h, x, y);
    ShortText(h, y, x);
    HashBytesCancels(Hash(h, x), Hash(h, y), c);
    HashCancels(h, h, x, y);
  }

  /** Exchanging two different neighbours, wherever they stand, always changes the code. */
  lemma ByteOrderCounts(kind: Code, a: Text, x: byte, y: byte, c: Text)
    ensures Buffer(kind, a + [x, y] + c) == Buffer(kind, a + [y, x] + c) <==> x == y
  {
    hide Hash, HashBytes, Buffer;
    var h := Buffer(kind, a);
    Inserted(kind, a, [x, y], c);
    Inserted(kind, a, [y, x], c);
    ShortText(h, x, y);
    ShortText(h, y, x);
    HashBytesCancels(Hash(Hash(h, x), y), Hash(Hash(h, y), x), c);
    if x != y {
      OrderMatters(h, x, y);
    }
  }

  /** The kind of a value is hashed first, and always counts: null, false, true and "" have four different codes. */
  lemma KindCounts(kind: Code, other: Code, data: Text)
    ensures Buffer(kind, data) == Buffer(other, data) <==> kind == other
  {
    hide Hash, HashBytes;
    HashBytesCancels(Hash(BASIS, kind), Hash(BASIS, other), data);
    HashCancels(BASIS, BASIS, kind, other);
  }

  /** Null, false, true and the empty string have four different codes. */
  lemma LeavesDiffer(conv: Conversions)
    ensures var n, f, t, s := CodeOf(conv, NullValue), CodeOf(conv, FalseValue), CodeOf(conv, TrueValue),
                              CodeOf(conv, StringValue([]));
            n != f && n != t && n != s && f != t && f != s && t != s
  {
    hide Buffer;
    KindCounts(NULL_TYPE, FALSE_TYPE, []);
    KindCounts(NULL_TYPE, TRUE_TYPE, []);
    KindCounts(NULL_TYPE, STRING_TYPE, []);
    KindCounts(FALSE_TYPE, TRUE_TYPE, []);
    KindCounts(FALSE_TYPE, STRING_TYPE, []);
    KindCounts(TRUE_TYPE, STRING_TYPE, []);
  }

  // ---------------------------------------------------------------- integers

  lemma {:induction false} LittleEndianCancels(v: nat, w: nat, n: nat, m: nat)
    requires v < m && w < m && m == Pow256(n)
    ensures |LittleEndian(v, n)| == n && (LittleEndian(v, n) == LittleEndian(w, n) <==> v == w)
    decreases n
  {
    if n > 0 {
      LittleEndianCancels(v / 256, w / 256, n - 1, Pow256(n - 1));
      var s, t := LittleEndian(v, n), LittleEndian(w, n);
      assert s[0] == v % 256 && t[0] == w % 256 && s[1..] == LittleEndian(v / 256, n - 1);
      assert t[1..] == LittleEndian(w / 256, n - 1);
    }
  }

  function Pow256(n: nat): nat {
    if n == 0 then 1 else 256 * Pow256(n - 1)
  }

  lemma EightBytes()
    ensures Pow256(8) == WORDS
  {
    assert Pow256(4) == 0x1_0000_0000;
  }

  /** The word an integer event leaves in the union. */
  function WordOf(e: Event): uint64
    requires IsNumberEvent(e) && !e.Double?
  {
    var i := EventInteger(e);
    if i < 0 then i + 0x1_0000_0000_0000_0000 else i
  }

  /** Integers with different words are hashed from different bytes, whatever the casts to double give. */
  lemma IntegerCounts(conv: Conversions, e: Event, f: Event)
    requires IsNumberEvent(e) && !e.Double? && IsNumberEvent(f) && !f.Double?
    ensures |NumberBytes(conv, e)| >= 8 && |NumberBytes(conv, f)| >= 8
    ensures WordOf(e) != WordOf(f) ==> NumberBytes(conv, e)[..8] != NumberBytes(conv, f)[..8]
  {
    EightBytes();
    LittleEndianCancels(WordOf(e), WordOf(f), 8, WORDS);
    LittleEndianCancels(WordOf(f), WordOf(e), 8, WORDS);
    WordFirst(conv, e);
    WordFirst(conv, f);
  }

  lemma WordFirst(conv: Conversions, e: Event)
    requires IsNumberEvent(e) && !e.Double? && |LittleEndian(WordOf(e), 8)| == 8
    ensures |NumberBytes(conv, e)| >= 8 && NumberBytes(conv, e)[..8] == LittleEndian(WordOf(e), 8)
  {
    hide LittleEndian;
  }

  // ---------------------------------------------------------------- arrays and objects

  lemma {:induction false} SameTail(xs: seq<Code>, ys: seq<Code>, c: seq<Code>)
    ensures ArrayCode(xs + c) == ArrayCode(ys + c) <==> ArrayCode(xs) == ArrayCode(ys)
  {
    hide Hash;
    if c == [] {
      assert xs + c == xs && ys + c == ys;
    } else {
      var n := |c| - 1;
      assert xs + c == xs + c[..n] + [c[n]] && ys + c == ys + c[..n] + [c[n]];
      SameTail(xs, ys, c[..n]);
      ArrayCodeStep(xs + c[..n], c[n]);
      ArrayCodeStep(ys + c[..n], c[n]);
      HashCancels(ArrayCode(xs + c[..n]), ArrayCode(ys + c[..n]), c[n], 0);
    }
  }

  lemma ArrayCodeStep(xs: seq<Code>, x: Code)
    ensures ArrayCode(xs + [x]) == Hash(ArrayCode(xs), x)
  {
    hide Hash;
    assert (xs + [x])[..|xs|] == xs;
  }

  /** Putting another element into an array changes its code exactly when the codes of the elements differ. */
  lemma ElementCounts(xs: seq<Code>, i: nat, x: Code)
    requires i < |xs|
    ensures ArrayCode(xs[i := x]) == ArrayCode(xs) <==> x == xs[i]
  {
    hide Hash, ArrayCode;
    var a, c := xs[..i], xs[i + 1..];
    assert xs == a + [xs[i]] + c && xs[i := x] == a + [x] + c;
    ArrayCodeStep(a, x);
    ArrayCodeStep(a, xs[i]);
    SameTail(a + [x], a + [xs[i]], c);
    HashCancels(ArrayCode(a), ArrayCode(a), x, xs[i]);
  }

  /** Exchanging neighbours whose codes differ only in the low byte always changes the code of the array. */
  lemma ElementOrderCounts(a: seq<Code>, x: Code, y: Code, c: seq<Code>)
    requires x / 256 == y / 256
    ensures ArrayCode(a + [x, y] + c) == ArrayCode(a + [y, x] + c) <==> x == y
  {
    hide Hash, ArrayCode;
    ArrayCodeStep(a, x);
    ArrayCodeStep(a, y);
    ArrayCodeStep(a + [x], y);
    ArrayCodeStep(a + [y], x);
    assert a + [x] + [y] == a + [x, y] && a + [y] + [x] == a + [y, x];
    SameTail(a + [x, y], a + [y, x], c);
    if x != y {
      OrderMatters(ArrayCode(a), x, y);
    }
  }

  /** The same for the members of an object, whose codes are combined without order. */
  lemma MemberCounts(xs: seq<Code>, i: nat, x: Code)
    requires i < |xs|
    ensures ObjectCode(xs[i := x]) == ObjectCode(xs) <==> x == xs[i]
  {
    hide Hash, Xor, XorAll;
    var ys := xs[i := x];
    XorWithout(xs, i);
    XorWithout(ys, i);
    assert Without(ys, i) == Without(xs, i);
    XorCancels(x, xs[i], XorAll(Without(xs, i)));
    XorCancels(XorAll(ys), XorAll(xs), Hash(0, OBJECT_TYPE));
  }

  // ---------------------------------------------------------------- values

  lemma ElementReplaced(conv: Conversions, es: seq<Value>, i: nat, x: Value)
    requires ValidElements(es) && Valid(x) && i < |es|
    ensures ValidElements(es[i := x]) && CodesOf(conv, es[i := x]) == CodesOf(conv, es)[i := CodeOf(conv, x)]
  {
    hide Valid, CodeOf, CodesOf;
    var fs := es[i := x];
    forall k | 0 <= k < |es| ensures CodesOf(conv, fs)[k] == CodesOf(conv, es)[i := CodeOf(conv, x)][k] {
      CodesAt(conv, es, k);
      CodesAt(conv, fs, k);
    }
  }

  lemma MemberReplaced(conv: Conversions, ms: seq<Member>, i: nat, m: Member)
    requires ValidMembers(ms) && m.name.StringValue? && Valid(m.value) && i < |ms|
    ensures ValidMembers(ms[i := m]) && MemberCodes(conv, ms[i := m]) == MemberCodes(conv, ms)[i := MemberCode(conv, m)]
  {
    hide Valid, MemberCode, MemberCodes;
    var ns := ms[i := m];
    forall k | 0 <= k < |ms| ensures MemberCodes(conv, ns)[k] == MemberCodes(conv, ms)[i := MemberCode(conv, m)][k] {
      MemberCodesAt(conv, ms, k);
      MemberCodesAt(conv, ns, k);
    }
  }

  /** Putting another child into a value changes its code exactly when the codes of the children differ. */
  lemma ChildCounts(conv: Conversions, v: Value, k: nat, x: Value)
    requires Valid(v) && Valid(x) && HasChild(v, k)
    ensures Valid(WithChild(v, k, x)) && Valid(Child(v, k))
    ensures CodeOf(conv, WithChild(v, k, x)) == CodeOf(conv, v) <==> CodeOf(conv, x) == CodeOf(conv, Child(v, k))
  {
    hide ArrayCode, ObjectCode, Hash, CodesOf, MemberCodes, Buffer, NumberBytes;
    if v.ArrayValue? {
      ElementReplaced(conv, v.elements, k, x);
      CodesAt(conv, v.elements, k);
      ElementCounts(CodesOf(conv, v.elements), k, CodeOf(conv, x));
    } else {
      var m := Member(v.members[k].name, x);
      MemberReplaced(conv, v.members, k, m);
      MemberCodesAt(conv, v.members, k);
      MemberCounts(MemberCodes(conv, v.members), k, MemberCode(conv, m));
      var name := Buffer(STRING_TYPE, m.name.s);
      HashCancels(name, name, CodeOf(conv, x), CodeOf(conv, v.members[k].value));
    }
  }

  /** A value put anywhere into another one changes the code of the whole exactly when it has another code itself. */
  lemma {:induction false} PlaceCounts(conv: Conversions, v: Value, p: seq<nat>, x: Value)
    requires Valid(v) && Valid(x) && IsPath(v, p)
    ensures Valid(Replace(v, p, x)) && Valid(NodeAt(v, p))
    ensures CodeOf(conv, Replace(v, p, x)) == CodeOf(conv, v) <==> CodeOf(conv, x) == CodeOf(conv, NodeAt(v, p))
    decreases |p|
  {
    hide CodeOf, WithChild;
    if p != [] {
      ChildCounts(conv, v, p[0], x);
      PlaceCounts(conv, Child(v, p[0]), p[1..], x);
      ChildCounts(conv, v, p[0], Replace(Child(v, p[0]), p[1..], x));
    }
  }

  /** The same for the name of a member. */
  lemma NameCounts(conv: Conversions, ms: seq<Member>, i: nat, s: Text)
    requires Valid(ObjectValue(ms)) && i < |ms|
    ensures var named := ObjectValue(ms[i := Member(StringValue(s), ms[i].value)]);
            && Valid(named)
            && (CodeOf(conv, named) == CodeOf(conv, ObjectValue(ms)) <==>
                Buffer(STRING_TYPE, s) == Buffer(STRING_TYPE, ms[i].name.s))
  {
    hide ObjectCode, Hash, MemberCodes, Buffer, NumberBytes;
    var m := Member(StringValue(s), ms[i].value);
    MemberReplaced(conv, ms, i, m);
    MemberCodesAt(conv, ms, i);
    MemberCounts(MemberCodes(conv, ms), i, MemberCode(conv, m));
    HashCancels(Buffer(STRING_TYPE, s), Buffer(STRING_TYPE, ms[i].name.s), CodeOf(conv, m.value), 0);
  }

  /** The codes of null, false, true, the empty string, {} and [], as the recurrence of FNV-1a gives them. */
  lemma KnownCodes(conv: Conversions)
    ensures CodeOf(conv, NullValue) == 0x789E_9D39_8D40_976C && CodeOf(conv, FalseValue) == 0x789E_9E39_8D40_991F
    ensures CodeOf(conv, TrueValue) == 0x789E_9F39_8D40_9AD2 && CodeOf(conv, StringValue([])) == 0x789E_9A39_8D40_9253
    ensures CodeOf(conv, ObjectValue([])) == 0x300_0000_0519 && CodeOf(conv, ArrayValue([])) == 0x400_0000_06CC
  {
    hide Times, Xor;
    FirstWords();
    Products();
    WithNothing(Hash(0, OBJECT_TYPE));
    assert MemberCodes(conv, []) == [] && CodesOf(conv, []) == [];
  }

  lemma WithNothing(x: Code)
    ensures Xor(x, 0) == x
  {
    WithZero(x);
  }

  lemma FirstWords()
    ensures Xor(BASIS, NULL_TYPE) == BASIS && Xor(BASIS, FALSE_TYPE) == BASIS + 1 && Xor(BASIS, TRUE_TYPE) == BASIS + 2
    ensures Xor(BASIS, STRING_TYPE) == BASIS - 3 && Xor(0, OBJECT_TYPE) == 3 && Xor(0, ARRAY_TYPE) == 4
  {
    WithZero(BASIS);
    WithZero(BASIS / 2);
    WithZero(BASIS / 4);
    WithZero(BASIS / 8);
    assert BASIS / 2 / 2 == BASIS / 4 && BASIS / 4 / 2 == BASIS / 8;
    assert XorBits(BASIS / 4, 1) == 2 * XorBits(BASIS / 8, 0) + 0;
    assert XorBits(BASIS / 2, 1) == 2 * XorBits(BASIS / 4, 0) + 1;
    assert XorBits(BASIS / 2, 2) == 2 * XorBits(BASIS / 4, 1) + 0;
  }

  lemma Products()
    ensures Times(BASIS) == 0x789E_9D39_8D40_976C && Times(BASIS + 1) == 0x789E_9E39_8D40_991F
    ensures Times(BASIS + 2) == 0x789E_9F39_8D40_9AD2 && Times(BASIS - 3) == 0x789E_9A39_8D40_9253
    ensures Times(3) == 0x300_0000_0519 && Times(4) == 0x400_0000_06CC
  {
  }

  /** [null, false] and [false, null] have different codes. */
  lemma OrderOfElementsCounts(conv: Conversions)
    ensures CodeOf(conv, ArrayValue([NullValue, FalseValue])) != CodeOf(conv, ArrayValue([FalseValue, NullValue]))
  {
    hide *;
    LeafCodes(conv);
    TwoElements(conv, NullValue, FalseValue);
    TwoElements(conv, FalseValue, NullValue);
    LowestBits(Hash(0, ARRAY_TYPE), Hash(BASIS, NULL_TYPE), Hash(BASIS, FALSE_TYPE));
  }

  lemma LeafCodes(conv: Conversions)
    ensures Valid(NullValue) && Valid(FalseValue)
    ensures CodeOf(conv, NullValue) == Hash(BASIS, NULL_TYPE) && CodeOf(conv, FalseValue) == Hash(BASIS, FALSE_TYPE)
  {
    hide Hash;
  }

  lemma Remainders()
    ensures BASIS % 4 == 0 && NULL_TYPE % 4 == 0 && FALSE_TYPE % 4 == 1 && ARRAY_TYPE % 4 == 0
  {
  }

  lemma LowestBits(h: Code, n: Code, f: Code)
    requires h == Hash(0, ARRAY_TYPE) && n == Hash(BASIS, NULL_TYPE) && f == Hash(BASIS, FALSE_TYPE)
    ensures Hash(Hash(h, n), f) != Hash(Hash(h, f), n)
  {
    hide *;
    Remainders();
    HashLow(0, ARRAY_TYPE);
    HashLow(BASIS, NULL_TYPE);
    HashLow(BASIS, FALSE_TYPE);
    HashLow(h, n);
    HashLow(h, f);
    HashLow(Hash(h, n), f);
    HashLow(Hash(h, f), n);
  }

  lemma TwoElements(conv: Conversions, a: Value, b: Value)
    requires Valid(a) && Valid(b)
    ensures CodeOf(conv, ArrayValue([a, b])) == Hash(Hash(Hash(0, ARRAY_TYPE), CodeOf(conv, a)), CodeOf(conv, b))
  {
    hide Hash;
    var es := [a, b];
    assert es[..1] == [a] && es[..1][..0] == [];
    assert CodesOf(conv, es[..1]) == [CodeOf(conv, a)];
    assert CodesOf(conv, es) == [CodeOf(conv, a), CodeOf(conv, b)];
    ArrayCodeStep([], CodeOf(conv, a));
    ArrayCodeStep([CodeOf(conv, a)], CodeOf(conv, b));
    assert [] + [CodeOf(conv, a)] == [CodeOf(conv, a)];
    assert [CodeOf(conv, a)] + [CodeOf(conv, b)] == [CodeOf(conv, a), CodeOf(conv, b)];
  }
}
