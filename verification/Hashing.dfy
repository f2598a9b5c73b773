/**
  The hash handler for enumerations and unique items: a stack of 64-bit codes. Every value leaves exactly one
  code, and the code depends neither on the order of object members nor on which event reported an integer.
 */
module Hashing {
  import opened Bytes
  import opened Events
  import opened Fnv
  import opened Values
  import opened Reordering

  /** The eight bytes of a double that each integer type is cast to, and the sixteen bytes kept for a double. */
  datatype Conversions = Conversions(
    ofInt: int32 -> Text,
    ofUint: uint32 -> Text,
    ofInt64: int64 -> Text,
    ofUint64: uint64 -> Text,
    ofReal: Text -> Text)

  /** A cast to double depends on the integer only: widening it first, or changing its sign type, makes no difference. */
  ghost predicate CastsAgree(conv: Conversions) {
    && (forall i: int32 :: conv.ofInt(i) == conv.ofInt64(i))
    && (forall u: uint32 :: conv.ofUint(u) == conv.ofUint64(u))
    && (forall i: int64 | i >= 0 :: conv.ofInt64(i) == conv.ofUint64(i))
  }

  const BASIS: Code := 0x8422_2325_CBF2_9CE4
  const NULL_TYPE: Code := 0
  const FALSE_TYPE: Code := 1
  const TRUE_TYPE: Code := 2
  const OBJECT_TYPE: Code := 3
  const ARRAY_TYPE: Code := 4
  const STRING_TYPE: Code := 5
  const NUMBER_TYPE: Code := 6

  /** The hash of a run of bytes, from h on. */
  function HashBytes(h: Code, data: Text): Code {
    if data == [] then h else Hash(HashBytes(h, data[..|data| - 1]), data[|data| - 1])
  }

  function Buffer(kind: Code, data: Text): Code {
    HashBytes(Hash(BASIS, kind), data)
  }

  function LittleEndian(w: nat, n: nat): Text {
    if n == 0 then [] else [w % 256] + LittleEndian(w / 256, n - 1)
  }

  /** A 32-bit integer assigned to the signed 64-bit half of the union: the sign bit fills the upper word. */
  function SignExtended(i: int32): uint64 {
    var low: uint32 := if i < 0 then i + 0x1_0000_0000 else i;
    (if low >= 0x8000_0000 then 0xFFFF_FFFF_0000_0000 else 0) + low
  }

  /** The bytes of the `Number` struct as each handler fills it: the integer word, then the double. */
  function NumberBytes(conv: Conversions, e: Event): Text
    requires IsNumberEvent(e)
  {
    if e.Int? then LittleEndian(SignExtended(e.i), 8) + conv.ofInt(e.i)
    else if e.Uint? then LittleEndian(e.u, 8) + conv.ofUint(e.u)
    else if e.Int64? then LittleEndian(Word(e.i64), 8) + conv.ofInt64(e.i64)
    else if e.Uint64? then LittleEndian(e.u64, 8) + conv.ofUint64(e.u64)
    else conv.ofReal(e.token)
  }

  function LeafCode(conv: Conversions, e: Event): Code
    requires IsLeaf(e)
  {
    if e.Null? then Buffer(NULL_TYPE, [])
    else if e.Bool? then Buffer(if e.b then TRUE_TYPE else FALSE_TYPE, [])
    else if e.String? || e.Key? then Buffer(STRING_TYPE, e.s)
    else Buffer(NUMBER_TYPE, NumberBytes(conv, e))
  }

  /** Exclusive or over the members, so that their order plays no part. */
  function XorAll(xs: seq<Code>): Code {
    if xs == [] then 0 else Xor(XorAll(xs[..|xs| - 1]), xs[|xs| - 1])
  }

  function PairCodes(kv: seq<Code>): (r: seq<Code>)
    requires |kv| % 2 == 0
    ensures |r| == |kv| / 2
  {
    seq(|kv| / 2, i requires 0 <= i < |kv| / 2 => Hash(kv[2 * i], kv[2 * i + 1]))
  }

  function ObjectCode(pairs: seq<Code>): Code {
    Xor(Hash(0, OBJECT_TYPE), XorAll(pairs))
  }

  /** A chain over the elements, so that their order matters. */
  function ArrayCode(xs: seq<Code>): Code {
    if xs == [] then Hash(0, ARRAY_TYPE) else Hash(ArrayCode(xs[..|xs| - 1]), xs[|xs| - 1])
  }

  function Handle(conv: Conversions, stack: seq<Code>, e: Event): Option<seq<Code>> {
    match e
    case StartObject => Some(stack)
    case StartArray => Some(stack)
    case EndObject(n) =>
      if |stack| < 2 * n then None
      else
        var k := |stack| - 2 * n;
        Some(stack[..k] + [ObjectCode(PairCodes(stack[k..]))])
    case EndArray(n) =>
      if |stack| < n then None
      else
        var k := |stack| - n;
        Some(stack[..k] + [ArrayCode(stack[k..])])
    case _ => Some(stack + [LeafCode(conv, e)])
  }

  function HashRun(conv: Conversions, stack: seq<Code>, es: seq<Event>): Option<seq<Code>> {
    if es == [] then Some(stack)
    else
      match HashRun(conv, stack, es[..|es| - 1])
      case None => None
      case Some(st) => Handle(conv, st, es[|es| - 1])
  }

  // ---------------------------------------------------------------- one code per value

  /** The code of a value. */
  function CodeOf(conv: Conversions, v: Value): Code
    requires Valid(v)
  {
    match v
    case NullValue => Buffer(NULL_TYPE, [])
    case FalseValue => Buffer(FALSE_TYPE, [])
    case TrueValue => Buffer(TRUE_TYPE, [])
    case StringValue(s) => Buffer(STRING_TYPE, s)
    case NumberValue(n) => Buffer(NUMBER_TYPE, NumberBytes(conv, NumberEvent(n)))
    case ArrayValue(es) => ArrayCode(CodesOf(conv, es))
    case ObjectValue(ms) => ObjectCode(MemberCodes(conv, ms))
  }

  function CodesOf(conv: Conversions, es: seq<Value>): (r: seq<Code>)
    requires ValidElements(es)
    ensures |r| == |es|
  {
    if es == [] then [] else CodesOf(conv, es[..|es| - 1]) + [CodeOf(conv, es[|es| - 1])]
  }

  function MemberCode(conv: Conversions, m: Member): Code
    requires m.name.StringValue? && Valid(m.value)
  {
    Hash(Buffer(STRING_TYPE, m.name.s), CodeOf(conv, m.value))
  }

  function MemberCodes(conv: Conversions, ms: seq<Member>): (r: seq<Code>)
    requires ValidMembers(ms)
    ensures |r| == |ms|
  {
    if ms == [] then [] else MemberCodes(conv, ms[..|ms| - 1]) + [MemberCode(conv, ms[|ms| - 1])]
  }

  lemma {:induction false} RunAppend(conv: Conversions, stack: seq<Code>, a: seq<Event>, b: seq<Event>)
    requires HashRun(conv, stack, a).Some?
    ensures HashRun(conv, stack, a + b) == HashRun(conv, HashRun(conv, stack, a).value, b)
  {
    hide Handle;
    if b == [] {
      assert a + b == a;
    } else {
      assert (a + b)[..|a + b| - 1] == a + b[..|b| - 1];
      RunAppend(conv, stack, a, b[..|b| - 1]);
    }
  }

  lemma RunOne(conv: Conversions, stack: seq<Code>, e: Event)
    ensures HashRun(conv, stack, [e]) == Handle(conv, stack, e)
    ensures HashRun(conv, stack, []) == Some(stack)
  {
    assert [e][..0] == [];
  }

  /** Replaying a value pushes exactly its code. */
  lemma {:induction false} OneCodePerValue(conv: Conversions, stack: seq<Code>, v: Value)
    requires Valid(v)
    ensures HashRun(conv, stack, Replay(v)) == Some(stack + [CodeOf(conv, v)])
    decreases v
  {
    hide HashRun, Buffer, ArrayCode, ObjectCode, PairCodes, NumberBytes;
    match v
    case ArrayValue(es) =>
      ElementsHashed(conv, stack, es);
      ContainerHashed(conv, stack, StartArray, ReplayElements(es), CodesOf(conv, es), EndArray(|es|));
    case ObjectValue(ms) =>
      var kv := MembersHashed(conv, stack, ms);
      ContainerHashed(conv, stack, StartObject, ReplayMembers(ms), kv, EndObject(|ms|));
    case _ =>
      RunOne(conv, stack, Replay(v)[0]);
      LeafHashed(conv, v);
  }

  lemma LeafHashed(conv: Conversions, v: Value)
    requires Valid(v) && !v.ArrayValue? && !v.ObjectValue?
    ensures |Replay(v)| == 1 && IsLeaf(Replay(v)[0]) && LeafCode(conv, Replay(v)[0]) == CodeOf(conv, v)
  {
    hide Buffer, NumberBytes;
  }

  lemma ContainerHashed(conv: Conversions, stack: seq<Code>, open: Event, inner: seq<Event>, codes: seq<Code>, close: Event)
    requires (open.StartArray? && close == EndArray(|codes|))
          || (open.StartObject? && |codes| % 2 == 0 && close == EndObject(|codes| / 2))
    requires HashRun(conv, stack, inner) == Some(stack + codes)
    ensures HashRun(conv, stack, [open] + inner + [close]) ==
              Some(stack + [if open.StartArray? then ArrayCode(codes) else ObjectCode(PairCodes(codes))])
  {
    hide HashRun, ArrayCode, ObjectCode, PairCodes;
    RunOne(conv, stack, open);
    RunAppend(conv, stack, [open], inner);
    RunAppend(conv, stack, [open] + inner, [close]);
    RunOne(conv, stack + codes, close);
    assert (stack + codes)[|stack|..] == codes && (stack + codes)[..|stack|] == stack;
  }

  lemma {:induction false} ElementsHashed(conv: Conversions, stack: seq<Code>, es: seq<Value>)
    requires ValidElements(es)
    ensures HashRun(conv, stack, ReplayElements(es)) == Some(stack + CodesOf(conv, es))
    decreases es
  {
    hide HashRun, CodeOf, Replay, Valid;
    if es == [] {
      RunOne(conv, stack, Event.Null);
      assert stack + [] == stack;
    } else {
      var n := |es| - 1;
      ElementsHashed(conv, stack, es[..n]);
      OneCodePerValue(conv, stack + CodesOf(conv, es[..n]), es[n]);
      RunAppend(conv, stack, ReplayElements(es[..n]), Replay(es[n]));
      assert stack + CodesOf(conv, es[..n]) + [CodeOf(conv, es[n])] == stack + CodesOf(conv, es);
    }
  }

  lemma {:induction false} MemberHashed(conv: Conversions, stack: seq<Code>, m: Member)
    requires m.name.StringValue? && Valid(m.value)
    ensures HashRun(conv, stack, ReplayMember(m)) == Some(stack + [Buffer(STRING_TYPE, m.name.s), CodeOf(conv, m.value)])
    decreases m
  {
    hide HashRun, CodeOf, Replay, Valid, Buffer;
    var key := Key(m.name.s);
    var code := Buffer(STRING_TYPE, m.name.s);
    RunOne(conv, stack, key);
    RunAppend(conv, stack, [key], Replay(m.value));
    OneCodePerValue(conv, stack + [code], m.value);
    assert stack + [code] + [CodeOf(conv, m.value)] == stack + [code, CodeOf(conv, m.value)];
  }

  lemma {:induction false} MembersHashed(conv: Conversions, stack: seq<Code>, ms: seq<Member>) returns (kv: seq<Code>)
    requires ValidMembers(ms)
    ensures |kv| == 2 * |ms| && HashRun(conv, stack, ReplayMembers(ms)) == Some(stack + kv)
    ensures PairCodes(kv) == MemberCodes(conv, ms)
    decreases ms
  {
    hide HashRun, CodeOf, ReplayMember, Valid, Buffer, Hash;
    if ms == [] {
      kv := [];
      RunOne(conv, stack, Event.Null);
      assert stack + [] == stack;
      assert PairCodes(kv) == [];
    } else {
      var n := |ms| - 1;
      var before := MembersHashed(conv, stack, ms[..n]);
      var pair := [Buffer(STRING_TYPE, ms[n].name.s), CodeOf(conv, ms[n].value)];
      kv := before + pair;
      MemberHashed(conv, stack + before, ms[n]);
      RunAppend(conv, stack, ReplayMembers(ms[..n]), ReplayMember(ms[n]));
      assert stack + before + pair == stack + kv;
      PairAppended(before, pair[0], pair[1]);
    }
  }

  lemma PairAppended(kv: seq<Code>, k: Code, v: Code)
    requires |kv| % 2 == 0
    ensures PairCodes(kv + [k, v]) == PairCodes(kv) + [Hash(k, v)]
  {
    hide Hash;
  }

  // ---------------------------------------------------------------- the event that reported an integer

  /** Equal but for the kind of integer event. */
  predicate SameReport(e: Event, e': Event) {
    if IsNumberEvent(e) && IsNumberEvent(e') && !e.Double? && !e'.Double? then EventInteger(e) == EventInteger(e')
    else e == e'
  }

  /** If the casts agree, all integer events for the same number hash the same bytes. */
  lemma SameNumberBytes(conv: Conversions, e: Event, e': Event)
    requires CastsAgree(conv) && IsNumberEvent(e) && IsNumberEvent(e') && !e.Double? && !e'.Double?
    requires EventInteger(e) == EventInteger(e')
    ensures NumberBytes(conv, e) == NumberBytes(conv, e')
  {
    hide LittleEndian;
  }

  lemma {:induction false} LittleEndianLength(w: nat, n: nat)
    ensures |LittleEndian(w, n)| == n
  {
    if n > 0 {
      LittleEndianLength(w / 256, n - 1);
    }
  }

  /** The union words always agree, so the bytes do exactly when the casts to double do. */
  lemma KindIgnoredIffCastsAgree(conv: Conversions)
    ensures CastsAgree(conv) <==>
              forall e, e' | SameReport(e, e') && IsNumberEvent(e) && IsNumberEvent(e') ::
                NumberBytes(conv, e) == NumberBytes(conv, e')
  {
    hide LittleEndian;
    if forall e, e' | SameReport(e, e') && IsNumberEvent(e) && IsNumberEvent(e') ::
        NumberBytes(conv, e) == NumberBytes(conv, e') {
      forall i: int32 ensures conv.ofInt(i) == conv.ofInt64(i) {
        SameCast(conv, Int(i), Int64(i), conv.ofInt(i), conv.ofInt64(i));
      }
      forall u: uint32 ensures conv.ofUint(u) == conv.ofUint64(u) {
        SameCast(conv, Uint(u), Uint64(u), conv.ofUint(u), conv.ofUint64(u));
      }
      forall i: int64 | i >= 0 ensures conv.ofInt64(i) == conv.ofUint64(i) {
        SameCast(conv, Int64(i), Uint64(i), conv.ofInt64(i), conv.ofUint64(i));
      }
    }
  }

  lemma SameCast(conv: Conversions, e: Event, e': Event, a: Text, b: Text)
    requires IsNumberEvent(e) && IsNumberEvent(e') && NumberBytes(conv, e) == NumberBytes(conv, e')
    requires exists w: nat :: NumberBytes(conv, e) == LittleEndian(w, 8) + a
    requires exists w: nat :: NumberBytes(conv, e') == LittleEndian(w, 8) + b
    ensures a == b
  {
    var v: nat :| NumberBytes(conv, e) == LittleEndian(v, 8) + a;
    var w: nat :| NumberBytes(conv, e') == LittleEndian(w, 8) + b;
    LittleEndianLength(v, 8);
    LittleEndianLength(w, 8);
    assert a == NumberBytes(conv, e)[8..];
    assert b == NumberBytes(conv, e')[8..];
  }

  /** The codes do not depend on which integer event reported a number. */
  lemma {:induction false} IntegerKindIsIgnored(conv: Conversions, stack: seq<Code>, es: seq<Event>, es': seq<Event>)
    requires CastsAgree(conv)
    requires |es| == |es'| && forall k | 0 <= k < |es| :: SameReport(es[k], es'[k])
    ensures HashRun(conv, stack, es) == HashRun(conv, stack, es')
  {
    hide Buffer, LittleEndian, ObjectCode, ArrayCode, PairCodes, NumberBytes;
    if es != [] {
      var n := |es| - 1;
      IntegerKindIsIgnored(conv, stack, es[..n], es'[..n]);
      if es[n] != es'[n] {
        SameNumberBytes(conv, es[n], es'[n]);
      }
    }
  }

  // ---------------------------------------------------------------- the order of members

  lemma Exchange(x: Code, y: Code, z: Code)
    ensures Xor(Xor(x, y), z) == Xor(Xor(x, z), y)
  {
    hide Xor;
    Regroup(x, y, z);
    Regroup(x, z, y);
    Commute(y, z);
  }

  lemma XorStep(xs: seq<Code>)
    requires xs != []
    ensures XorAll(xs) == Xor(XorAll(xs[..|xs| - 1]), xs[|xs| - 1])
  {
  }

  /** Taking one summand out. */
  lemma {:induction false} XorWithout(ys: seq<Code>, k: nat)
    requires k < |ys|
    ensures XorAll(ys) == Xor(XorAll(Without(ys, k)), ys[k])
  {
    hide Xor;
    var n := |ys| - 1;
    if k == n {
      assert Without(ys, k) == ys[..n];
    } else {
      XorWithout(ys[..n], k);
      var rest := Without(ys, k);
      assert rest[..n - 1] == Without(ys[..n], k) && rest[n - 1] == ys[n] && ys[..n][k] == ys[k];
      XorStep(rest);
      XorStep(ys);
      hide XorAll, Without;
      Exchange(XorAll(Without(ys[..n], k)), ys[k], ys[n]);
    }
  }

  lemma {:induction false} XorPermuted(xs: seq<Code>, ys: seq<Code>, p: seq<nat>)
    requires Permuted(xs, ys, p)
    ensures XorAll(xs) == XorAll(ys)
    decreases |xs|
  {
    hide Xor;
    if xs != [] {
      var n := |xs| - 1;
      var q := DropLast(xs, ys, p);
      XorPermuted(xs[..n], Without(ys, p[n]), q);
      XorWithout(ys, p[n]);
    }
  }

  lemma {:induction false} CodesAt(conv: Conversions, es: seq<Value>, i: nat)
    requires ValidElements(es) && i < |es|
    ensures CodesOf(conv, es)[i] == CodeOf(conv, es[i])
  {
    hide CodeOf, Valid;
    if i < |es| - 1 {
      CodesAt(conv, es[..|es| - 1], i);
    }
  }

  lemma {:induction false} MemberCodesAt(conv: Conversions, ms: seq<Member>, i: nat)
    requires ValidMembers(ms) && i < |ms|
    ensures MemberCodes(conv, ms)[i] == MemberCode(conv, ms[i])
  {
    hide MemberCode, Valid;
    if i < |ms| - 1 {
      MemberCodesAt(conv, ms[..|ms| - 1], i);
    }
  }

  /** Permuting object members, at any depth, does not change the code. */
  lemma {:induction false} MemberOrderIsIgnored(conv: Conversions, a: Value, b: Value)
    requires Valid(a) && Valid(b) && Shuffled(a, b)
    ensures CodeOf(conv, a) == CodeOf(conv, b)
    decreases a
  {
    hide Xor, XorAll, Hash, ArrayCode, Buffer, NumberBytes;
    if a.ArrayValue? {
      ElementCodesAlike(conv, a.elements, b.elements);
    } else if a.ObjectValue? {
      MemberCodesAlike(conv, a.members, b.members);
    }
  }

  lemma {:induction false} ElementCodesAlike(conv: Conversions, es: seq<Value>, fs: seq<Value>)
    requires ValidElements(es) && ValidElements(fs) && Shuffled(ArrayValue(es), ArrayValue(fs))
    ensures CodesOf(conv, es) == CodesOf(conv, fs)
    decreases es
  {
    hide CodeOf;
    forall i | 0 <= i < |es| ensures CodesOf(conv, es)[i] == CodesOf(conv, fs)[i] {
      MemberOrderIsIgnored(conv, es[i], fs[i]);
      CodesAt(conv, es, i);
      CodesAt(conv, fs, i);
    }
  }

  lemma {:induction false} MemberCodeAlike(conv: Conversions, m: Member, n: Member)
    requires m.name.StringValue? && Valid(m.value) && Valid(n.value) && m.name == n.name && Shuffled(m.value, n.value)
    ensures MemberCode(conv, m) == MemberCode(conv, n)
    decreases m
  {
    MemberOrderIsIgnored(conv, m.value, n.value);
  }

  lemma {:induction false} MemberCodesAlike(conv: Conversions, ms: seq<Member>, ns: seq<Member>)
    requires ValidMembers(ms) && ValidMembers(ns) && Shuffled(ObjectValue(ms), ObjectValue(ns))
    ensures XorAll(MemberCodes(conv, ms)) == XorAll(MemberCodes(conv, ns))
    decreases ms
  {
    var p :| IsPermutation(p, |ms|)
      && forall i | 0 <= i < |ms| :: ms[i].name == ns[p[i]].name && Shuffled(ms[i].value, ns[p[i]].value);
    hide MemberCode, Shuffled, MemberCodes, Valid, XorAll;
    forall i | 0 <= i < |ms| ensures MemberCodes(conv, ms)[i] == MemberCodes(conv, ns)[p[i]] {
      MemberCodeAlike(conv, ms[i], ns[p[i]]);
      MemberCodesAt(conv, ms, i);
      MemberCodesAt(conv, ns, p[i]);
    }
    XorPermuted(MemberCodes(conv, ms), MemberCodes(conv, ns), p);
  }

  // ---------------------------------------------------------------- the handler object

  class Hasher {
    const conv: Conversions
    var stack: seq<Code>

    constructor (conv: Conversions)
      ensures this.conv == conv && stack == []
    {
      this.conv := conv;
      stack := [];
    }

    method WriteBuffer(kind: Code, data: Text)
      modifies this
      ensures stack == old(stack) + [Buffer(kind, data)]
    {
      hide Hash;
      var h := Hash(BASIS, kind);
      for i := 0 to |data|
        invariant h == HashBytes(Hash(BASIS, kind), data[..i]) && stack == old(stack)
      {
        assert data[..i + 1][..i] == data[..i];
        h := Hash(h, data[i]);
      }
      assert data[..|data|] == data;
      stack := stack + [h];
    }

    method Leaf(e: Event)
      requires IsLeaf(e)
      modifies this
      ensures Some(stack) == Handle(conv, old(stack), e)
    {
      if e.Null? {
        WriteBuffer(NULL_TYPE, []);
      } else if e.Bool? {
        WriteBuffer(if e.b then TRUE_TYPE else FALSE_TYPE, []);
      } else if e.String? || e.Key? {
        WriteBuffer(STRING_TYPE, e.s);
      } else {
        WriteBuffer(NUMBER_TYPE, NumberBytes(conv, e));
      }
    }

    method EndObject(memberCount: nat)
      requires |stack| >= 2 * memberCount
      modifies this
      ensures Some(stack) == Handle(conv, old(stack), Event.EndObject(memberCount))
    {
      hide Hash, Xor, XorAll;
      var k := |stack| - 2 * memberCount;
      var kv := stack[k..];
      var h := Hash(0, OBJECT_TYPE);
      ghost var pairs := PairCodes(kv);
      ObjectCodeStep(pairs, 0);
      for i := 0 to memberCount
        invariant h == ObjectCode(pairs[..i]) && stack == old(stack)
      {
        ObjectCodeStep(pairs, i);
        hide ObjectCode;
        h := Xor(h, Hash(kv[i * 2], kv[i * 2 + 1]));
      }
      assert pairs[..memberCount] == pairs;
      stack := stack[..k] + [h];
    }

    method EndArray(elementCount: nat)
      requires |stack| >= elementCount
      modifies this
      ensures Some(stack) == Handle(conv, old(stack), Event.EndArray(elementCount))
    {
      hide Hash;
      var k := |stack| - elementCount;
      var es := stack[k..];
      var h := Hash(0, ARRAY_TYPE);
      for i := 0 to elementCount
        invariant h == ArrayCode(es[..i]) && stack == old(stack)
      {
        assert es[..i + 1][..i] == es[..i];
        h := Hash(h, es[i]);
      }
      assert es[..elementCount] == es;
      stack := stack[..k] + [h];
    }
  }

  lemma ObjectCodeStep(pairs: seq<Code>, i: nat)
    requires i <= |pairs|
    ensures ObjectCode(pairs[..0]) == Hash(0, OBJECT_TYPE)
    ensures i < |pairs| ==> ObjectCode(pairs[..i + 1]) == Xor(ObjectCode(pairs[..i]), pairs[i])
  {
    hide Hash, Xor;
    Regroup(Hash(0, OBJECT_TYPE), 0, 0);
    if i < |pairs| {
      assert pairs[..i + 1][..i] == pairs[..i];
      Regroup(Hash(0, OBJECT_TYPE), XorAll(pairs[..i]), pairs[i]);
    }
  }
}
