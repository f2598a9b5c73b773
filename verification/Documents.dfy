/**
  The document as an event handler: a stack of values on which every closing event gathers the values since its
  opening one. When the counts are right the stack ends with one value, the tree of the events.
 */
module Documents {
  import opened Bytes
  import opened Strings
  import opened Events
  import opened Numbers
  import opened Grammar
  import opened Values
  import opened RecursiveParser
  import opened GrammarAccepted
  import opened Language
  import opened Reader

  // ---------------------------------------------------------------- handler calls

  /** Two stacked values are one member: its name and its value. */
  function Pairs(vs: seq<Value>): seq<Member>
    requires |vs| % 2 == 0
  {
    seq(|vs| / 2, i requires 0 <= i < |vs| / 2 => Member(vs[2 * i], vs[2 * i + 1]))
  }

  /** Replace the values above position k, and the placeholder at it, by one container; None if the stack is too small. */
  function Gather(stack: seq<Value>, e: Event): Option<seq<Value>>
    requires e.EndObject? || e.EndArray?
  {
    var slots := if e.EndObject? then 2 * e.count else e.count;
    if |stack| < slots + 1 then None
    else
      var k := |stack| - slots;
      Some(stack[..k - 1] + [if e.EndObject? then ObjectValue(Pairs(stack[k..])) else ArrayValue(stack[k..])])
  }

  function Handle(stack: seq<Value>, e: Event): Option<seq<Value>> {
    match e
    case StartObject => Some(stack + [ObjectValue([])])
    case StartArray => Some(stack + [ArrayValue([])])
    case EndObject(_) => Gather(stack, e)
    case EndArray(_) => Gather(stack, e)
    case _ => Some(stack + [LeafValue(e)])
  }

  /** The stack after a run of events. */
  function Build(stack: seq<Value>, es: seq<Event>): Option<seq<Value>> {
    if es == [] then Some(stack)
    else
      match Build(stack, es[..|es| - 1])
      case None => None
      case Some(st) => Handle(st, es[|es| - 1])
  }

  lemma {:induction false} BuildAppend(stack: seq<Value>, a: seq<Event>, b: seq<Event>)
    requires Build(stack, a).Some?
    ensures Build(stack, a + b) == Build(Build(stack, a).value, b)
  {
    if b == [] {
      assert a + b == a;
    } else {
      assert (a + b)[..|a + b| - 1] == a + b[..|b| - 1];
      BuildAppend(stack, a, b[..|b| - 1]);
    }
  }

  lemma BuildNone(stack: seq<Value>)
    ensures Build(stack, []) == Some(stack)
  {
  }

  lemma BuildOne(stack: seq<Value>, e: Event)
    ensures Build(stack, [e]) == Handle(stack, e)
  {
    assert [e][..0] == [];
    assert Build(stack, []) == Some(stack);
  }

  // ---------------------------------------------------------------- replaying a value

  function Flat(ms: seq<Member>): (vs: seq<Value>)
    ensures |vs| == 2 * |ms|
  {
    if ms == [] then [] else Flat(ms[..|ms| - 1]) + [ms[|ms| - 1].name, ms[|ms| - 1].value]
  }

  lemma {:induction false} PairsOfFlat(ms: seq<Member>)
    ensures Pairs(Flat(ms)) == ms
  {
    if ms != [] {
      var n := |ms| - 1;
      PairsOfFlat(ms[..n]);
      forall i | 0 <= i < |ms| ensures Pairs(Flat(ms))[i] == ms[i] {
        if i < n {
          assert Pairs(Flat(ms[..n]))[i] == ms[..n][i];
        }
      }
    }
  }

  /** Replaying a value onto any stack pushes an equal value. */
  lemma {:induction false} ReplayBuilds(stack: seq<Value>, v: Value)
    requires Valid(v)
    ensures Build(stack, Replay(v)) == Some(stack + [v])
    decreases v
  {
    match v
    case ArrayValue(es) =>
      ReplayElementsBuild(stack + [ArrayValue([])], es);
      Contained(stack, StartArray, ReplayElements(es), es, EndArray(|es|));
    case ObjectValue(ms) =>
      ReplayMembersBuild(stack + [ObjectValue([])], ms);
      PairsOfFlat(ms);
      Contained(stack, StartObject, ReplayMembers(ms), Flat(ms), EndObject(|ms|));
    case NumberValue(n) =>
      NumberReplays(n);
      BuildOne(stack, NumberEvent(n));
    case _ =>
      BuildOne(stack, Replay(v)[0]);
  }

  /** An opening event, events that push vs, and the closing event for them. */
  lemma Contained(stack: seq<Value>, open: Event, inner: seq<Event>, vs: seq<Value>, close: Event)
    requires open.StartObject? || open.StartArray?
    requires close == (if open.StartObject? then EndObject(|vs| / 2) else EndArray(|vs|))
    requires open.StartObject? ==> |vs| % 2 == 0
    requires var below := stack + [if open.StartObject? then ObjectValue([]) else ArrayValue([])];
             Build(below, inner) == Some(below + vs)
    ensures Build(stack, [open] + inner + [close]) ==
              Some(stack + [if open.StartObject? then ObjectValue(Pairs(vs)) else ArrayValue(vs)])
  {
    hide Build, Pairs;
    var below := stack + [if open.StartObject? then ObjectValue([]) else ArrayValue([])];
    BuildOne(stack, open);
    BuildAppend(stack, [open], inner);
    BuildAppend(stack, [open] + inner, [close]);
    BuildOne(below + vs, close);
    assert (below + vs)[..|stack|] == stack && (below + vs)[|stack| + 1..] == vs;
  }

  lemma {:induction false} ReplayElementsBuild(stack: seq<Value>, es: seq<Value>)
    requires ValidElements(es)
    ensures Build(stack, ReplayElements(es)) == Some(stack + es)
    decreases es
  {
    hide Build, Replay, Valid;
    if es == [] {
      BuildNone(stack);
      assert stack + es == stack;
    } else {
      var n := |es| - 1;
      ReplayElementsBuild(stack, es[..n]);
      BuildAppend(stack, ReplayElements(es[..n]), Replay(es[n]));
      ReplayBuilds(stack + es[..n], es[n]);
      assert stack + es[..n] + [es[n]] == stack + es;
    }
  }

  lemma {:induction false} ReplayMemberBuilds(stack: seq<Value>, m: Member)
    requires m.name.StringValue? && Valid(m.value)
    ensures Build(stack, ReplayMember(m)) == Some(stack + [m.name, m.value])
    decreases m
  {
    var key := [Key(m.name.s)];
    BuildOne(stack, Key(m.name.s));
    BuildAppend(stack, key, Replay(m.value));
    ReplayBuilds(stack + [m.name], m.value);
    assert stack + [m.name] + [m.value] == stack + [m.name, m.value];
  }

  lemma {:induction false} ReplayMembersBuild(stack: seq<Value>, ms: seq<Member>)
    requires ValidMembers(ms)
    ensures Build(stack, ReplayMembers(ms)) == Some(stack + Flat(ms))
    decreases ms
  {
    hide Build, Replay, Valid, ReplayMember;
    if ms == [] {
      BuildNone(stack);
      assert stack + Flat(ms) == stack;
    } else {
      var n := |ms| - 1;
      ReplayMembersBuild(stack, ms[..n]);
      BuildAppend(stack, ReplayMembers(ms[..n]), ReplayMember(ms[n]));
      ReplayMemberBuilds(stack + Flat(ms[..n]), ms[n]);
      assert stack + Flat(ms[..n]) + [ms[n].name, ms[n].value] == stack + Flat(ms);
    }
  }

  // ---------------------------------------------------------------- the tree of a parsed text

  /** The value a concrete syntax tree denotes. */
  function TreeValue(env: Env, c: Tree): Value
    requires Legal(env, c)
  {
    match c
    case NullLit => NullValue
    case TrueLit => TrueValue
    case FalseLit => FalseValue
    case Number(n) => NumberValue(EventNumber(NumeralEvent(n)))
    case Str(pieces) => StringValue(PiecesValue(pieces))
    case EmptyArray(_) => ArrayValue([])
    case Array(_, es) => ArrayValue(ElementValues(env, es))
    case EmptyObject(_) => ObjectValue([])
    case Object(_, ms) => ObjectValue(MemberValues(env, ms))
  }

  function ElementValues(env: Env, es: Elements): (vs: seq<Value>)
    requires LegalElements(env, es)
    ensures |vs| == CountElements(es)
  {
    [TreeValue(env, es.value)] + if es.More? then ElementValues(env, es.rest) else []
  }

  function MemberValues(env: Env, ms: Members): (vs: seq<Member>)
    requires LegalMembers(env, ms)
    ensures |vs| == CountMembers(ms)
  {
    [Member(StringValue(PiecesValue(ms.name.pieces)), TreeValue(env, ms.value))]
    + if ms.MoreMembers? then MemberValues(env, ms.rest) else []
  }

  /** Items a 32-bit count loses. */
  function Lost(n: nat): (k: nat)
    ensures k == n - n % U32
  {
    n - n % U32
  }

  /** The values that wrapped counts leave behind on the stack. */
  function Excess(c: Tree): nat {
    match c
    case Array(_, es) => Lost(CountElements(es)) + ExcessElements(es)
    case Object(_, ms) => 2 * Lost(CountMembers(ms)) + ExcessMembers(ms)
    case _ => 0
  }

  function ExcessElements(es: Elements): nat {
    Excess(es.value) + if es.More? then ExcessElements(es.rest) else 0
  }

  function ExcessMembers(ms: Members): nat {
    Excess(ms.value) + if ms.MoreMembers? then ExcessMembers(ms.rest) else 0
  }

  /** `stack` grew by n values and what wrapped counts left; without such, by exactly vs. */
  predicate Grown(stack: seq<Value>, built: Option<seq<Value>>, n: nat, excess: nat, vs: seq<Value>) {
    built.Some? && |built.value| == |stack| + n + excess && (excess == 0 ==> built.value == stack + vs)
  }

  /** The events of a tree push its value; each count that wraps leaves the items it lost behind. */
  lemma {:induction false} TreeBuilds(env: Env, stack: seq<Value>, c: Tree)
    requires Legal(env, c)
    ensures Grown(stack, Build(stack, TreeEvents(env, c)), 1, Excess(c), [TreeValue(env, c)])
    decreases c
  {
    match c
    case Array(_, es) =>
      ElementsBuild(env, stack + [ArrayValue([])], es);
      Closing(stack, StartArray, ElementsEvents(env, es), CountElements(es), ExcessElements(es), ElementValues(env, es));
    case Object(_, ms) =>
      MembersBuild(env, stack + [ObjectValue([])], ms);
      PairsOfFlat(MemberValues(env, ms));
      Closing(stack, StartObject, MembersEvents(env, ms), CountMembers(ms), ExcessMembers(ms), Flat(MemberValues(env, ms)));
    case EmptyArray(_) =>
      EmptyBuilds(stack, StartArray);
    case EmptyObject(_) =>
      EmptyBuilds(stack, StartObject);
    case _ =>
      BuildOne(stack, TreeEvents(env, c)[0]);
  }

  lemma EmptyBuilds(stack: seq<Value>, open: Event)
    requires open.StartObject? || open.StartArray?
    ensures open.StartArray? ==> Build(stack, [StartArray, EndArray(0)]) == Some(stack + [ArrayValue([])])
    ensures open.StartObject? ==> Build(stack, [StartObject, EndObject(0)]) == Some(stack + [ObjectValue([])])
  {
    var below := stack + [if open.StartObject? then ObjectValue([]) else ArrayValue([])];
    var close := if open.StartObject? then EndObject(0) else EndArray(0);
    assert below + [] == below;
    Contained(stack, open, [], [], close);
    assert [open] + [] + [close] == [open, close];
    assert Pairs([]) == [];
  }

  /** A container whose n items, with some excess, are on the stack when its closing event comes. */
  lemma Closing(stack: seq<Value>, open: Event, inner: seq<Event>, n: nat, excess: nat, vs: seq<Value>)
    requires open.StartObject? || open.StartArray?
    requires |vs| == if open.StartObject? then 2 * n else n
    requires var below := stack + [if open.StartObject? then ObjectValue([]) else ArrayValue([])];
             Grown(below, Build(below, inner), |vs|, excess, vs)
    ensures Grown(stack,
                  Build(stack, [open] + inner + [if open.StartObject? then EndObject(n % U32) else EndArray(n % U32)]),
                  1, (if open.StartObject? then 2 * Lost(n) else Lost(n)) + excess,
                  [if open.StartObject? then ObjectValue(Pairs(vs)) else ArrayValue(vs)])
  {
    hide Build, Pairs;
    var below := stack + [if open.StartObject? then ObjectValue([]) else ArrayValue([])];
    var close := if open.StartObject? then EndObject(n % U32) else EndArray(n % U32);
    var st := Build(below, inner).value;
    BuildOne(stack, open);
    BuildAppend(stack, [open], inner);
    BuildAppend(stack, [open] + inner, [close]);
    BuildOne(st, close);
    if excess == 0 && Lost(n) == 0 {
      assert st[..|stack|] == stack && st[|stack| + 1..] == vs;
    }
  }

  lemma {:induction false} ElementsBuild(env: Env, stack: seq<Value>, es: Elements)
    requires LegalElements(env, es)
    ensures Grown(stack, Build(stack, ElementsEvents(env, es)), CountElements(es), ExcessElements(es), ElementValues(env, es))
    decreases es
  {
    hide Build, TreeEvents, Legal, TreeValue, Excess;
    var first := TreeEvents(env, es.value);
    TreeBuilds(env, stack, es.value);
    if es.More? {
      var st := Build(stack, first).value;
      BuildAppend(stack, first, ElementsEvents(env, es.rest));
      ElementsBuild(env, st, es.rest);
      assert stack + [TreeValue(env, es.value)] + ElementValues(env, es.rest) == stack + ElementValues(env, es);
    } else {
      assert first + [] == first;
    }
  }

  lemma {:induction false} NamedBuilds(env: Env, stack: seq<Value>, ms: Members)
    requires LegalMembers(env, ms)
    ensures Grown(stack, Build(stack, NameEvents(ms.name) + TreeEvents(env, ms.value)), 2, Excess(ms.value),
                  [StringValue(PiecesValue(ms.name.pieces)), TreeValue(env, ms.value)])
    decreases ms, 0
  {
    var name := StringValue(PiecesValue(ms.name.pieces));
    BuildOne(stack, NameEvents(ms.name)[0]);
    BuildAppend(stack, NameEvents(ms.name), TreeEvents(env, ms.value));
    TreeBuilds(env, stack + [name], ms.value);
    assert stack + [name] + [TreeValue(env, ms.value)] == stack + [name, TreeValue(env, ms.value)];
  }

  lemma {:induction false} MembersBuild(env: Env, stack: seq<Value>, ms: Members)
    requires LegalMembers(env, ms)
    ensures Grown(stack, Build(stack, MembersEvents(env, ms)), 2 * CountMembers(ms), ExcessMembers(ms),
                  Flat(MemberValues(env, ms)))
    decreases ms, 1
  {
    hide Build, TreeEvents, Legal, TreeValue, Excess, Flat, NameEvents;
    var first := NameEvents(ms.name) + TreeEvents(env, ms.value);
    var pair := [StringValue(PiecesValue(ms.name.pieces)), TreeValue(env, ms.value)];
    NamedBuilds(env, stack, ms);
    FlatPrepend(Member(pair[0], pair[1]), if ms.MoreMembers? then MemberValues(env, ms.rest) else []);
    if ms.MoreMembers? {
      var st := Build(stack, first).value;
      BuildAppend(stack, first, MembersEvents(env, ms.rest));
      MembersBuild(env, st, ms.rest);
      assert stack + pair + Flat(MemberValues(env, ms.rest)) == stack + Flat(MemberValues(env, ms));
    } else {
      assert first + [] == first;
    }
  }

  lemma {:induction false} FlatPrepend(m: Member, ms: seq<Member>)
    ensures Flat([m] + ms) == [m.name, m.value] + Flat(ms)
  {
    if ms == [] {
      assert ([m] + ms)[..0] == [];
    } else {
      assert ([m] + ms)[..|ms|] == [m] + ms[..|ms| - 1];
      FlatPrepend(m, ms[..|ms| - 1]);
    }
  }

  /** Every container, at every depth, has fewer than 2^32 items. */
  predicate Countable(c: Tree) {
    match c
    case Array(_, es) => CountElements(es) < U32 && CountableElements(es)
    case Object(_, ms) => CountMembers(ms) < U32 && CountableMembers(ms)
    case _ => true
  }

  predicate CountableElements(es: Elements) {
    Countable(es.value) && (es.More? ==> CountableElements(es.rest))
  }

  predicate CountableMembers(ms: Members) {
    Countable(ms.value) && (ms.MoreMembers? ==> CountableMembers(ms.rest))
  }

  /** Values are left behind exactly when some container has 2^32 or more items. */
  lemma {:induction false} NoExcessIffCountable(c: Tree)
    ensures Excess(c) == 0 <==> Countable(c)
    decreases c
  {
    match c
    case Array(_, es) => ElementsCountable(es);
    case Object(_, ms) => MembersCountable(ms);
    case _ =>
  }

  lemma {:induction false} ElementsCountable(es: Elements)
    ensures ExcessElements(es) == 0 <==> CountableElements(es)
    decreases es
  {
    NoExcessIffCountable(es.value);
    if es.More? {
      ElementsCountable(es.rest);
    }
  }

  lemma {:induction false} MembersCountable(ms: Members)
    ensures ExcessMembers(ms) == 0 <==> CountableMembers(ms)
    decreases ms
  {
    NoExcessIffCountable(ms.value);
    if ms.MoreMembers? {
      MembersCountable(ms.rest);
    }
  }

  /** No count wraps in a text of less than 2^32 bytes. */
  lemma {:induction false} ShortTextHasNoExcess(c: Tree)
    requires |TreeText(c)| < U32
    ensures Excess(c) == 0
    decreases c
  {
    match c
    case Array(_, es) => ShortElements(es);
    case Object(_, ms) => ShortMembers(ms);
    case _ =>
  }

  lemma {:induction false} ShortElements(es: Elements)
    requires |ElementsText(es)| < U32
    ensures ExcessElements(es) == 0 && CountElements(es) <= |ElementsText(es)|
    decreases es
  {
    ShortTextHasNoExcess(es.value);
    if es.More? {
      ShortElements(es.rest);
    }
  }

  lemma {:induction false} ShortMembers(ms: Members)
    requires |MembersText(ms)| < U32
    ensures ExcessMembers(ms) == 0 && CountMembers(ms) <= |MembersText(ms)|
    decreases ms
  {
    ShortTextHasNoExcess(ms.value);
    if ms.MoreMembers? {
      ShortMembers(ms.rest);
    }
  }

  /**
    A successful parse leaves exactly one value, the value of the tree, if and only if no container has 2^32 or
    more items; otherwise it leaves more, and the single-root assertion fires.
   */
  lemma SingleRoot(env: Env) returns (before: Text, c: Tree, rest: Text)
    requires NUL !in env.text && Parse(env).result.NoError?
    ensures Accepted(env, before, c, rest) && Build([], Parse(env).log).Some?
    ensures |Build([], Parse(env).log).value| == 1 + Excess(c)
    ensures |Build([], Parse(env).log).value| == 1 <==> Countable(c)
    ensures Countable(c) ==> Build([], Parse(env).log) == Some([TreeValue(env, c)])
    ensures |env.text| < U32 ==> Countable(c)
  {
    hide Parse, TreeEvents, Build, Legal, Excess, TreeText, Countable;
    before, c, rest := EveryAcceptedIsTree(env);
    NoExcessIffCountable(c);
    TreeBuilds(env, [], c);
    assert [] + [TreeValue(env, c)] == [TreeValue(env, c)];
    if |env.text| < U32 {
      ShortTextHasNoExcess(c);
    }
  }

  /** The elements of an array of n nulls. */
  function Nulls(n: nat): Elements
    requires n > 0
  {
    if n == 1 then Last(NullLit, []) else More(NullLit, [], [], Nulls(n - 1))
  }

  lemma {:induction false} NullsAre(env: Env, n: nat)
    requires n > 0
    ensures LegalElements(env, Nulls(n)) && CountElements(Nulls(n)) == n && ExcessElements(Nulls(n)) == 0
  {
    if n > 1 {
      NullsAre(env, n - 1);
    }
  }

  /** An array of n nulls is parsed, and leaves one value and the items its 32-bit count lost. */
  lemma NullsParsed(env: Env, n: nat)
    requires AcceptsAll(env) && n > 0 && env.text == TreeText(Array([], Nulls(n)))
    ensures Parse(env).result.NoError? && Build([], Parse(env).log).Some?
    ensures |Build([], Parse(env).log).value| == 1 + Lost(n)
  {
    hide Parse, TreeEvents, Build, TreeText, Nulls, LegalElements, CountElements, ExcessElements;
    var c := Array([], Nulls(n));
    NullsAre(env, n);
    assert env.text == [] + (TreeText(c) + []);
    assert Accepted(env, [], c, []);
    EveryTreeAccepted(env, [], c, []);
    TreeBuilds(env, [], c);
  }

  /** 2^32 nulls in an array: the parse succeeds, 2^32 values too many are left, and the single-root assertion fires. */
  lemma SingleRootMayFail(env: Env)
    requires AcceptsAll(env)
    ensures var e := env.(text := TreeText(Array([], Nulls(U32))));
            && Parse(e).result.NoError? && Build([], Parse(e).log).Some?
            && |Build([], Parse(e).log).value| == 1 + U32
  {
    hide Parse, Build, TreeText, Nulls;
    NullsParsed(env.(text := TreeText(Array([], Nulls(U32)))), U32);
  }

  // ---------------------------------------------------------------- the document object

  class GenericDocument {
    var root: Value
    var stack: seq<Value>
    var parseResult: ParseResult

    constructor ()
      ensures root == NullValue && stack == [] && parseResult == NoError
    {
      root, stack, parseResult := NullValue, [], NoError;
    }

    method Leaf(e: Event)
      requires IsLeaf(e)
      modifies this`stack
      ensures Some(stack) == Handle(old(stack), e)
    {
      stack := stack + [LeafValue(e)];
    }

    method Start(placeholder: Value)
      modifies this`stack
      ensures stack == old(stack) + [placeholder]
    {
      stack := stack + [placeholder];
    }

    /** Pop the members and turn the value below them into the object. */
    method EndObject(memberCount: nat)
      requires |stack| >= 2 * memberCount + 1
      modifies this`stack
      ensures Some(stack) == Handle(old(stack), Event.EndObject(memberCount))
    {
      var k := |stack| - 2 * memberCount;
      var members := Pairs(stack[k..]);
      stack := stack[..k];
      stack := stack[k - 1 := ObjectValue(members)];
      assert stack == old(stack)[..k - 1] + [ObjectValue(members)];
    }

    method EndArray(elementCount: nat)
      requires |stack| >= elementCount + 1
      modifies this`stack
      ensures Some(stack) == Handle(old(stack), Event.EndArray(elementCount))
    {
      var k := |stack| - elementCount;
      var elements := stack[k..];
      stack := stack[..k];
      stack := stack[k - 1 := ArrayValue(elements)];
      assert stack == old(stack)[..k - 1] + [ArrayValue(elements)];
    }

    /** The handler calls of a run of events. */
    method Receive(es: seq<Event>)
      requires Build(stack, es).Some?
      modifies this`stack
      ensures Some(stack) == Build(old(stack), es)
    {
      ghost var before := stack;
      for i := 0 to |es|
        invariant Build(before, es[..i]) == Some(stack)
      {
        BuildPrefix(before, es, i + 1);
        assert es[..i + 1][..i] == es[..i];
        match es[i] {
          case StartObject => Start(ObjectValue([]));
          case StartArray => Start(ArrayValue([]));
          case EndObject(n) => EndObject(n);
          case EndArray(n) => EndArray(n);
          case _ => Leaf(es[i]);
        }
      }
      assert es[..|es|] == es;
    }

    /** Move the one value on the stack into the document; `ok` is the single-root assertion. */
    method Adopt() returns (ok: bool)
      requires stack != []
      modifies this`root, this`stack
      ensures ok == (|old(stack)| == 1) && stack == []
      ensures root == if ok then old(stack)[0] else old(root)
    {
      ok := |stack| == 1;
      if ok {
        root := stack[0];
      }
      stack := [];
    }

    /** Parse a text into this document; on an error, or a failed assertion, the value is kept. */
    method ParseStream(env: Env) returns (ok: bool)
      requires AcceptsAll(env) && NUL !in env.text && stack == []
      modifies this
      ensures parseResult == Parse(env).result && stack == []
      ensures parseResult.Error? ==> root == old(root)
      ensures parseResult.NoError? ==> exists before, c, rest ::
                Accepted(env, before, c, rest)
                && (ok <==> Countable(c))
                && root == if ok then TreeValue(env, c) else old(root)
      ensures |env.text| < U32 ==> ok
    {
      var reader := new GenericReader(env);
      reader.Parse();
      parseResult := reader.result;
      ok := true;
      if parseResult.NoError? {
        ghost var before, c, rest := SingleRoot(env);
        Receive(reader.log);
        ok := Adopt();
        assert Accepted(env, before, c, rest);
      }
    }

    /** Fill this document from the events of a value: a deep clone. */
    method Populate(v: Value) returns (ok: bool)
      requires Valid(v) && stack == []
      modifies this
      ensures ok && root == v && stack == []
    {
      ReplayBuilds([], v);
      Receive(Replay(v));
      ok := Adopt();
    }
  }

  lemma {:induction false} BuildPrefix(stack: seq<Value>, es: seq<Event>, i: nat)
    requires Build(stack, es).Some? && i <= |es|
    ensures Build(stack, es[..i]).Some?
  {
    if i < |es| {
      BuildPrefix(stack, es[..|es| - 1], i);
      assert es[..|es| - 1][..i] == es[..i];
    } else {
      assert es[..i] == es;
    }
  }
}
