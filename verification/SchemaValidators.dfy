/**
  The validator object. Its context stack and its verdict are updated in place; the sub-validators of a context
  are values stepped by the same handler function.
 */
module SchemaValidators {
  import opened Bytes
  import opened Events
  import opened Values
  import opened Schemas
  import opened SchemaValidation

  /** The sub-validators a context starts with, before any event. */
  function Sleeping(s: Schema): (vs: seq<Validator>)
    ensures |vs| == Width(s)
  {
    NewAll(s.allOf) + NewAll(s.anyOf) + NewAll(s.oneOf) + if s.no.Some? then [New(s.no.value)] else []
  }

  function NewAll(ss: seq<Schema>): (vs: seq<Validator>)
    ensures |vs| == |ss|
  {
    if ss == [] then [] else NewAll(ss[..|ss| - 1]) + [New(ss[|ss| - 1])]
  }

  lemma {:induction false} FeedEachAppend(a: seq<Validator>, b: seq<Validator>, e: Event)
    ensures FeedEach(a + b, e) == FeedEach(a, e) + FeedEach(b, e)
  {
    hide Feed;
    if b == [] {
      assert a + b == a;
    } else {
      assert (a + b)[..|a + b| - 1] == a + b[..|b| - 1];
      FeedEachAppend(a, b[..|b| - 1], e);
    }
  }

  lemma {:induction false} WakeAll(ss: seq<Schema>, e: Event)
    requires IsBegin(e)
    ensures FeedEach(NewAll(ss), e) == FreshAll(ss, e)
  {
    hide Fresh;
    if ss != [] {
      WakeAll(ss[..|ss| - 1], e);
      FeedEachAppend(NewAll(ss[..|ss| - 1]), [New(ss[|ss| - 1])], e);
      WakeOne(ss[|ss| - 1], e);
    }
  }

  lemma WakeOne(s: Schema, e: Event)
    requires IsBegin(e)
    ensures FeedEach([New(s)], e) == [Fresh(s, e)]
  {
    FeedEachAt([New(s)], e, 0);
  }

  /** Sub-validators made for a value are fed its first event at once. */
  lemma Wake(s: Schema, e: Event)
    requires IsBegin(e)
    ensures FeedEach(Sleeping(s), e) == Starting(s, e)
  {
    hide FeedEach, NewAll, FreshAll, Fresh;
    var last := if s.no.Some? then [New(s.no.value)] else [];
    WakeAll(s.allOf, e);
    WakeAll(s.anyOf, e);
    WakeAll(s.oneOf, e);
    FeedEachAppend(NewAll(s.allOf), NewAll(s.anyOf), e);
    FeedEachAppend(NewAll(s.allOf) + NewAll(s.anyOf), NewAll(s.oneOf), e);
    FeedEachAppend(NewAll(s.allOf) + NewAll(s.anyOf) + NewAll(s.oneOf), last, e);
    if s.no.Some? {
      WakeOne(s.no.value, e);
    } else {
      WakeNone(e);
    }
  }

  lemma WakeNone(e: Event)
    ensures FeedEach([], e) == []
  {
  }

  lemma {:induction false} FeedAllAt(stack: seq<Context>, e: Event, k: nat)
    requires k < |stack|
    ensures FeedAll(stack, e)[k] == FeedContext(stack[k], e)
  {
    hide FeedContext;
    if k < |stack| - 1 {
      FeedAllAt(stack[..|stack| - 1], e, k);
    }
  }

  class GenericSchemaValidator {
    const root: Schema
    var stack: seq<Context>
    var valid: bool

    constructor (root: Schema)
      ensures Now() == New(root) && Steady()
    {
      this.root := root;
      stack, valid := [], true;
    }

    function Now(): Validator
      reads this
    {
      Validator(root, stack, valid)
    }

    /** Every open context has the sub-validators of its schema. */
    predicate Steady()
      reads this
    {
      forall k | 0 <= k < |stack| :: |stack[k].validators| == Width(stack[k].schema)
    }

    function Current(): Context
      requires stack != []
      reads this
    {
      stack[|stack| - 1]
    }

    method BeginValue() returns (ok: bool)
      modifies this`stack
      ensures old(stack) == [] ==> ok && stack == [Context(root, TYPELESS, [], false, 0)]
      ensures old(stack) != [] ==>
                var top := old(Current());
                match NextSchema(top)
                case None => !ok
                case Some(t) =>
                  ok && stack == old(stack)[..|old(stack)| - 1] + [Placed(top, t), Context(t, TYPELESS, [], false, 0)]
    {
      ok := true;
      if stack == [] {
        stack := [Context(root, TYPELESS, [], false, 0)];
        return;
      }
      var n := |stack| - 1;
      var c := stack[n];
      if c.inArray {
        match ItemSchema(c.schema, c.arrayElementIndex) {
          case None => return false;
          case Some(t) => c := c.(valueSchema := t, arrayElementIndex := c.arrayElementIndex + 1);
        }
      }
      stack := stack[..n] + [c, Context(c.valueSchema, TYPELESS, [], false, 0)];
    }

    /** The value's own schema: its kind, then its sub-validators. */
    method Open(e: Event) returns (ok: bool)
      requires stack != [] && IsBegin(e)
      modifies this`stack
      ensures ok == KindAllows(old(Current()).schema, e)
      ensures ok ==> stack == old(stack)[..|old(stack)| - 1]
                              + [old(Current()).(inArray := old(Current()).inArray || e.StartArray?,
                                                 arrayElementIndex := if e.StartArray? then 0 else old(Current()).arrayElementIndex,
                                                 validators := Sleeping(old(Current()).schema))]
    {
      var n := |stack| - 1;
      var c := stack[n];
      if e.StartArray? {
        c := c.(arrayElementIndex := 0, inArray := true);
      }
      ok := KindAllows(c.schema, e);
      if ok {
        c := c.(validators := Sleeping(c.schema));
      }
      stack := stack[..n] + [c];
    }

    /** Forward an event to the sub-validators of every context. */
    /** The validators of one context, one after the other. */
    static method FeedValidators(was: seq<Validator>, e: Event) returns (vs: seq<Validator>)
      ensures vs == FeedEach(was, e)
    {
      hide Feed, FeedEach;
      vs := was;
      for j := 0 to |vs|
        invariant |vs| == |was|
        invariant forall k | 0 <= k < j :: vs[k] == Feed(was[k], e)
        invariant forall k | j <= k < |vs| :: vs[k] == was[k]
      {
        vs := vs[j := Feed(vs[j], e)];
      }
      forall k | 0 <= k < |vs| ensures vs[k] == FeedEach(was, e)[k] {
        FeedEachAt(was, e, k);
      }
    }

    method Parallel(e: Event)
      modifies this`stack
      ensures stack == FeedAll(old(stack), e)
    {
      hide Feed, FeedEach, FeedAll;
      var i := 0;
      while i < |stack|
        invariant 0 <= i <= |stack| == |old(stack)|
        invariant forall k | 0 <= k < i :: stack[k] == FeedContext(old(stack)[k], e)
        invariant forall k | i <= k < |stack| :: stack[k] == old(stack)[k]
      {
        var vs := FeedValidators(stack[i].validators, e);
        stack := stack[i := stack[i].(validators := vs)];
        i := i + 1;
      }
      forall k | 0 <= k < |stack| ensures stack[k] == FeedAll(old(stack), e)[k] {
        FeedAllAt(old(stack), e, k);
      }
    }

    /** The checks on the sub-validators of the innermost context, which is then popped. */
    method EndValue() returns (ok: bool)
      requires stack != [] && |Current().validators| == Width(Current().schema)
      modifies this`stack
      ensures ok == EndHolds(old(Current()).schema, old(Current()).validators)
      ensures ok ==> stack == old(stack)[..|old(stack)| - 1]
    {
      var s, vs := Current().schema, Current().validators;
      ok := CheckAll(AllOfPart(s, vs));
      if !ok { return; }
      if s.anyOf != [] {
        ok := CheckSome(AnyOfPart(s, vs));
        if !ok { return; }
      }
      if s.oneOf != [] {
        ok := CheckOne(OneOfPart(s, vs));
        if !ok { return; }
      }
      if s.no.Some? && vs[|vs| - 1].valid {
        return false;
      }
      stack := stack[..|stack| - 1];
    }

    method CheckAll(vs: seq<Validator>) returns (ok: bool)
      ensures ok == AllValid(vs)
    {
      for i := 0 to |vs|
        invariant forall k | 0 <= k < i :: vs[k].valid
      {
        if !vs[i].valid { return false; }
      }
      return true;
    }

    method CheckSome(vs: seq<Validator>) returns (ok: bool)
      ensures ok == SomeValid(vs)
    {
      for i := 0 to |vs|
        invariant forall k | 0 <= k < i :: !vs[k].valid
      {
        if vs[i].valid { return true; }
      }
      return false;
    }

    method CheckOne(vs: seq<Validator>) returns (oneValid: bool)
      ensures oneValid == OneValid(vs)
    {
      oneValid := false;
      ghost var at := 0;
      for i := 0 to |vs|
        invariant !oneValid ==> forall k | 0 <= k < i :: !vs[k].valid
        invariant oneValid ==> 0 <= at < i && vs[at].valid && forall k | 0 <= k < i && k != at :: !vs[k].valid
      {
        if vs[i].valid {
          if oneValid {
            assert vs[at].valid && vs[i].valid && at != i;
            return false;
          }
          oneValid, at := true, i;
        }
      }
    }

    /** After a handler call: the verdict, and the state unless the verdict is final. */
    predicate Fed(v: Validator)
      reads this
    {
      valid == v.valid && (valid ==> Now() == v && Steady())
    }

    /** `BeginValue` and the checks of the value's own schema; on success its context is on top, not yet fed. */
    method Push(e: Event) returns (ok: bool, ghost base: seq<Context>, ghost s: Schema)
      requires IsBegin(e) && valid && Steady()
      modifies this`stack
      ensures !ok ==> !Feed(old(Now()), e).valid
      ensures ok ==> KindAllows(s, e) && stack == base + [Context(s, TYPELESS, Sleeping(s), e.StartArray?, 0)]
      ensures ok ==> Feed(old(Now()), e) == Enter(root, FeedAll(base, e), s, e)
      ensures ok ==> forall k | 0 <= k < |base| :: |base[k].validators| == Width(base[k].schema)
    {
      hide KindAllows, FeedAll, FeedEach, Enter;
      ghost var v := Now();
      base, s := [], root;
      ok := BeginValue();
      if ok {
        s, base := Current().schema, stack[..|stack| - 1];
        FedBase(v, base, s, e);
        EnterKind(root, FeedAll(base, e), s, e);
        ok := Open(e);
      }
    }

    /** The handlers of scalar values, `StartObject` and `StartArray`. */
    method Begin(e: Event)
      requires IsBegin(e) && (valid ==> Steady())
      modifies this`stack, this`valid
      ensures Fed(Feed(old(Now()), e))
    {
      hide Starting, Feed, KindAllows, FeedAll, FeedEach, EndHolds, Sleeping;
      if !valid {
        FrozenFeeds(Now(), e);
        return;
      }
      var ok;
      ghost var base, s;
      ok, base, s := Push(e);
      if !ok {
        valid := false;
        return;
      }
      ghost var c := Current();
      Parallel(e);
      FeedAllAppend(base, c, e);
      Wake(s, e);
      SteadyFed(base, e);
      assert stack[..|stack| - 1] == FeedAll(base, e);
      if !IsStart(e) {
        valid := EndValue();
      }
    }

    method Key(name: Text)
      requires valid ==> stack != [] && Steady()
      modifies this`stack, this`valid
      ensures Fed(Feed(old(Now()), Event.Key(name)))
    {
      hide FeedAll, FeedEach, PropertySchema;
      if !valid { return; }
      var n := |stack| - 1;
      match PropertySchema(stack[n].schema, name)
      case None =>
        valid := false;
      case Some(t) =>
        ghost var before := stack;
        stack := stack[n := stack[n].(valueSchema := t)];
        Parallel(Event.Key(name));
        KeyFed(before, Event.Key(name), t);
        SteadyFed(before, Event.Key(name));
    }

    /** `EndObject` and `EndArray`. */
    method End(e: Event)
      requires (e.EndObject? || e.EndArray?) && (valid ==> stack != [] && Steady())
      modifies this`stack, this`valid
      ensures Fed(Feed(old(Now()), e))
    {
      hide FeedAll, FeedEach, EndHolds;
      if !valid { return; }
      ghost var before := stack;
      Parallel(e);
      SteadyFed(before, e);
      TopFed(before, e);
      valid := SizeHolds(Current().schema, e);
      if valid {
        valid := EndValue();
      }
    }
  }

  lemma FrozenFeeds(v: Validator, e: Event)
    requires !v.valid
    ensures Feed(v, e) == v
  {
  }

  lemma EnterKind(root: Schema, base: seq<Context>, s: Schema, e: Event)
    requires IsBegin(e)
    ensures !KindAllows(s, e) ==> !Enter(root, base, s, e).valid
  {
  }

  /** The contexts below a value that begins, after the event. */
  lemma FedBase(v: Validator, base: seq<Context>, s: Schema, e: Event)
    requires v.valid && IsBegin(e)
    requires if v.stack == [] then base == [] && s == v.root
             else var n := |v.stack| - 1; var top := v.stack[n];
                  NextSchema(top) == Some(s) && base == v.stack[..n] + [Placed(top, s)]
    ensures Feed(v, e) == Enter(v.root, FeedAll(base, e), s, e)
  {
    hide Enter, FeedAll, FeedEach;
    if v.stack == [] {
      NoContexts(e);
    } else {
      var n := |v.stack| - 1;
      var top := v.stack[n];
      assert v.stack == v.stack[..n] + [top];
      FeedAllAppend(v.stack[..n], top, e);
      FeedAllAppend(v.stack[..n], Placed(top, s), e);
      assert FeedAll(v.stack, e)[n := Placed(FeedContext(top, e), s)] == FeedAll(base, e);
    }
  }

  lemma KeyFed(stack: seq<Context>, e: Event, t: Schema)
    requires stack != []
    ensures var n := |stack| - 1;
            FeedAll(stack[n := stack[n].(valueSchema := t)], e) ==
              FeedAll(stack, e)[n := FeedAll(stack, e)[n].(valueSchema := t)]
  {
    hide FeedAll, FeedEach;
    var n := |stack| - 1;
    assert stack == stack[..n] + [stack[n]];
    assert stack[n := stack[n].(valueSchema := t)] == stack[..n] + [stack[n].(valueSchema := t)];
    FeedAllAppend(stack[..n], stack[n], e);
    FeedAllAppend(stack[..n], stack[n].(valueSchema := t), e);
  }

  lemma TopFed(stack: seq<Context>, e: Event)
    requires stack != []
    ensures FeedAll(stack, e)[|stack| - 1].schema == stack[|stack| - 1].schema
  {
    FeedAllAt(stack, e, |stack| - 1);
  }

  /** Feeding keeps the number of sub-validators of every context. */
  lemma SteadyFed(base: seq<Context>, e: Event)
    requires forall k | 0 <= k < |base| :: |base[k].validators| == Width(base[k].schema)
    ensures var fed := FeedAll(base, e); forall k | 0 <= k < |fed| :: |fed[k].validators| == Width(fed[k].schema)
  {
    forall k | 0 <= k < |base|
      ensures var fed := FeedAll(base, e); |fed[k].validators| == Width(fed[k].schema)
    {
      FeedAllAt(base, e, k);
    }
  }

  /** How the number of open contexts changes while the value stays valid. */
  lemma FeedDepth(v: Validator, e: Event)
    ensures Feed(v, e).valid ==> v.valid && |Feed(v, e).stack| == |v.stack| + Deeper(e)
    ensures Feed(v, e).valid && !IsBegin(e) ==> v.stack != []
  {
    hide EndHolds, FeedEach;
    if v.valid && v.stack != [] && IsBegin(e) && NextSchema(v.stack[|v.stack| - 1]).Some? {
      var t := NextSchema(v.stack[|v.stack| - 1]).value;
      EnterDepth(v.root, FeedAll(v.stack, e), t, e);
    } else if IsBegin(e) {
      EnterDepth(v.root, [], v.root, e);
    }
  }

  /** What a call adds to the number of open contexts. */
  function Deeper(e: Event): int {
    if IsStart(e) then 1 else if IsBegin(e) || e.Key? then 0 else -1
  }

  lemma EnterDepth(root: Schema, base: seq<Context>, s: Schema, e: Event)
    requires IsBegin(e)
    ensures Enter(root, base, s, e).valid ==> |Enter(root, base, s, e).stack| == |base| + Deeper(e)
  {
  }

  /** One handler call, whatever the verdict so far. */
  method Send(validator: GenericSchemaValidator, e: Event, ghost v: Validator)
    requires validator.Fed(v) && (v.valid && !IsBegin(e) ==> v.stack != [])
    modifies validator
    ensures validator.Fed(Feed(v, e))
    ensures Feed(v, e).valid ==> |Feed(v, e).stack| == |v.stack| + Deeper(e)
  {
    hide Feed;
    FeedDepth(v, e);
    FeedDepth(validator.Now(), e);
    if !v.valid {
      FrozenFeeds(v, e);
    }
    if e.Key? {
      validator.Key(e.s);
    } else if IsBegin(e) {
      validator.Begin(e);
    } else {
      validator.End(e);
    }
  }

  /** `Accept` with a validator as handler. */
  method Accept(x: Value, validator: GenericSchemaValidator, ghost v: Validator)
    requires Valid(x) && validator.Fed(v)
    modifies validator
    ensures validator.Fed(Run(v, Replay(x)))
    ensures Run(v, Replay(x)).valid ==> v.valid && |Run(v, Replay(x)).stack| == |v.stack|
    decreases x
  {
    hide Run, Feed, Valid, Replay;
    HeadBegins(x);
    var e := Head(x);
    RunOne(v, e);
    FeedDepth(v, e);
    Send(validator, e, v);
    ghost var v1 := Feed(v, e);
    match x
    case ArrayValue(es) =>
      ArrayReplay(es);
      AcceptElements(es, validator, v1);
      Finish(validator, v, [e], ReplayElements(es), EndArray(|es|));
    case ObjectValue(ms) =>
      ObjectReplay(ms);
      AcceptMembers(ms, validator, v1);
      Finish(validator, v, [e], ReplayMembers(ms), EndObject(|ms|));
    case _ =>
      assert Replay(x) == [e];
  }

  /** The closing call of a container. */
  method Finish(validator: GenericSchemaValidator, ghost v: Validator, ghost open: seq<Event>, ghost inner: seq<Event>, close: Event)
    requires (close.EndArray? || close.EndObject?) && validator.Fed(Run(Run(v, open), inner))
    requires Run(Run(v, open), inner).valid ==> v.valid && |Run(Run(v, open), inner).stack| == |v.stack| + 1
    modifies validator
    ensures validator.Fed(Run(v, open + inner + [close]))
    ensures Run(v, open + inner + [close]).valid ==> v.valid && |Run(v, open + inner + [close]).stack| == |v.stack|
  {
    hide Run, Feed;
    ghost var v2 := Run(Run(v, open), inner);
    RunAppend(v, open, inner);
    RunAppend(v, open + inner, [close]);
    RunOne(v2, close);
    FeedDepth(v2, close);
    Send(validator, close, v2);
  }

  method AcceptElements(es: seq<Value>, validator: GenericSchemaValidator, ghost v: Validator)
    requires ValidElements(es) && validator.Fed(v)
    modifies validator
    ensures validator.Fed(Run(v, ReplayElements(es)))
    ensures Run(v, ReplayElements(es)).valid ==> v.valid && |Run(v, ReplayElements(es)).stack| == |v.stack|
    decreases es
  {
    hide Run, Feed, Valid, Replay;
    NothingRun(v, [], []);
    NoElements();
    for i := 0 to |es|
      invariant validator.Fed(Run(v, ReplayElements(es[..i])))
      invariant Run(v, ReplayElements(es[..i])).valid ==> v.valid && |Run(v, ReplayElements(es[..i])).stack| == |v.stack|
    {
      assert es[..i + 1][..i] == es[..i];
      ElementsUnfold(es[..i + 1]);
      RunAppend(v, ReplayElements(es[..i]), Replay(es[i]));
      Accept(es[i], validator, Run(v, ReplayElements(es[..i])));
    }
    assert es[..|es|] == es;
  }

  method AcceptMembers(ms: seq<Member>, validator: GenericSchemaValidator, ghost v: Validator)
    requires ValidMembers(ms) && validator.Fed(v) && (v.valid ==> v.stack != [])
    modifies validator
    ensures validator.Fed(Run(v, ReplayMembers(ms)))
    ensures Run(v, ReplayMembers(ms)).valid ==> v.valid && |Run(v, ReplayMembers(ms)).stack| == |v.stack|
    decreases ms
  {
    hide Run, Feed, Valid, Replay, ReplayMember;
    NothingRun(v, [], []);
    NoElements();
    for i := 0 to |ms|
      invariant validator.Fed(Run(v, ReplayMembers(ms[..i])))
      invariant Run(v, ReplayMembers(ms[..i])).valid ==> v.valid && |Run(v, ReplayMembers(ms[..i])).stack| == |v.stack|
    {
      assert ms[..i + 1][..i] == ms[..i];
      MembersUnfold(ms[..i + 1]);
      RunAppend(v, ReplayMembers(ms[..i]), ReplayMember(ms[i]));
      AcceptMember(ms[i], validator, Run(v, ReplayMembers(ms[..i])));
    }
    assert ms[..|ms|] == ms;
  }

  method AcceptMember(m: Member, validator: GenericSchemaValidator, ghost v: Validator)
    requires m.name.StringValue? && Valid(m.value) && validator.Fed(v) && (v.valid ==> v.stack != [])
    modifies validator
    ensures validator.Fed(Run(v, ReplayMember(m)))
    ensures Run(v, ReplayMember(m)).valid ==> v.valid && |Run(v, ReplayMember(m)).stack| == |v.stack|
    decreases m
  {
    hide Run, Feed, Valid, Replay;
    var key := Event.Key(m.name.s);
    RunOne(v, key);
    RunAppend(v, [key], Replay(m.value));
    FeedDepth(v, key);
    Send(validator, key, v);
    Accept(m.value, validator, Feed(v, key));
  }

  /** Send a value to a new validator object: its verdict is that of the schema. */
  method Validate(s: Schema, v: Value) returns (ok: bool)
    requires Schemas.WellFormed(s) && Valid(v)
    ensures ok <==> Holds(s, v)
  {
    hide Holds, Feed, Replay, Run, Valid, Schemas.WellFormed;
    var validator := new GenericSchemaValidator(s);
    Accept(v, validator, New(s));
    OnePassDecides(s, v);
    ok := validator.valid;
  }
}
