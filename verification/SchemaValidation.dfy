/**
  The streaming validator: one pass over the events with a stack of contexts, each running sub-validators in
  parallel. It ends valid exactly when the value meets the schema.
 */
module SchemaValidation {
  import opened Bytes
  import opened Events
  import opened Values
  import opened Schemas

  /** One open value: its schema, the schema of the next value inside it, and the validators run beside it. */
  datatype Context = Context(
    schema: Schema,
    valueSchema: Schema,
    validators: seq<Validator>,
    inArray: bool,
    arrayElementIndex: nat)

  datatype Validator = Validator(root: Schema, stack: seq<Context>, valid: bool)

  function New(s: Schema): Validator {
    Validator(s, [], true)
  }

  function Rejected(v: Validator): Validator {
    v.(valid := false)
  }

  // ---------------------------------------------------------------- one context

  predicate KindAllows(s: Schema, e: Event) {
    match e
    case Null => NullKind in s.kinds
    case Bool(_) => BooleanKind in s.kinds
    case String(_) => StringKind in s.kinds
    case StartObject => ObjectKind in s.kinds
    case StartArray => ArrayKind in s.kinds
    case Double(_) => NumberKind in s.kinds
    case Int(_) => IntegerKind in s.kinds || NumberKind in s.kinds
    case Uint(_) => IntegerKind in s.kinds || NumberKind in s.kinds
    case Int64(_) => IntegerKind in s.kinds || NumberKind in s.kinds
    case Uint64(_) => IntegerKind in s.kinds || NumberKind in s.kinds
    case _ => true
  }

  predicate IsBegin(e: Event) {
    !e.Key? && !e.EndObject? && !e.EndArray?
  }

  predicate IsStart(e: Event) {
    e.StartObject? || e.StartArray?
  }

  /** How many sub-validators a schema needs; they stand in this order. */
  function Width(s: Schema): nat {
    |s.allOf| + |s.anyOf| + |s.oneOf| + if s.no.Some? then 1 else 0
  }

  predicate SomeValid(vs: seq<Validator>) {
    exists k | 0 <= k < |vs| :: vs[k].valid
  }

  predicate OneValid(vs: seq<Validator>) {
    exists k | 0 <= k < |vs| :: vs[k].valid && forall j | 0 <= j < |vs| && j != k :: !vs[j].valid
  }

  predicate AllValid(vs: seq<Validator>) {
    forall k | 0 <= k < |vs| :: vs[k].valid
  }

  /** The sub-validators of one keyword. */
  function AllOfPart(s: Schema, vs: seq<Validator>): seq<Validator>
    requires |vs| == Width(s)
  {
    vs[..|s.allOf|]
  }

  function AnyOfPart(s: Schema, vs: seq<Validator>): seq<Validator>
    requires |vs| == Width(s)
  {
    vs[|s.allOf|..|s.allOf| + |s.anyOf|]
  }

  function OneOfPart(s: Schema, vs: seq<Validator>): seq<Validator>
    requires |vs| == Width(s)
  {
    vs[|s.allOf| + |s.anyOf|..|s.allOf| + |s.anyOf| + |s.oneOf|]
  }

  /** The checks of `EndValue` on the sub-validators; that of `not` is the last. */
  predicate EndHolds(s: Schema, vs: seq<Validator>) {
    && |vs| == Width(s)
    && AllValid(AllOfPart(s, vs))
    && (s.anyOf != [] ==> SomeValid(AnyOfPart(s, vs)))
    && (s.oneOf != [] ==> OneValid(OneOfPart(s, vs)))
    && (s.no.Some? ==> !vs[|vs| - 1].valid)
  }

  /** The checks of `EndObject` and `EndArray`. */
  predicate SizeHolds(s: Schema, e: Event) {
    match e
    case EndObject(n) => s.minProperties <= n <= s.maxProperties
    case EndArray(n) => s.minItems <= n <= s.maxItems
    case _ => true
  }

  /** The schema of the value that begins in this context. */
  function NextSchema(c: Context): Option<Schema> {
    if c.inArray then ItemSchema(c.schema, c.arrayElementIndex) else Some(c.valueSchema)
  }

  /** What `BeginValue` leaves in the context. */
  function Placed(c: Context, t: Schema): Context {
    if c.inArray then c.(valueSchema := t, arrayElementIndex := c.arrayElementIndex + 1) else c
  }

  // ---------------------------------------------------------------- one event

  /** Push the context of a value that begins with e on contexts that have seen e already. */
  function Enter(root: Schema, base: seq<Context>, s: Schema, e: Event): Validator
    requires IsBegin(e)
    decreases s, 1
  {
    if !KindAllows(s, e) then Validator(root, base, false)
    else
      var c := Context(s, TYPELESS, Starting(s, e), e.StartArray?, 0);
      if IsStart(e) then Validator(root, base + [c], true) else Validator(root, base, EndHolds(s, c.validators))
  }

  /** A new validator after its first event. */
  function Fresh(s: Schema, e: Event): Validator
    requires IsBegin(e)
    decreases s, 2
  {
    Enter(s, [], s, e)
  }

  /** The sub-validators `CreateParallelValidator` makes, after the event that made them. */
  function Starting(s: Schema, e: Event): (vs: seq<Validator>)
    requires IsBegin(e)
    ensures |vs| == Width(s)
    decreases s, 0
  {
    FreshAll(s.allOf, e) + FreshAll(s.anyOf, e) + FreshAll(s.oneOf, e)
    + if s.no.Some? then [Fresh(s.no.value, e)] else []
  }

  function FreshAll(ss: seq<Schema>, e: Event): (vs: seq<Validator>)
    requires IsBegin(e)
    ensures |vs| == |ss|
    decreases ss
  {
    if ss == [] then [] else FreshAll(ss[..|ss| - 1], e) + [Fresh(ss[|ss| - 1], e)]
  }

  /** One handler call; an invalid validator is frozen. */
  function Feed(v: Validator, e: Event): Validator {
    if !v.valid then v
    else if v.stack == [] then if IsBegin(e) then Fresh(v.root, e) else Rejected(v)
    else
      var n := |v.stack| - 1;
      var top := v.stack[n];
      var fed := FeedAll(v.stack, e);
      if IsBegin(e) then
        match NextSchema(top)
        case None => Rejected(v)
        case Some(t) => Enter(v.root, fed[n := Placed(fed[n], t)], t, e)
      else if e.Key? then
        match PropertySchema(top.schema, e.s)
        case None => Rejected(v)
        case Some(t) => v.(stack := fed[n := fed[n].(valueSchema := t)])
      else if SizeHolds(top.schema, e) && EndHolds(top.schema, fed[n].validators) then v.(stack := fed[..n])
      else Rejected(v)
  }

  /** Feed the sub-validators of every open context. */
  function FeedAll(stack: seq<Context>, e: Event): (fed: seq<Context>)
    ensures |fed| == |stack|
  {
    if stack == [] then [] else FeedAll(stack[..|stack| - 1], e) + [FeedContext(stack[|stack| - 1], e)]
  }

  function FeedContext(c: Context, e: Event): (fed: Context)
    ensures fed == c.(validators := fed.validators)
  {
    c.(validators := FeedEach(c.validators, e))
  }

  function FeedEach(vs: seq<Validator>, e: Event): (fed: seq<Validator>)
    ensures |fed| == |vs|
  {
    if vs == [] then [] else FeedEach(vs[..|vs| - 1], e) + [Feed(vs[|vs| - 1], e)]
  }

  // ---------------------------------------------------------------- runs of events

  function Run(v: Validator, es: seq<Event>): Validator {
    if es == [] then v else Feed(Run(v, es[..|es| - 1]), es[|es| - 1])
  }

  function RunAll(stack: seq<Context>, es: seq<Event>): (fed: seq<Context>)
    ensures |fed| == |stack|
  {
    if es == [] then stack else FeedAll(RunAll(stack, es[..|es| - 1]), es[|es| - 1])
  }

  function RunEach(vs: seq<Validator>, es: seq<Event>): (fed: seq<Validator>)
    ensures |fed| == |vs|
  {
    if es == [] then vs else FeedEach(RunEach(vs, es[..|es| - 1]), es[|es| - 1])
  }

  lemma {:induction false} RunAppend(v: Validator, a: seq<Event>, b: seq<Event>)
    ensures Run(v, a + b) == Run(Run(v, a), b)
  {
    hide Feed;
    if b == [] {
      assert a + b == a;
    } else {
      assert (a + b)[..|a + b| - 1] == a + b[..|b| - 1];
      RunAppend(v, a, b[..|b| - 1]);
    }
  }

  lemma {:induction false} RunAllAppend(stack: seq<Context>, a: seq<Event>, b: seq<Event>)
    ensures RunAll(stack, a + b) == RunAll(RunAll(stack, a), b)
  {
    if b == [] {
      assert a + b == a;
    } else {
      assert (a + b)[..|a + b| - 1] == a + b[..|b| - 1];
      RunAllAppend(stack, a, b[..|b| - 1]);
    }
  }

  lemma {:induction false} RunEachAppend(vs: seq<Validator>, a: seq<Event>, b: seq<Event>)
    ensures RunEach(vs, a + b) == RunEach(RunEach(vs, a), b)
  {
    if b == [] {
      assert a + b == a;
    } else {
      assert (a + b)[..|a + b| - 1] == a + b[..|b| - 1];
      RunEachAppend(vs, a, b[..|b| - 1]);
    }
  }

  lemma RunOne(v: Validator, e: Event)
    ensures Run(v, [e]) == Feed(v, e)
  {
    assert [e][..0] == [];
  }

  lemma RunAllOne(stack: seq<Context>, e: Event)
    ensures RunAll(stack, [e]) == FeedAll(stack, e)
  {
    assert [e][..0] == [];
  }

  lemma RunEachOne(vs: seq<Validator>, e: Event)
    ensures RunEach(vs, [e]) == FeedEach(vs, e)
  {
    assert [e][..0] == [];
  }

  lemma {:induction false} FrozenStays(v: Validator, es: seq<Event>)
    requires !v.valid
    ensures Run(v, es) == v
  {
    if es != [] {
      FrozenStays(v, es[..|es| - 1]);
    }
  }

  lemma {:induction false} FeedEachAt(vs: seq<Validator>, e: Event, k: nat)
    requires k < |vs|
    ensures FeedEach(vs, e)[k] == Feed(vs[k], e)
  {
    hide Feed;
    if k < |vs| - 1 {
      FeedEachAt(vs[..|vs| - 1], e, k);
    }
  }

  /** Validators that run side by side do not influence each other. */
  lemma {:induction false} RunEachAt(vs: seq<Validator>, es: seq<Event>, k: nat)
    requires k < |vs|
    ensures RunEach(vs, es)[k] == Run(vs[k], es)
  {
    if es != [] {
      var n := |es| - 1;
      RunEachAt(vs, es[..n], k);
      FeedEachAt(RunEach(vs, es[..n]), es[n], k);
    }
  }

  lemma {:induction false} FreshAt(ss: seq<Schema>, e: Event, k: nat)
    requires IsBegin(e) && k < |ss|
    ensures FreshAll(ss, e)[k] == Fresh(ss[k], e)
  {
    hide Fresh;
    if k < |ss| - 1 {
      FreshAt(ss[..|ss| - 1], e, k);
    }
  }

  lemma FeedAllAppend(base: seq<Context>, c: Context, e: Event)
    ensures FeedAll(base + [c], e) == FeedAll(base, e) + [FeedContext(c, e)]
  {
    assert (base + [c])[..|base|] == base;
  }

  // ---------------------------------------------------------------- one value

  predicate Verdicts(ss: seq<Schema>, vs: seq<Validator>, v: Value) {
    |vs| == |ss| && forall k | 0 <= k < |ss| :: vs[k].valid == Holds(ss[k], v)
  }

  /** The verdicts of the sub-validators of s on v, once they have seen all of v. */
  predicate Decided(s: Schema, vs: seq<Validator>, v: Value) {
    && |vs| == Width(s)
    && Verdicts(s.allOf, AllOfPart(s, vs), v)
    && Verdicts(s.anyOf, AnyOfPart(s, vs), v)
    && Verdicts(s.oneOf, OneOfPart(s, vs), v)
    && (s.no.Some? ==> vs[|vs| - 1].valid == Holds(s.no.value, v))
  }

  /** The combining keywords of a schema. */
  predicate CombinedHolds(s: Schema, v: Value) {
    && (forall k | 0 <= k < |s.allOf| :: Holds(s.allOf[k], v))
    && (s.anyOf != [] ==> exists k | 0 <= k < |s.anyOf| :: Holds(s.anyOf[k], v))
    && (s.oneOf != [] ==> exists k | 0 <= k < |s.oneOf| ::
          Holds(s.oneOf[k], v) && forall j | 0 <= j < |s.oneOf| && j != k :: !Holds(s.oneOf[j], v))
    && (s.no.Some? ==> !Holds(s.no.value, v))
  }

  /** The keywords about the value itself. */
  predicate OwnHolds(s: Schema, v: Value) {
    && KindHolds(s, v)
    && (v.ObjectValue? ==>
          && s.minProperties <= |v.members| <= s.maxProperties
          && forall k | 0 <= k < |v.members| :: v.members[k].name.StringValue? ==> MemberHolds(s, v.members[k]))
    && (v.ArrayValue? ==>
          && s.minItems <= |v.elements| <= s.maxItems
          && forall k | 0 <= k < |v.elements| :: ItemHolds(s, k, v.elements[k]))
  }

  lemma HoldsParts(s: Schema, v: Value)
    ensures Holds(s, v) <==> OwnHolds(s, v) && CombinedHolds(s, v)
  {
  }

  lemma EndDecides(s: Schema, vs: seq<Validator>, v: Value)
    requires Decided(s, vs, v)
    ensures EndHolds(s, vs) <==> CombinedHolds(s, v)
  {
    hide Holds, Verdicts, AllValid, SomeValid, OneValid, AllOfPart, AnyOfPart, OneOfPart;
    AllDecides(s.allOf, AllOfPart(s, vs), v);
    SomeDecides(s.anyOf, AnyOfPart(s, vs), v);
    OneDecides(s.oneOf, OneOfPart(s, vs), v);
  }

  lemma AllDecides(ss: seq<Schema>, vs: seq<Validator>, v: Value)
    requires Verdicts(ss, vs, v)
    ensures AllValid(vs) <==> forall k | 0 <= k < |ss| :: Holds(ss[k], v)
  {
    hide Holds;
  }

  lemma SomeDecides(ss: seq<Schema>, vs: seq<Validator>, v: Value)
    requires Verdicts(ss, vs, v)
    ensures SomeValid(vs) <==> exists k | 0 <= k < |ss| :: Holds(ss[k], v)
  {
    hide Holds;
    if k :| 0 <= k < |ss| && Holds(ss[k], v) {
      assert vs[k].valid;
    }
  }

  predicate SoleHolder(ss: seq<Schema>, v: Value, k: nat) {
    k < |ss| && Holds(ss[k], v) && forall j | 0 <= j < |ss| && j != k :: !Holds(ss[j], v)
  }

  predicate SoleValid(vs: seq<Validator>, k: nat) {
    k < |vs| && vs[k].valid && forall j | 0 <= j < |vs| && j != k :: !vs[j].valid
  }

  lemma SoleDecides(ss: seq<Schema>, vs: seq<Validator>, v: Value, k: nat)
    requires Verdicts(ss, vs, v)
    ensures SoleValid(vs, k) <==> SoleHolder(ss, v, k)
  {
    hide Holds;
  }

  lemma OneHolds(ss: seq<Schema>, v: Value)
    ensures (exists k: nat :: SoleHolder(ss, v, k)) <==>
              exists k | 0 <= k < |ss| :: Holds(ss[k], v) && forall j | 0 <= j < |ss| && j != k :: !Holds(ss[j], v)
  {
    hide Holds;
    if k: nat :| SoleHolder(ss, v, k) {
      assert Holds(ss[k], v);
    }
    if k :| 0 <= k < |ss| && Holds(ss[k], v) && forall j | 0 <= j < |ss| && j != k :: !Holds(ss[j], v) {
      assert SoleHolder(ss, v, k);
    }
  }

  lemma OneValidIs(vs: seq<Validator>)
    ensures OneValid(vs) <==> exists k: nat :: SoleValid(vs, k)
  {
    if k :| 0 <= k < |vs| && vs[k].valid && forall j | 0 <= j < |vs| && j != k :: !vs[j].valid {
      assert SoleValid(vs, k);
    }
    if k: nat :| SoleValid(vs, k) {
      assert vs[k].valid;
    }
  }

  lemma OneDecides(ss: seq<Schema>, vs: seq<Validator>, v: Value)
    requires Verdicts(ss, vs, v)
    ensures OneValid(vs) <==>
              exists k | 0 <= k < |ss| :: Holds(ss[k], v) && forall j | 0 <= j < |ss| && j != k :: !Holds(ss[j], v)
  {
    hide *;
    OneValidIs(vs);
    OneHolds(ss, v);
    forall k: nat ensures SoleValid(vs, k) <==> SoleHolder(ss, v, k) {
      SoleDecides(ss, vs, v, k);
    }
  }

  /** The result of feeding a whole value at a place where schema s applies to it. */
  predicate Outcome(after: Validator, root: Schema, base: seq<Context>, v: Value, holds: bool)
    requires Valid(v)
  {
    if holds then after == Validator(root, RunAll(base, Replay(v)), true) else !after.valid
  }

  function Head(v: Value): Event
    requires Valid(v)
  {
    Replay(v)[0]
  }

  lemma HeadBegins(v: Value)
    requires Valid(v)
    ensures Replay(v) != [] && IsBegin(Head(v)) && Replay(v) == [Head(v)] + Replay(v)[1..]
    ensures IsStart(Head(v)) <==> v.ObjectValue? || v.ArrayValue?
    ensures v.ObjectValue? ==> Head(v) == StartObject
    ensures v.ArrayValue? ==> Head(v) == StartArray
    ensures !IsStart(Head(v)) ==> Replay(v)[1..] == []
  {
  }

  lemma KindDecides(s: Schema, v: Value)
    requires Valid(v)
    ensures KindAllows(s, Head(v)) <==> KindHolds(s, v)
  {
  }

  /** From the context pushed for a value of schema s to the end of the value. */
  lemma {:induction false} ValueValidated(root: Schema, base: seq<Context>, s: Schema, v: Value)
    requires Valid(v) && WellFormed(s)
    ensures IsBegin(Head(v))
    ensures Outcome(Run(Enter(root, FeedAll(base, Head(v)), s, Head(v)), Replay(v)[1..]), root, base, v, Holds(s, v))
    decreases v, 0, s, 2
  {
    hide Holds, Run, FeedAll, Starting, EndHolds, CombinedHolds, OwnHolds, Replay, WellFormed, Valid, RunAll;
    HeadBegins(v);
    HoldsParts(s, v);
    KindDecides(s, v);
    var e := Head(v);
    var v0 := Enter(root, FeedAll(base, e), s, e);
    if !KindAllows(s, e) {
      OwnNeedsKind(s, v);
      FrozenStays(v0, Replay(v)[1..]);
    } else {
      SubsValidated(s, v);
      if v.ArrayValue? {
        assert v == ArrayValue(v.elements);
        ArrayValidated(root, base, s, v.elements);
      } else if v.ObjectValue? {
        assert v == ObjectValue(v.members);
        ObjectValidated(root, base, s, v.members);
      } else {
        LeafValidated(root, base, s, v);
      }
    }
  }

  lemma OwnNeedsKind(s: Schema, v: Value)
    ensures OwnHolds(s, v) ==> KindHolds(s, v)
    ensures KindHolds(s, v) && !v.ArrayValue? && !v.ObjectValue? ==> OwnHolds(s, v)
  {
  }

  lemma LeafValidated(root: Schema, base: seq<Context>, s: Schema, v: Value)
    requires Valid(v) && !v.ArrayValue? && !v.ObjectValue? && IsBegin(Head(v)) && KindAllows(s, Head(v))
    requires Decided(s, RunEach(Starting(s, Head(v)), Replay(v)[1..]), v)
    ensures Outcome(Run(Enter(root, FeedAll(base, Head(v)), s, Head(v)), Replay(v)[1..]), root, base, v, Holds(s, v))
  {
    hide Holds, FeedAll, Starting, EndHolds, CombinedHolds, OwnHolds, Valid;
    HeadBegins(v);
    HoldsParts(s, v);
    KindDecides(s, v);
    OwnNeedsKind(s, v);
    EndDecides(s, Starting(s, Head(v)), v);
    RunAllOne(base, Head(v));
    assert Replay(v) == [Head(v)];
  }

  /** The sub-validators of s see all of v and decide their schemas. */
  lemma {:induction false} SubsValidated(s: Schema, v: Value)
    requires Valid(v) && WellFormed(s)
    ensures IsBegin(Head(v)) && Decided(s, RunEach(Starting(s, Head(v)), Replay(v)[1..]), v)
    decreases v, 0, s, 1
  {
    hide Holds, Run, Replay, Valid, RunEach, Fresh, Starting, FreshAll, Verdicts, WellFormed, AllWellFormed,
         AllOfPart, AnyOfPart, OneOfPart;
    HeadBegins(v);
    var e, rest := Head(v), Replay(v)[1..];
    SubSchemasWellFormed(s);
    GroupValidated(s.allOf, v);
    GroupValidated(s.anyOf, v);
    GroupValidated(s.oneOf, v);
    StartingParts(s, e);
    PartsOfRun(s, Starting(s, e), rest);
    if s.no.Some? {
      SubValidated(s.no.value, v);
    }
  }

  lemma PartsOfRun(s: Schema, vs: seq<Validator>, es: seq<Event>)
    requires |vs| == Width(s)
    ensures AllOfPart(s, RunEach(vs, es)) == RunEach(AllOfPart(s, vs), es)
    ensures AnyOfPart(s, RunEach(vs, es)) == RunEach(AnyOfPart(s, vs), es)
    ensures OneOfPart(s, RunEach(vs, es)) == RunEach(OneOfPart(s, vs), es)
    ensures vs != [] ==> RunEach(vs, es)[|vs| - 1] == Run(vs[|vs| - 1], es)
  {
    hide RunEach, Run;
    var a := |s.allOf|;
    var b := a + |s.anyOf|;
    RunEachSlice(vs, es, 0, a);
    RunEachSlice(vs, es, a, b);
    RunEachSlice(vs, es, b, b + |s.oneOf|);
    if vs != [] {
      RunEachAt(vs, es, |vs| - 1);
    }
  }

  lemma SubSchemasWellFormed(s: Schema)
    requires WellFormed(s)
    ensures AllWellFormed(s.allOf) && AllWellFormed(s.anyOf) && AllWellFormed(s.oneOf)
    ensures s.no.Some? ==> WellFormed(s.no.value)
  {
  }

  predicate AllWellFormed(ss: seq<Schema>) {
    forall k | 0 <= k < |ss| :: WellFormed(ss[k])
  }

  lemma StartingParts(s: Schema, e: Event)
    requires IsBegin(e)
    ensures AllOfPart(s, Starting(s, e)) == FreshAll(s.allOf, e)
    ensures AnyOfPart(s, Starting(s, e)) == FreshAll(s.anyOf, e)
    ensures OneOfPart(s, Starting(s, e)) == FreshAll(s.oneOf, e)
    ensures s.no.Some? ==> Starting(s, e)[Width(s) - 1] == Fresh(s.no.value, e)
  {
    hide Fresh, FreshAll;
  }

  lemma RunEachSlice(vs: seq<Validator>, es: seq<Event>, a: nat, b: nat)
    requires a <= b <= |vs|
    ensures RunEach(vs, es)[a..b] == RunEach(vs[a..b], es)
  {
    forall k | 0 <= k < b - a ensures RunEach(vs, es)[a..b][k] == RunEach(vs[a..b], es)[k] {
      RunEachAt(vs, es, a + k);
      RunEachAt(vs[a..b], es, k);
    }
  }

  lemma {:induction false} GroupValidated(ss: seq<Schema>, v: Value)
    requires Valid(v) && AllWellFormed(ss)
    ensures IsBegin(Head(v)) && Verdicts(ss, RunEach(FreshAll(ss, Head(v)), Replay(v)[1..]), v)
    decreases v, 0, ss, 4
  {
    hide Holds, Run, Replay, Valid, RunEach, Fresh, FreshAll, WellFormed;
    HeadBegins(v);
    var e, rest := Head(v), Replay(v)[1..];
    var vs := FreshAll(ss, e);
    forall k | 0 <= k < |ss| ensures RunEach(vs, rest)[k].valid == Holds(ss[k], v) {
      FreshAt(ss, e, k);
      RunEachAt(vs, rest, k);
      SubValidated(ss[k], v);
    }
  }

  lemma {:induction false} SubValidated(s: Schema, v: Value)
    requires Valid(v) && WellFormed(s)
    ensures IsBegin(Head(v)) && Run(Fresh(s, Head(v)), Replay(v)[1..]).valid == Holds(s, v)
    decreases v, 0, s, 3
  {
    hide Holds, Run, Replay, Valid;
    assert FeedAll([], Head(v)) == [];
    ValueValidated(s, [], s, v);
  }

  // ---------------------------------------------------------------- arrays

  /** The context of an array of schema s after its first k elements. */
  predicate InArray(c: Context, s: Schema, k: nat, vs: seq<Validator>) {
    c.schema == s && c.inArray && c.arrayElementIndex == k && c.validators == vs
  }

  /** While an array is read: the contexts below have seen what was read, and the elements so far are allowed. */
  predicate ArrayProgress(after: Validator, root: Schema, below: seq<Context>, s: Schema, k: nat, vs: seq<Validator>) {
    && after.valid && after.root == root && |after.stack| == |below| + 1
    && after.stack[..|below|] == below && InArray(after.stack[|below|], s, k, vs)
  }

  predicate ItemsHold(s: Schema, es: seq<Value>) {
    forall k | 0 <= k < |es| :: ItemHolds(s, k, es[k])
  }

  lemma {:induction false} ElementsValidated(start: Validator, below: seq<Context>, s: Schema, vs: seq<Validator>, es: seq<Value>)
    requires ValidElements(es) && WellFormed(s)
    requires ArrayProgress(start, start.root, below, s, 0, vs)
    ensures var evs := ReplayElements(es);
            if ItemsHold(s, es)
            then ArrayProgress(Run(start, evs), start.root, RunAll(below, evs), s, |es|, RunEach(vs, evs))
            else !Run(start, evs).valid
    decreases es, 0
  {
    hide Holds, ItemHolds, Run, Replay, Valid, RunEach, RunAll, WellFormed, ReplayElements;
    NoElements();
    if es == [] {
      NothingRun(start, below, vs);
    } else {
      var n := |es| - 1;
      var before := ReplayElements(es[..n]);
      ElementsUnfold(es);
      ElementsValidated(start, below, s, vs, es[..n]);
      RunAppend(start, before, Replay(es[n]));
      RunAllAppend(below, before, Replay(es[n]));
      RunEachAppend(vs, before, Replay(es[n]));
      assert forall k | 0 <= k < n :: es[..n][k] == es[k];
      if ItemsHold(s, es[..n]) {
        ElementValidated(Run(start, before), RunAll(below, before), s, RunEach(vs, before), n, es[n]);
      } else {
        FrozenStays(Run(start, before), Replay(es[n]));
      }
    }
  }

  lemma NoElements()
    ensures ReplayElements([]) == [] && ReplayMembers([]) == []
  {
  }

  lemma ElementsUnfold(es: seq<Value>)
    requires ValidElements(es) && es != []
    ensures ReplayElements(es) == ReplayElements(es[..|es| - 1]) + Replay(es[|es| - 1])
  {
  }

  lemma NothingRun(v: Validator, stack: seq<Context>, vs: seq<Validator>)
    ensures Run(v, []) == v && RunAll(stack, []) == stack && RunEach(vs, []) == vs
  {
  }

  /** One more element. */
  lemma {:induction false} ElementValidated(v: Validator, below: seq<Context>, s: Schema, vs: seq<Validator>, k: nat, x: Value)
    requires Valid(x) && WellFormed(s) && ArrayProgress(v, v.root, below, s, k, vs)
    ensures if ItemHolds(s, k, x)
            then ArrayProgress(Run(v, Replay(x)), v.root, RunAll(below, Replay(x)), s, k + 1, RunEach(vs, Replay(x)))
            else !Run(v, Replay(x)).valid
    decreases x, 1
  {
    hide Holds, ItemHolds, Run, Replay, Valid, RunEach, RunAll, WellFormed, ItemSchema, FeedAll, FeedEach, Enter;
    HeadBegins(x);
    var e, rest := Head(x), Replay(x)[1..];
    var n := |below|;
    var top := v.stack[n];
    assert v.stack == below + [top];
    FeedAllAppend(below, top, e);
    RunAppend(v, [e], rest);
    RunOne(v, e);
    ItemSchemaDecides(s, k, x);
    match ItemSchema(s, k)
    case None =>
      FrozenStays(Rejected(v), rest);
    case Some(t) =>
      ItemSchemaWellFormed(s, k);
      var c := Placed(top, t);
      FeedAllAppend(below, c, e);
      assert Feed(v, e) == Enter(v.root, FeedAll(below + [c], e), t, e) by {
        assert FeedAll(v.stack, e)[n := Placed(FeedContext(top, e), t)] == FeedAll(below + [c], e);
      }
      ValueValidated(v.root, below + [c], t, x);
      RunAllTop(below, c, Replay(x));
  }

  lemma ItemSchemaWellFormed(s: Schema, k: nat)
    requires WellFormed(s)
    ensures ItemSchema(s, k).Some? ==> WellFormed(ItemSchema(s, k).value)
  {
  }

  /** Running contexts changes nothing but their sub-validators. */
  lemma {:induction false} RunAllTop(below: seq<Context>, c: Context, es: seq<Event>)
    ensures RunAll(below + [c], es) == RunAll(below, es) + [c.(validators := RunEach(c.validators, es))]
  {
    hide FeedAll, FeedEach;
    if es == [] {
      NothingRun(New(TYPELESS), below, c.validators);
      assert c.(validators := c.validators) == c;
    } else {
      var n := |es| - 1;
      RunAllTop(below, c, es[..n]);
      FeedAllAppend(RunAll(below, es[..n]), c.(validators := RunEach(c.validators, es[..n])), es[n]);
    }
  }

  /** A whole array, from behind its opening event. */
  lemma {:induction false} ArrayValidated(root: Schema, base: seq<Context>, s: Schema, es: seq<Value>)
    requires Valid(ArrayValue(es)) && WellFormed(s) && KindAllows(s, StartArray)
    requires Decided(s, RunEach(Starting(s, StartArray), Replay(ArrayValue(es))[1..]), ArrayValue(es))
    ensures Outcome(Run(Enter(root, FeedAll(base, StartArray), s, StartArray), Replay(ArrayValue(es))[1..]),
                    root, base, ArrayValue(es), Holds(s, ArrayValue(es)))
    decreases es, 1
  {
    hide Holds, ItemHolds, Run, Replay, Valid, RunEach, RunAll, WellFormed, FeedAll, FeedEach, Starting, EndHolds,
         CombinedHolds, OwnHolds;
    var v, e, close := ArrayValue(es), StartArray, EndArray(|es|);
    ArrayReplay(es);
    var inner := ReplayElements(es);
    var below, vs := FeedAll(base, e), Starting(s, e);
    var v0 := Enter(root, below, s, e);
    assert v0.stack[..|below|] == below;
    ElementsValidated(v0, below, s, vs, es);
    RunAppend(v0, inner, [close]);
    RunEachAppend(vs, inner, [close]);
    RunEachOne(RunEach(vs, inner), close);
    ContainerRun(base, e, inner, close);
    HoldsParts(s, v);
    OwnArray(s, es);
    var v1 := Run(v0, inner);
    RunOne(v1, close);
    if ItemsHold(s, es) {
      Ends(v1, RunAll(below, inner), s, RunEach(vs, inner), close, v);
    } else {
      FrozenStays(v1, [close]);
    }
  }

  lemma ArrayReplay(es: seq<Value>)
    requires Valid(ArrayValue(es))
    ensures ValidElements(es) && Replay(ArrayValue(es)) == [StartArray] + ReplayElements(es) + [EndArray(|es|)]
    ensures Replay(ArrayValue(es))[1..] == ReplayElements(es) + [EndArray(|es|)]
  {
    hide *;
    ArrayReplays(es);
    Unopened(StartArray, ReplayElements(es), EndArray(|es|));
  }

  lemma ArrayReplays(es: seq<Value>)
    requires Valid(ArrayValue(es))
    ensures ValidElements(es) && Replay(ArrayValue(es)) == [StartArray] + ReplayElements(es) + [EndArray(|es|)]
  {
    hide ReplayElements;
  }

  lemma ContainerRun(base: seq<Context>, open: Event, inner: seq<Event>, close: Event)
    ensures RunAll(base, [open] + inner + [close]) == FeedAll(RunAll(FeedAll(base, open), inner), close)
  {
    hide FeedAll;
    RunAllOne(base, open);
    RunAllAppend(base, [open], inner);
    RunAllAppend(base, [open] + inner, [close]);
    RunAllOne(RunAll(FeedAll(base, open), inner), close);
  }

  lemma OwnArray(s: Schema, es: seq<Value>)
    ensures OwnHolds(s, ArrayValue(es)) <==>
              ArrayKind in s.kinds && SizeHolds(s, EndArray(|es|)) && ItemsHold(s, es)
  {
  }

  /** The closing event of a container whose context is on top. */
  lemma Ends(v: Validator, below: seq<Context>, s: Schema, vs: seq<Validator>, close: Event, x: Value)
    requires v.valid && |v.stack| == |below| + 1 && v.stack[..|below|] == below
    requires v.stack[|below|].schema == s && v.stack[|below|].validators == vs
    requires close.EndArray? || close.EndObject?
    requires Decided(s, FeedEach(vs, close), x)
    ensures Feed(v, close) ==
              if SizeHolds(s, close) && CombinedHolds(s, x) then Validator(v.root, FeedAll(below, close), true) else Rejected(v)
  {
    hide CombinedHolds, EndHolds, FeedEach;
    var n := |below|;
    assert v.stack == below + [v.stack[n]];
    FeedAllAppend(below, v.stack[n], close);
    EndDecides(s, FeedEach(vs, close), x);
    assert FeedAll(v.stack, close)[..n] == FeedAll(below, close);
  }

  // ---------------------------------------------------------------- objects

  predicate ObjectProgress(after: Validator, root: Schema, below: seq<Context>, s: Schema, vs: seq<Validator>) {
    && after.valid && after.root == root && |after.stack| == |below| + 1
    && after.stack[..|below|] == below
    && after.stack[|below|].schema == s && !after.stack[|below|].inArray && after.stack[|below|].validators == vs
  }

  predicate MembersHold(s: Schema, ms: seq<Member>) {
    forall k | 0 <= k < |ms| :: ms[k].name.StringValue? ==> MemberHolds(s, ms[k])
  }

  lemma {:induction false} MembersValidated(start: Validator, below: seq<Context>, s: Schema, vs: seq<Validator>, ms: seq<Member>)
    requires ValidMembers(ms) && WellFormed(s)
    requires ObjectProgress(start, start.root, below, s, vs)
    ensures var evs := ReplayMembers(ms);
            if MembersHold(s, ms)
            then ObjectProgress(Run(start, evs), start.root, RunAll(below, evs), s, RunEach(vs, evs))
            else !Run(start, evs).valid
    decreases ms, 0
  {
    hide Holds, MemberHolds, Run, ReplayMember, Valid, RunEach, RunAll, WellFormed, ReplayMembers;
    NoElements();
    if ms == [] {
      NothingRun(start, below, vs);
    } else {
      var n := |ms| - 1;
      var before := ReplayMembers(ms[..n]);
      MembersUnfold(ms);
      MembersValidated(start, below, s, vs, ms[..n]);
      RunAppend(start, before, ReplayMember(ms[n]));
      RunAllAppend(below, before, ReplayMember(ms[n]));
      RunEachAppend(vs, before, ReplayMember(ms[n]));
      assert forall k | 0 <= k < n :: ms[..n][k] == ms[k];
      if MembersHold(s, ms[..n]) {
        MemberValidated(Run(start, before), RunAll(below, before), s, RunEach(vs, before), ms[n]);
      } else {
        FrozenStays(Run(start, before), ReplayMember(ms[n]));
      }
    }
  }

  lemma MembersUnfold(ms: seq<Member>)
    requires ValidMembers(ms) && ms != []
    ensures ReplayMembers(ms) == ReplayMembers(ms[..|ms| - 1]) + ReplayMember(ms[|ms| - 1])
  {
  }

  /** One more member: its name selects the schema of its value. */
  lemma {:induction false} MemberValidated(v: Validator, below: seq<Context>, s: Schema, vs: seq<Validator>, m: Member)
    requires m.name.StringValue? && Valid(m.value) && WellFormed(s) && ObjectProgress(v, v.root, below, s, vs)
    ensures var evs := ReplayMember(m);
            if MemberHolds(s, m)
            then ObjectProgress(Run(v, evs), v.root, RunAll(below, evs), s, RunEach(vs, evs))
            else !Run(v, evs).valid
    decreases m
  {
    hide Holds, MemberHolds, Run, Replay, Valid, RunEach, RunAll, WellFormed, PropertySchema, FeedAll, FeedEach;
    var key := Key(m.name.s);
    var n := |below|;
    var top := v.stack[n];
    assert v.stack == below + [top];
    FeedAllAppend(below, top, key);
    RunAppend(v, [key], Replay(m.value));
    RunOne(v, key);
    PropertiesUnique(s);
    PropertySchemaDecides(s, m);
    match PropertySchema(s, m.name.s)
    case None =>
      FrozenStays(Rejected(v), Replay(m.value));
    case Some(t) =>
      PropertySchemaWellFormed(s, m.name.s);
      var c := FeedContext(top, key).(valueSchema := t);
      var below' := FeedAll(below, key);
      assert FeedAll(v.stack, key)[n := c] == below' + [c];
      MemberValueValidated(v.(stack := below' + [c]), below', c, t, m.value);
      RunAllOne(below, key);
      RunAllAppend(below, [key], Replay(m.value));
      RunEachOne(vs, key);
      RunEachAppend(vs, [key], Replay(m.value));
      RunAllTop(below', c, Replay(m.value));
  }

  lemma PropertiesUnique(s: Schema)
    requires WellFormed(s)
    ensures UniqueNames(s.properties)
  {
  }

  lemma {:induction false} PropertySchemaWellFormed(s: Schema, name: Text)
    requires WellFormed(s)
    ensures PropertySchema(s, name).Some? ==> WellFormed(PropertySchema(s, name).value)
  {
    FindPropertyFinds(s.properties, name, 0);
  }

  lemma {:induction false} MemberValueValidated(v: Validator, below: seq<Context>, c: Context, t: Schema, x: Value)
    requires Valid(x) && WellFormed(t) && v.valid && v.stack == below + [c] && !c.inArray && c.valueSchema == t
    ensures Outcome(Run(v, Replay(x)), v.root, below + [c], x, Holds(t, x))
    decreases x, 1
  {
    hide Holds, Run, Replay, Valid, RunAll, WellFormed, FeedAll, Enter;
    HeadBegins(x);
    var e, rest := Head(x), Replay(x)[1..];
    RunAppend(v, [e], rest);
    RunOne(v, e);
    var fed := FeedAll(v.stack, e);
    FeedAllAppend(below, c, e);
    assert fed[|below| := fed[|below|]] == fed;
    ValueValidated(v.root, below + [c], t, x);
  }

  lemma {:induction false} ObjectValidated(root: Schema, base: seq<Context>, s: Schema, ms: seq<Member>)
    requires Valid(ObjectValue(ms)) && WellFormed(s) && KindAllows(s, StartObject)
    requires Decided(s, RunEach(Starting(s, StartObject), Replay(ObjectValue(ms))[1..]), ObjectValue(ms))
    ensures Outcome(Run(Enter(root, FeedAll(base, StartObject), s, StartObject), Replay(ObjectValue(ms))[1..]),
                    root, base, ObjectValue(ms), Holds(s, ObjectValue(ms)))
    decreases ms, 1
  {
    hide Holds, MemberHolds, Run, Replay, Valid, RunEach, RunAll, WellFormed, FeedAll, FeedEach, Starting,
         EndHolds, CombinedHolds, OwnHolds;
    var v, e, close := ObjectValue(ms), StartObject, EndObject(|ms|);
    ObjectReplay(ms);
    var inner := ReplayMembers(ms);
    var below, vs := FeedAll(base, e), Starting(s, e);
    var v0 := Enter(root, below, s, e);
    assert v0.stack[..|below|] == below;
    MembersValidated(v0, below, s, vs, ms);
    RunAppend(v0, inner, [close]);
    RunEachAppend(vs, inner, [close]);
    RunEachOne(RunEach(vs, inner), close);
    ContainerRun(base, e, inner, close);
    HoldsParts(s, v);
    OwnObject(s, ms);
    var v1 := Run(v0, inner);
    RunOne(v1, close);
    if MembersHold(s, ms) {
      Ends(v1, RunAll(below, inner), s, RunEach(vs, inner), close, v);
    } else {
      FrozenStays(v1, [close]);
    }
  }

  lemma ObjectReplay(ms: seq<Member>)
    requires Valid(ObjectValue(ms))
    ensures ValidMembers(ms) && Replay(ObjectValue(ms)) == [StartObject] + ReplayMembers(ms) + [EndObject(|ms|)]
    ensures Replay(ObjectValue(ms))[1..] == ReplayMembers(ms) + [EndObject(|ms|)]
  {
    hide *;
    ObjectReplays(ms);
    Unopened(StartObject, ReplayMembers(ms), EndObject(|ms|));
  }

  lemma ObjectReplays(ms: seq<Member>)
    requires Valid(ObjectValue(ms))
    ensures ValidMembers(ms) && Replay(ObjectValue(ms)) == [StartObject] + ReplayMembers(ms) + [EndObject(|ms|)]
  {
    hide ReplayMembers, ReplayMember;
  }

  lemma Unopened(open: Event, inner: seq<Event>, close: Event)
    ensures ([open] + inner + [close])[1..] == inner + [close]
  {
  }

  lemma OwnObject(s: Schema, ms: seq<Member>)
    ensures OwnHolds(s, ObjectValue(ms)) <==>
              ObjectKind in s.kinds && SizeHolds(s, EndObject(|ms|)) && MembersHold(s, ms)
  {
  }

  // ---------------------------------------------------------------- the theorem

  /** For every well-formed schema and every value, one pass over the events decides the schema. */
  lemma OnePassDecides(s: Schema, v: Value)
    requires WellFormed(s) && Valid(v)
    ensures Run(New(s), Replay(v)).valid <==> Holds(s, v)
    ensures Holds(s, v) ==> Run(New(s), Replay(v)) == New(s)
  {
    hide Holds, Replay, Valid, WellFormed, Enter, FeedAll, Run;
    HeadBegins(v);
    RunAppend(New(s), [Head(v)], Replay(v)[1..]);
    RunOne(New(s), Head(v));
    NoContexts(Head(v));
    ValueValidated(s, [], s, v);
    NoContextsRun(Replay(v));
  }

  lemma NoContexts(e: Event)
    ensures FeedAll([], e) == []
  {
  }

  lemma NoContextsRun(es: seq<Event>)
    ensures RunAll([], es) == []
  {
  }
}
