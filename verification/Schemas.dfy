/** Schemas, and what they demand of a value: sections 5.3 to 5.5 of draft-fge-json-schema-validation-00. */
module Schemas {
  import opened Bytes
  import opened Values

  datatype Kind = NullKind | BooleanKind | ObjectKind | ArrayKind | StringKind | NumberKind | IntegerKind

  /** `additionalProperties` and `additionalItems`: a boolean or a schema. */
  datatype Additional = Allowed | Forbidden | Must(schema: Schema)

  datatype Items = AnyItems | ListItems(schema: Schema) | TupleItems(schemas: seq<Schema>)

  datatype Property = Property(name: Text, schema: Schema)

  /** A compiled schema. Without `type` all kinds are allowed; without an upper limit it is the largest 32-bit size. */
  datatype Schema = Schema(
    kinds: set<Kind>,
    allOf: seq<Schema>,
    anyOf: seq<Schema>,
    oneOf: seq<Schema>,
    no: Option<Schema>,
    properties: seq<Property>,
    additionalProperties: Additional,
    minProperties: nat,
    maxProperties: nat,
    items: Items,
    additionalItems: Additional,
    minItems: nat,
    maxItems: nat)

  const ALL_KINDS := {NullKind, BooleanKind, ObjectKind, ArrayKind, StringKind, NumberKind, IntegerKind}
  const LARGEST: nat := 0xFFFF_FFFF

  /** The schema `typeless_`: no keyword at all. */
  const TYPELESS := Schema(ALL_KINDS, [], [], [], None, [], Allowed, 0, LARGEST, AnyItems, Allowed, 0, LARGEST)

  /** "number" in a schema allows integers too. */
  predicate KindHolds(s: Schema, v: Value) {
    match v
    case NullValue => NullKind in s.kinds
    case FalseValue => BooleanKind in s.kinds
    case TrueValue => BooleanKind in s.kinds
    case StringValue(_) => StringKind in s.kinds
    case ObjectValue(_) => ObjectKind in s.kinds
    case ArrayValue(_) => ArrayKind in s.kinds
    case NumberValue(n) => NumberKind in s.kinds || (n.Integer? && IntegerKind in s.kinds)
  }

  /** One property has one schema, at every depth. */
  predicate UniqueNames(properties: seq<Property>) {
    forall i, j | 0 <= i < j < |properties| :: properties[i].name != properties[j].name
  }

  predicate WellFormed(s: Schema) {
    && UniqueNames(s.properties)
    && (forall k | 0 <= k < |s.properties| :: WellFormed(s.properties[k].schema))
    && (forall k | 0 <= k < |s.allOf| :: WellFormed(s.allOf[k]))
    && (forall k | 0 <= k < |s.anyOf| :: WellFormed(s.anyOf[k]))
    && (forall k | 0 <= k < |s.oneOf| :: WellFormed(s.oneOf[k]))
    && (s.no.Some? ==> WellFormed(s.no.value))
    && (s.additionalProperties.Must? ==> WellFormed(s.additionalProperties.schema))
    && (s.additionalItems.Must? ==> WellFormed(s.additionalItems.schema))
    && (s.items.ListItems? ==> WellFormed(s.items.schema))
    && (s.items.TupleItems? ==> forall k | 0 <= k < |s.items.schemas| :: WellFormed(s.items.schemas[k]))
  }

  /** A value meets a schema. An empty tuple of items constrains nothing, as if `items` were absent. */
  predicate Holds(s: Schema, v: Value)
    decreases v, 0, s
  {
    && KindHolds(s, v)
    && (v.ObjectValue? ==>
          && s.minProperties <= |v.members| <= s.maxProperties
          && forall k | 0 <= k < |v.members| :: v.members[k].name.StringValue? ==> MemberHolds(s, v.members[k]))
    && (v.ArrayValue? ==>
          && s.minItems <= |v.elements| <= s.maxItems
          && forall k | 0 <= k < |v.elements| :: ItemHolds(s, k, v.elements[k]))
    && (forall k | 0 <= k < |s.allOf| :: Holds(s.allOf[k], v))
    && (s.anyOf != [] ==> exists k | 0 <= k < |s.anyOf| :: Holds(s.anyOf[k], v))
    && (s.oneOf != [] ==> exists k | 0 <= k < |s.oneOf| ::
          Holds(s.oneOf[k], v) && forall j | 0 <= j < |s.oneOf| && j != k :: !Holds(s.oneOf[j], v))
    && (s.no.Some? ==> !Holds(s.no.value, v))
  }

  /** Section 5.4.4: a declared property meets its schema; the others are governed by `additionalProperties`. */
  predicate MemberHolds(s: Schema, m: Member)
    requires m.name.StringValue?
    decreases m
  {
    && (forall k | 0 <= k < |s.properties| :: s.properties[k].name == m.name.s ==> Holds(s.properties[k].schema, m.value))
    && ((forall k | 0 <= k < |s.properties| :: s.properties[k].name != m.name.s) ==>
          AdditionalHolds(s.additionalProperties, m.value))
  }

  predicate AdditionalHolds(a: Additional, v: Value)
    decreases v, 1
  {
    match a
    case Allowed => true
    case Forbidden => false
    case Must(t) => Holds(t, v)
  }

  /** Section 5.3.1: items by position, then `additionalItems`. */
  predicate ItemHolds(s: Schema, k: nat, v: Value)
    decreases v, 2
  {
    match s.items
    case AnyItems => true
    case ListItems(t) => Holds(t, v)
    case TupleItems(ts) => ts != [] ==> if k < |ts| then Holds(ts[k], v) else AdditionalHolds(s.additionalItems, v)
  }

  lemma TypelessHolds(v: Value)
    requires Valid(v)
    ensures Holds(TYPELESS, v)
  {
  }

  // ---------------------------------------------------------------- the schema of the next value

  /** `FindPropertyIndex`: the first declared property of that name. */
  function FindProperty(properties: seq<Property>, name: Text, k: nat): Option<Schema>
    requires k <= |properties|
    decreases |properties| - k
  {
    if k == |properties| then None
    else if properties[k].name == name then Some(properties[k].schema)
    else FindProperty(properties, name, k + 1)
  }

  function AdditionalSchema(a: Additional): Option<Schema> {
    match a
    case Allowed => Some(TYPELESS)
    case Forbidden => None
    case Must(t) => Some(t)
  }

  /** The schema `Key` selects for the value of a member; None when the member is disallowed. */
  function PropertySchema(s: Schema, name: Text): Option<Schema> {
    match FindProperty(s.properties, name, 0)
    case Some(t) => Some(t)
    case None => AdditionalSchema(s.additionalProperties)
  }

  /** The schema `BeginValue` selects for an array element. */
  function ItemSchema(s: Schema, k: nat): Option<Schema> {
    match s.items
    case AnyItems => Some(TYPELESS)
    case ListItems(t) => Some(t)
    case TupleItems(ts) =>
      if ts == [] then Some(TYPELESS) else if k < |ts| then Some(ts[k]) else AdditionalSchema(s.additionalItems)
  }

  lemma {:induction false} FindPropertyFinds(properties: seq<Property>, name: Text, k: nat)
    requires k <= |properties| && UniqueNames(properties)
    ensures match FindProperty(properties, name, k)
            case None => forall i | k <= i < |properties| :: properties[i].name != name
            case Some(t) => exists i | k <= i < |properties| :: properties[i].name == name && properties[i].schema == t
    decreases |properties| - k
  {
    if k < |properties| && properties[k].name != name {
      FindPropertyFinds(properties, name, k + 1);
    }
  }

  /** The schema selected for a member decides exactly what the keywords demand of it. */
  lemma PropertySchemaDecides(s: Schema, m: Member)
    requires UniqueNames(s.properties) && m.name.StringValue? && Valid(m.value)
    ensures MemberHolds(s, m) <==> match PropertySchema(s, m.name.s) case None => false case Some(t) => Holds(t, m.value)
  {
    hide Holds, Valid;
    FindPropertyFinds(s.properties, m.name.s, 0);
    TypelessHolds(m.value);
  }

  lemma ItemSchemaDecides(s: Schema, k: nat, v: Value)
    requires Valid(v)
    ensures ItemHolds(s, k, v) <==> match ItemSchema(s, k) case None => false case Some(t) => Holds(t, v)
  {
    hide Holds, Valid;
    TypelessHolds(v);
  }

  /** Section 5.3.1 read literally: with an empty tuple every item is an additional one. */
  predicate ItemHoldsLiterally(s: Schema, k: nat, v: Value) {
    match s.items
    case AnyItems => true
    case ListItems(t) => Holds(t, v)
    case TupleItems(ts) => if k < |ts| then Holds(ts[k], v) else AdditionalHolds(s.additionalItems, v)
  }

  /** The two readings judge an item differently exactly under an empty tuple, when it fails `additionalItems`. */
  lemma EmptyTupleIsIgnored(s: Schema, k: nat, v: Value)
    ensures ItemHolds(s, k, v) != ItemHoldsLiterally(s, k, v) <==>
              s.items == TupleItems([]) && !AdditionalHolds(s.additionalItems, v)
  {
    hide Holds, AdditionalHolds;
  }

  /** No item is allowed, and every item is let through. */
  lemma EmptyTupleLetsThrough(k: nat, v: Value)
    ensures var s := TYPELESS.(items := TupleItems([]), additionalItems := Forbidden);
            WellFormed(s) && ItemHolds(s, k, v) && !ItemHoldsLiterally(s, k, v)
  {
    EmptyTupleIsIgnored(TYPELESS.(items := TupleItems([]), additionalItems := Forbidden), k, v);
  }
}
