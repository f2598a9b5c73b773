/** The document values: their storage of numbers, and the events `Accept` sends. */
module Values {
  import opened Bytes
  import opened Events

  datatype Value =
    | NullValue
    | FalseValue
    | TrueValue
    | ObjectValue(members: seq<Member>)
    | ArrayValue(elements: seq<Value>)
    | StringValue(s: Text)
    | NumberValue(n: Number)

  datatype Member = Member(name: Value, value: Value)

  datatype Flags = Flags(isInt: bool, isUint: bool, isInt64: bool, isUint64: bool)

  /** Eight bytes read as an unsigned word, with the integer type flags; or a double, by its token. */
  datatype Number = Integer(bits: uint64, flags: Flags) | Real(token: Text)

  // ---------------------------------------------------------------- numbers

  const W64: int := 0x1_0000_0000_0000_0000
  const INT_FLAGS := Flags(true, false, true, false)
  const UINT_FLAGS := Flags(false, true, true, true)

  /** The word a 64-bit integer is stored as. */
  function Word(i: int64): uint64 {
    if i < 0 then i + W64 else i
  }

  /** The word read back as a signed 64-bit, or its low half as a 32-bit, integer. */
  function AsInt64(w: uint64): int64 {
    if w < 0x8000_0000_0000_0000 then w else w - W64
  }

  function AsUint(w: uint64): uint32 {
    w % 0x1_0000_0000
  }

  function AsInt(w: uint64): int32 {
    var low := AsUint(w);
    if low < 0x8000_0000 then low else low - 0x1_0000_0000
  }

  /** `kNumberIntFlag`, `kNumberUintFlag` and their like, and the bit tests that add to them. */
  function FromInt(i: int32): Number {
    Integer(Word(i), if i >= 0 then INT_FLAGS.(isUint := true, isUint64 := true) else INT_FLAGS)
  }

  function FromUint(u: uint32): Number {
    Integer(u, if u / 0x8000_0000 % 2 == 1 then UINT_FLAGS else UINT_FLAGS.(isInt := true, isInt64 := true))
  }

  function FromInt64(i: int64): Number {
    Integer(Word(i),
            if i >= 0 then
              Flags(i / 0x8000_0000 == 0, i / 0x1_0000_0000 == 0, true, true)
            else Flags(i >= -0x8000_0000, false, true, false))
  }

  function FromUint64(u: uint64): Number {
    Integer(u, Flags(u / 0x8000_0000 == 0, u / 0x1_0000_0000 == 0, u / 0x8000_0000_0000_0000 == 0, true))
  }

  /** The integers a 64-bit word holds, signed or not. */
  predicate Storable(v: int) {
    -0x8000_0000_0000_0000 <= v < 0x1_0000_0000_0000_0000
  }

  /** How an integer should be stored, whatever event reported it: each flag says whether its type holds v. */
  function Stored(v: int): Number
    requires Storable(v)
  {
    Integer(
      if v < 0 then v + W64 else v,
      Flags(
        -0x8000_0000 <= v < 0x8000_0000,
        0 <= v < 0x1_0000_0000,
        -0x8000_0000_0000_0000 <= v < 0x8000_0000_0000_0000,
        0 <= v))
  }

  /** All four constructors store the same integer in the same way, and set each flag exactly by its range. */
  lemma ConstructorsAgree(v: int)
    ensures -0x8000_0000 <= v < 0x8000_0000 ==> FromInt(v) == Stored(v)
    ensures 0 <= v < 0x1_0000_0000 ==> FromUint(v) == Stored(v)
    ensures -0x8000_0000_0000_0000 <= v < 0x8000_0000_0000_0000 ==> FromInt64(v) == Stored(v)
    ensures 0 <= v < 0x1_0000_0000_0000_0000 ==> FromUint64(v) == Stored(v)
  {
  }

  /** The integer a stored number denotes: negative exactly when only the signed reading applies. */
  function IntegerOf(n: Number): int
    requires n.Integer?
  {
    if n.flags.isUint64 then n.bits else AsInt64(n.bits)
  }

  /** A number as some constructor left it. */
  predicate WellStored(n: Number) {
    n.Integer? ==> Storable(IntegerOf(n)) && n == Stored(IntegerOf(n))
  }

  lemma StoredIsWellStored(v: int)
    requires Storable(v)
    ensures WellStored(Stored(v)) && IntegerOf(Stored(v)) == v
  {
  }

  /** The event `Accept` sends for a number. */
  function NumberEvent(n: Number): Event {
    match n
    case Real(token) => Double(token)
    case Integer(bits, flags) =>
      if flags.isInt then Int(AsInt(bits))
      else if flags.isUint then Uint(AsUint(bits))
      else if flags.isInt64 then Int64(AsInt64(bits))
      else Uint64(bits)
  }

  predicate IsNumberEvent(e: Event) {
    e.Int? || e.Uint? || e.Int64? || e.Uint64? || e.Double?
  }

  /** The number the document handler constructs. */
  function EventNumber(e: Event): Number
    requires IsNumberEvent(e)
  {
    match e
    case Int(i) => FromInt(i)
    case Uint(u) => FromUint(u)
    case Int64(i64) => FromInt64(i64)
    case Uint64(u64) => FromUint64(u64)
    case Double(token) => Real(token)
  }

  /** The integer an event reports. */
  function EventInteger(e: Event): int
    requires IsNumberEvent(e) && !e.Double?
  {
    match e
    case Int(i) => i
    case Uint(u) => u
    case Int64(i64) => i64
    case Uint64(u64) => u64
  }

  /** The constructor an event selects leaves the integer it reports. */
  lemma EventStored(e: Event)
    requires IsNumberEvent(e) && !e.Double?
    ensures Storable(EventInteger(e)) && EventNumber(e) == Stored(EventInteger(e)) && WellStored(EventNumber(e))
  {
    ConstructorsAgree(EventInteger(e));
    StoredIsWellStored(EventInteger(e));
  }

  /**
    Replaying a stored number constructs it again, and reports the integer it denotes, by the first of the four types
    int, unsigned, 64-bit and unsigned 64-bit that holds it.
   */
  lemma NumberReplays(n: Number)
    requires WellStored(n)
    ensures EventNumber(NumberEvent(n)) == n
    ensures n.Integer? ==>
              var v, e := IntegerOf(n), NumberEvent(n);
              && (e.Int? <==> -0x8000_0000 <= v < 0x8000_0000)
              && (e.Uint? <==> 0x8000_0000 <= v < 0x1_0000_0000)
              && (e.Int64? <==> 0x1_0000_0000 <= v < 0x8000_0000_0000_0000 || v < -0x8000_0000)
              && (e.Uint64? <==> 0x8000_0000_0000_0000 <= v)
    ensures n.Integer? ==> !NumberEvent(n).Double? && EventInteger(NumberEvent(n)) == IntegerOf(n)
  {
    if n.Integer? {
      var v := IntegerOf(n);
      if n.flags.isInt {
        LowHalf(v, n.bits);
      }
      ConstructorsAgree(v);
    }
  }

  lemma LowHalf(v: int, bits: uint64)
    requires -0x8000_0000 <= v < 0x8000_0000 && bits == if v < 0 then v + W64 else v
    ensures AsInt(bits) == v
  {
    assert W64 == 0x1_0000_0000 * 0x1_0000_0000;
    if v < 0 {
      assert bits == (v + 0x1_0000_0000) + 0xFFFF_FFFF * 0x1_0000_0000;
      assert bits % 0x1_0000_0000 == v + 0x1_0000_0000;
    }
  }

  // ---------------------------------------------------------------- values

  predicate IsLeaf(e: Event) {
    e.Null? || e.Bool? || e.String? || e.Key? || IsNumberEvent(e)
  }

  /** The value a leaf event constructs. */
  function LeafValue(e: Event): Value
    requires IsLeaf(e)
  {
    if e.Null? then NullValue
    else if e.Bool? then if e.b then TrueValue else FalseValue
    else if e.String? || e.Key? then StringValue(e.s)
    else NumberValue(EventNumber(e))
  }

  /** What holds of every value in memory: names are strings, sizes are 32-bit, numbers were constructed. */
  predicate Valid(v: Value) {
    match v
    case ObjectValue(ms) => |ms| < U32 && forall k | 0 <= k < |ms| :: ms[k].name.StringValue? && Valid(ms[k].value)
    case ArrayValue(es) => |es| < U32 && forall k | 0 <= k < |es| :: Valid(es[k])
    case NumberValue(n) => WellStored(n)
    case _ => true
  }

  predicate DoubleFree(v: Value) {
    match v
    case ObjectValue(ms) => forall k | 0 <= k < |ms| :: DoubleFree(ms[k].value)
    case ArrayValue(es) => forall k | 0 <= k < |es| :: DoubleFree(es[k])
    case NumberValue(n) => n.Integer?
    case _ => true
  }

  predicate ValidMembers(ms: seq<Member>) {
    forall k | 0 <= k < |ms| :: ms[k].name.StringValue? && Valid(ms[k].value)
  }

  predicate ValidElements(es: seq<Value>) {
    forall k | 0 <= k < |es| :: Valid(es[k])
  }

  /** The events of `Accept` on a handler that takes them all. */
  function Replay(v: Value): seq<Event>
    requires Valid(v)
  {
    match v
    case NullValue => [Event.Null]
    case FalseValue => [Bool(false)]
    case TrueValue => [Bool(true)]
    case StringValue(s) => [String(s)]
    case NumberValue(n) => [NumberEvent(n)]
    case ObjectValue(ms) => [StartObject] + ReplayMembers(ms) + [EndObject(|ms|)]
    case ArrayValue(es) => [StartArray] + ReplayElements(es) + [EndArray(|es|)]
  }

  function ReplayMember(m: Member): seq<Event>
    requires m.name.StringValue? && Valid(m.value)
  {
    [Key(m.name.s)] + Replay(m.value)
  }

  function ReplayMembers(ms: seq<Member>): seq<Event>
    requires ValidMembers(ms)
  {
    if ms == [] then [] else ReplayMembers(ms[..|ms| - 1]) + ReplayMember(ms[|ms| - 1])
  }

  function ReplayElements(es: seq<Value>): seq<Event>
    requires ValidElements(es)
  {
    if es == [] then [] else ReplayElements(es[..|es| - 1]) + Replay(es[|es| - 1])
  }
}
