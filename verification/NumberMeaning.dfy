/**
  What becomes of the numbers of a text: each number event, and each number stored, is the numeral written at its place,
  with its sign and its value, and no digit of a double is lost before the conversion.
 */
module NumberMeaning {
  import opened Bytes
  import opened Strings
  import opened Events
  import opened Numbers
  import opened NumberArithmetic
  import opened Grammar
  import opened Values
  import opened RecursiveParser
  import opened Language
  import opened Documents

  // ---------------------------------------------------------------- one number

  /** The rational number a numeral denotes. */
  function Signed(n: Numeral): real
    requires LegalNumeral(n)
  {
    if n.minus then 0.0 - Magnitude(n) else Magnitude(n)
  }

  /** Neither a fraction nor an exponent. */
  predicate Whole(n: Numeral) {
    n.frac.None? && n.exp.None?
  }

  /** The integer a whole numeral denotes. */
  function IntegerWritten(n: Numeral): int
    requires LegalNumeral(n)
  {
    if n.minus then 0 - Numbers.Value(n.digits) else Numbers.Value(n.digits)
  }

  /** The event tells the numeral: an integer its value, a double the whole text that is converted. */
  predicate Reports(e: Event, n: Numeral) {
    && LegalNumeral(n) && IsNumberEvent(e)
    && (if e.Double? then e.token == NumeralText(n) else Whole(n) && EventInteger(e) as real == Signed(n))
  }

  /** Which event is sent: by the sign written, and by the narrowest of two widths that holds the integer. */
  predicate Selected(e: Event, n: Numeral)
    requires LegalNumeral(n)
  {
    var v := IntegerWritten(n);
    && (e.Int? <==> Whole(n) && n.minus && -0x8000_0000 <= v)
    && (e.Int64? <==> Whole(n) && n.minus && -0x8000_0000_0000_0000 <= v < -0x8000_0000)
    && (e.Uint? <==> Whole(n) && !n.minus && v < 0x1_0000_0000)
    && (e.Uint64? <==> Whole(n) && !n.minus && 0x1_0000_0000 <= v < 0x1_0000_0000_0000_0000)
  }

  /** The stored number tells the numeral. */
  predicate Stores(x: Number, n: Numeral) {
    && LegalNumeral(n)
    && (if x.Real? then x.token == NumeralText(n) else Whole(n) && IntegerOf(x) as real == Signed(n))
  }

  lemma WholeMagnitude(n: Numeral)
    requires LegalNumeral(n) && Whole(n)
    ensures Signed(n) == IntegerWritten(n) as real
  {
    hide Numbers.Value;
    TenToZero();
  }

  lemma EventReports(n: Numeral)
    requires LegalNumeral(n)
    ensures Reports(NumeralEvent(n), n) && Selected(NumeralEvent(n), n)
  {
    hide Numbers.Value, Magnitude, NumeralText, Signed;
    if Whole(n) {
      WholeMagnitude(n);
    }
  }

  /** The number scanned at p is reported with its sign and its value, or as the whole text of its token. */
  lemma NumberReported(env: Env, p: nat) returns (n: Numeral)
    requires p <= |env.text| && ScanNumber(env, p).Token?
    ensures var r := ScanNumber(env, p);
            env.text[p..r.end] == NumeralText(n) && Reports(r.value, n) && Selected(r.value, n)
  {
    hide Reports, Selected, NumeralEvent, NumeralText;
    n := ScanNumeral(env.text, p).value;
    ScanNumeralSound(env.text, p);
    EventReports(n);
  }

  lemma EventStores(e: Event, n: Numeral)
    requires Reports(e, n)
    ensures Stores(EventNumber(e), n)
  {
    hide NumeralText, Signed;
    if !e.Double? {
      EventStored(e);
      StoredIsWellStored(EventInteger(e));
    }
  }

  // ---------------------------------------------------------------- all numbers of a text

  /** The numerals of a tree, in the order in which they are written. */
  function Numerals(c: Tree): seq<Numeral>
    decreases c
  {
    match c
    case Number(n) => [n]
    case Array(_, es) => ElementNumerals(es)
    case Object(_, ms) => MemberNumerals(ms)
    case _ => []
  }

  function ElementNumerals(es: Elements): seq<Numeral>
    decreases es
  {
    Numerals(es.value) + if es.More? then ElementNumerals(es.rest) else []
  }

  function MemberNumerals(ms: Members): seq<Numeral>
    decreases ms
  {
    Numerals(ms.value) + if ms.MoreMembers? then MemberNumerals(ms.rest) else []
  }

  function NumberEvents(es: seq<Event>): seq<Event> {
    if es == [] then []
    else (if IsNumberEvent(es[0]) then [es[0]] else []) + NumberEvents(es[1..])
  }

  lemma {:induction false} NumberEventsAppend(a: seq<Event>, b: seq<Event>)
    ensures NumberEvents(a + b) == NumberEvents(a) + NumberEvents(b)
  {
    hide IsNumberEvent;
    if a == [] {
      assert a + b == b;
    } else {
      assert (a + b)[1..] == a[1..] + b;
      NumberEventsAppend(a[1..], b);
      Regroup(if IsNumberEvent(a[0]) then [a[0]] else [], NumberEvents(a[1..]), NumberEvents(b));
    }
  }

  lemma Regroup<T>(a: seq<T>, b: seq<T>, c: seq<T>)
    ensures a + (b + c) == (a + b) + c
  {
  }

  predicate AllReported(es: seq<Event>, ns: seq<Numeral>) {
    |es| == |ns| && forall k | 0 <= k < |es| :: Reports(es[k], ns[k]) && Selected(es[k], ns[k])
  }

  lemma ReportedTogether(a: seq<Event>, b: seq<Event>, ns: seq<Numeral>, ms: seq<Numeral>)
    requires AllReported(NumberEvents(a), ns) && AllReported(NumberEvents(b), ms)
    ensures AllReported(NumberEvents(a + b), ns + ms)
  {
    hide NumberEvents, Reports, Selected;
    NumberEventsAppend(a, b);
  }

  lemma NoNumber(e: Event)
    requires !IsNumberEvent(e)
    ensures AllReported(NumberEvents([e]), [])
  {
  }

  lemma {:induction false} TreeReported(env: Env, c: Tree)
    requires Legal(env, c)
    ensures AllReported(NumberEvents(TreeEvents(env, c)), Numerals(c))
    decreases c
  {
    hide Reports, Selected, NumeralEvent, AllReported;
    match c
    case Number(n) =>
      EventReports(n);
      OneReported(NumeralEvent(n), n);
    case Array(_, es) =>
      ElementsReported(env, es);
      Enclosed(StartArray, ElementsEvents(env, es), EndArray(CountElements(es) % U32), ElementNumerals(es));
    case Object(_, ms) =>
      MembersReported(env, ms);
      Enclosed(StartObject, MembersEvents(env, ms), EndObject(CountMembers(ms) % U32), MemberNumerals(ms));
    case EmptyArray(_) => Enclosed(StartArray, [], EndArray(0), []);
    case EmptyObject(_) => Enclosed(StartObject, [], EndObject(0), []);
    case _ => NoNumber(TreeEvents(env, c)[0]);
  }

  lemma OneReported(e: Event, n: Numeral)
    requires Reports(e, n) && Selected(e, n)
    ensures AllReported(NumberEvents([e]), [n])
  {
    hide Selected;
    assert NumberEvents([e]) == [e];
  }

  lemma Enclosed(open: Event, inner: seq<Event>, close: Event, ns: seq<Numeral>)
    requires !IsNumberEvent(open) && !IsNumberEvent(close) && (inner == [] ==> ns == [])
    requires inner != [] ==> AllReported(NumberEvents(inner), ns)
    ensures AllReported(NumberEvents([open] + inner + [close]), ns)
    ensures inner == [] ==> [open] + inner + [close] == [open, close]
  {
    hide NumberEvents, AllReported, IsNumberEvent;
    NoNumber(open);
    NoNumber(close);
    Nothing();
    ReportedTogether([open], inner, [], ns);
    ReportedTogether([open] + inner, [close], [] + ns, []);
    assert [] + ns + [] == ns;
  }

  lemma Nothing()
    ensures AllReported(NumberEvents([]), [])
  {
  }

  lemma {:induction false} ElementsReported(env: Env, es: Elements)
    requires LegalElements(env, es)
    ensures AllReported(NumberEvents(ElementsEvents(env, es)), ElementNumerals(es))
    decreases es
  {
    hide NumberEvents, AllReported, TreeEvents, Legal, Numerals;
    TreeReported(env, es.value);
    Nothing();
    if es.More? {
      ElementsReported(env, es.rest);
    }
    ReportedTogether(TreeEvents(env, es.value), LaterElements(env, es), Numerals(es.value),
                     if es.More? then ElementNumerals(es.rest) else []);
  }

  lemma {:induction false} MembersReported(env: Env, ms: Members)
    requires LegalMembers(env, ms)
    ensures AllReported(NumberEvents(MembersEvents(env, ms)), MemberNumerals(ms))
    decreases ms
  {
    hide NumberEvents, AllReported, TreeEvents, Legal, Numerals;
    NoNumber(NameEvents(ms.name)[0]);
    TreeReported(env, ms.value);
    Nothing();
    if ms.MoreMembers? {
      MembersReported(env, ms.rest);
    }
    ReportedTogether(NameEvents(ms.name), TreeEvents(env, ms.value), [], Numerals(ms.value));
    ReportedTogether(NameEvents(ms.name) + TreeEvents(env, ms.value), LaterMembers(env, ms), [] + Numerals(ms.value),
                     if ms.MoreMembers? then MemberNumerals(ms.rest) else []);
    assert [] + Numerals(ms.value) == Numerals(ms.value);
  }

  /** The number events of an accepted text are its numerals, one for one and in order. */
  lemma NumbersAsWritten(env: Env) returns (before: Text, c: Tree, rest: Text)
    requires NUL !in env.text && Parse(env).result.NoError?
    ensures Accepted(env, before, c, rest)
    ensures AllReported(NumberEvents(Parse(env).log), Numerals(c))
  {
    hide Parse, TreeEvents, Legal, TreeText, NumberEvents, AllReported, Numerals;
    before, c, rest := EveryAcceptedIsTree(env);
    TreeReported(env, c);
  }

  // ---------------------------------------------------------------- all numbers stored

  /** The numbers of a value, in document order. */
  function StoredNumbers(v: Value): seq<Number>
    decreases v
  {
    match v
    case NumberValue(n) => [n]
    case ArrayValue(es) => ElementNumbers(es)
    case ObjectValue(ms) => MemberNumbers(ms)
    case _ => []
  }

  function ElementNumbers(es: seq<Value>): seq<Number>
    decreases es
  {
    if es == [] then [] else StoredNumbers(es[0]) + ElementNumbers(es[1..])
  }

  function OneMemberNumbers(m: Member): seq<Number>
    decreases m
  {
    StoredNumbers(m.value)
  }

  function MemberNumbers(ms: seq<Member>): seq<Number>
    decreases ms
  {
    if ms == [] then [] else OneMemberNumbers(ms[0]) + MemberNumbers(ms[1..])
  }

  predicate AllStored(xs: seq<Number>, ns: seq<Numeral>) {
    |xs| == |ns| && forall k | 0 <= k < |xs| :: Stores(xs[k], ns[k])
  }

  lemma StoredTogether(a: seq<Number>, b: seq<Number>, ns: seq<Numeral>, ms: seq<Numeral>)
    requires AllStored(a, ns) && AllStored(b, ms)
    ensures AllStored(a + b, ns + ms)
  {
    hide Stores;
  }

  /** The numbers a document stores for a tree are its numerals, one for one and in order. */
  lemma {:induction false} TreeStored(env: Env, c: Tree)
    requires Legal(env, c)
    ensures AllStored(StoredNumbers(TreeValue(env, c)), Numerals(c))
    decreases c
  {
    hide Stores, NumeralEvent;
    match c
    case Number(n) =>
      EventReports(n);
      EventStores(NumeralEvent(n), n);
    case Array(_, es) => ElementsStored(env, es);
    case Object(_, ms) => MembersStored(env, ms);
    case _ =>
  }

  lemma {:induction false} ElementsStored(env: Env, es: Elements)
    requires LegalElements(env, es)
    ensures AllStored(ElementNumbers(ElementValues(env, es)), ElementNumerals(es))
    decreases es
  {
    hide AllStored, StoredNumbers, TreeValue, Legal, Numerals;
    TreeStored(env, es.value);
    NothingStored();
    if es.More? {
      ElementsStored(env, es.rest);
      assert ElementValues(env, es)[1..] == ElementValues(env, es.rest);
    } else {
      assert ElementValues(env, es)[1..] == [];
    }
    StoredTogether(StoredNumbers(TreeValue(env, es.value)), ElementNumbers(ElementValues(env, es)[1..]),
                   Numerals(es.value), if es.More? then ElementNumerals(es.rest) else []);
  }

  lemma NothingStored()
    ensures AllStored([], []) && ElementNumbers([]) == [] && MemberNumbers([]) == []
  {
  }

  lemma {:induction false} MembersStored(env: Env, ms: Members)
    requires LegalMembers(env, ms)
    ensures AllStored(MemberNumbers(MemberValues(env, ms)), MemberNumerals(ms))
    decreases ms
  {
    hide AllStored, StoredNumbers, TreeValue, Legal, Numerals;
    TreeStored(env, ms.value);
    NothingStored();
    if ms.MoreMembers? {
      MembersStored(env, ms.rest);
      assert MemberValues(env, ms)[1..] == MemberValues(env, ms.rest);
    } else {
      assert MemberValues(env, ms)[1..] == [];
    }
    StoredTogether(StoredNumbers(TreeValue(env, ms.value)), MemberNumbers(MemberValues(env, ms)[1..]),
                   Numerals(ms.value), if ms.MoreMembers? then MemberNumerals(ms.rest) else []);
  }

  /** "-1.5" is sent whole, and denotes one and a half below zero. */
  lemma NegativeFraction(env: Env)
    requires env.text == [0x2D, 0x31, 0x2E, 0x35] && !env.overflows(env.text)
    ensures ScanNumber(env, 0) == Token(4, Double(env.text))
    ensures var n := Numeral(true, [0x31], Some([0x35]), None);
            LegalNumeral(n) && NumeralText(n) == env.text && Signed(n) == -1.5
  {
    var n := Numeral(true, [0x31], Some([0x35]), None);
    var t := env.text;
    assert NumeralText(n) == t && t[0..0 + |t|] == t;
    ScanNumeralComplete(t, 0, n);
    DigitValues();
  }

  lemma DigitValues()
    ensures Numbers.Value([0x31]) == 1 && Numbers.Value([0x35]) == 5 && TenTo(-1) == 0.1 && TenTo(0) == 1.0
  {
    assert [0x31][..0] == [] && [0x35][..0] == [];
    TenToZero();
  }
}
