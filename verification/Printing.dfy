/**
  What the writers print: after any run of calls the output is the text of a partly written value, and after a
  complete one the text of a legal JSON tree that denotes that value.
 */
module Printing {
  import opened Bytes
  import opened Strings
  import opened Events
  import opened Numbers
  import opened Grammar
  import opened Values
  import opened Writers

  // ---------------------------------------------------------------- decimal numbers

  lemma {:induction false} DecimalReadsBack(n: nat)
    ensures SomeDigits(Decimal(n)) && Numbers.Value(Decimal(n)) == n
    ensures Decimal(n)[0] == ZERO ==> n == 0
    ensures n < 10 ==> |Decimal(n)| == 1
  {
    if n < 10 {
      assert Decimal(n)[..0] == [];
    } else {
      DecimalReadsBack(n / 10);
      assert Decimal(n)[..|Decimal(n)| - 1] == Decimal(n / 10);
      assert n == n / 10 * 10 + n % 10;
    }
  }

  /** The numeral printed for an integer. */
  function IntegerNumeral(i: int): Numeral {
    Numeral(i < 0, Decimal(if i < 0 then -i else i), None, None)
  }

  /** A printed integer is a legal numeral, and is read as an integer event with the same value. */
  lemma IntegerReadsBack(i: int)
    requires Storable(i)
    ensures LegalNumeral(IntegerNumeral(i)) && NumeralText(IntegerNumeral(i)) == SignedDecimal(i)
    ensures var e := NumeralEvent(IntegerNumeral(i)); IsNumberEvent(e) && !e.Double? && EventInteger(e) == i
  {
    hide Numbers.Value, Decimal;
    DecimalReadsBack(if i < 0 then -i else i);
  }

  // ---------------------------------------------------------------- formatted trees

  /** Values without doubles whose names are strings. */
  predicate Printable(v: Value) {
    match v
    case ObjectValue(ms) => forall k | 0 <= k < |ms| :: ms[k].name.StringValue? && Printable(ms[k].value)
    case ArrayValue(es) => forall k | 0 <= k < |es| :: Printable(es[k])
    case NumberValue(n) => n.Integer? && WellStored(n)
    case _ => true
  }

  predicate PrintableMember(m: Member) {
    m.name.StringValue? && Printable(m.value)
  }

  predicate PrintableMembers(ms: seq<Member>) {
    forall k | 0 <= k < |ms| :: PrintableMember(ms[k])
  }

  predicate PrintableElements(es: seq<Value>) {
    forall k | 0 <= k < |es| :: Printable(es[k])
  }

  function Gap0(style: Style, inArray: bool, depth: nat): Text {
    Spacing(style, Level(0, inArray), depth)
  }

  /** Before a later element or name. */
  function GapN(style: Style, inArray: bool, depth: nat): Text {
    Spacing(style, Level(2, inArray), depth)
  }

  function GapLast(style: Style, inArray: bool, depth: nat): Text
    requires depth > 0
  {
    ClosingGap(style, Level(1, inArray), depth - 1)
  }

  function NameOf(style: Style, m: Member, depth: nat): Name
    requires m.name.StringValue?
  {
    Name(PiecesOf(m.name.s), [], Spacing(style, Level(1, false), depth))
  }

  /** The tree a value is printed as, with `depth` levels open around it. */
  function Format(style: Style, depth: nat, v: Value): Tree
    requires Printable(v)
    decreases v
  {
    match v
    case NullValue => NullLit
    case FalseValue => FalseLit
    case TrueValue => TrueLit
    case StringValue(s) => Str(PiecesOf(s))
    case NumberValue(n) => Number(IntegerNumeral(IntegerOf(n)))
    case ArrayValue(es) =>
      if es == [] then EmptyArray([])
      else Array(Gap0(style, true, depth + 1), FormatElements(style, depth + 1, es))
    case ObjectValue(ms) =>
      if ms == [] then EmptyObject([])
      else Object(Gap0(style, false, depth + 1), FormatMembers(style, depth + 1, ms))
  }

  function FormatElements(style: Style, depth: nat, es: seq<Value>): Elements
    requires depth > 0 && es != [] && PrintableElements(es)
    decreases es
  {
    var first := Format(style, depth, es[0]);
    if |es| == 1 then Last(first, GapLast(style, true, depth))
    else More(first, [], GapN(style, true, depth), FormatElements(style, depth, es[1..]))
  }

  function FormatMember(style: Style, depth: nat, m: Member): Tree
    requires PrintableMember(m)
    decreases m
  {
    Format(style, depth, m.value)
  }

  function FormatMembers(style: Style, depth: nat, ms: seq<Member>): Members
    requires depth > 0 && ms != [] && PrintableMembers(ms)
    decreases ms
  {
    var name, first := NameOf(style, ms[0], depth), FormatMember(style, depth, ms[0]);
    if |ms| == 1 then LastMember(name, first, GapLast(style, false, depth))
    else MoreMembers(name, first, [], GapN(style, false, depth), FormatMembers(style, depth, ms[1..]))
  }

  lemma GapsAreSpace(style: Style, level: Level, depth: nat)
    requires LegalStyle(style)
    ensures AllSpace(Spacing(style, level, depth)) && AllSpace(ClosingGap(style, level, depth))
  {
  }

  lemma {:induction false} FormatLegal(env: Env, style: Style, depth: nat, v: Value)
    requires LegalStyle(style) && Printable(v)
    ensures Legal(env, Format(style, depth, v))
    decreases v
  {
    match v
    case StringValue(s) => PiecesOfString(s);
    case NumberValue(n) => IntegerReadsBack(IntegerOf(n));
    case ArrayValue(es) =>
      GapsAreSpace(style, Level(0, true), depth + 1);
      if es != [] {
        FormatElementsLegal(env, style, depth + 1, es);
      }
    case ObjectValue(ms) =>
      GapsAreSpace(style, Level(0, false), depth + 1);
      if ms != [] {
        FormatMembersLegal(env, style, depth + 1, ms);
      }
    case _ =>
  }

  lemma {:induction false} FormatElementsLegal(env: Env, style: Style, depth: nat, es: seq<Value>)
    requires LegalStyle(style) && depth > 0 && es != [] && PrintableElements(es)
    ensures LegalElements(env, FormatElements(style, depth, es))
    decreases es
  {
    FormatLegal(env, style, depth, es[0]);
    GapsAreSpace(style, Level(2, true), depth);
    GapsAreSpace(style, Level(1, true), depth - 1);
    if |es| > 1 {
      FormatElementsLegal(env, style, depth, es[1..]);
    }
  }

  lemma {:induction false} FormatMemberLegal(env: Env, style: Style, depth: nat, m: Member)
    requires LegalStyle(style) && PrintableMember(m)
    ensures Legal(env, FormatMember(style, depth, m)) && LegalName(NameOf(style, m, depth))
    decreases m
  {
    FormatLegal(env, style, depth, m.value);
    PiecesOfString(m.name.s);
    GapsAreSpace(style, Level(1, false), depth);
  }

  lemma {:induction false} FormatMembersLegal(env: Env, style: Style, depth: nat, ms: seq<Member>)
    requires LegalStyle(style) && depth > 0 && ms != [] && PrintableMembers(ms)
    ensures LegalMembers(env, FormatMembers(style, depth, ms))
    decreases ms
  {
    FormatMemberLegal(env, style, depth, ms[0]);
    GapsAreSpace(style, Level(2, false), depth);
    GapsAreSpace(style, Level(1, false), depth - 1);
    if |ms| > 1 {
      FormatMembersLegal(env, style, depth, ms[1..]);
    }
  }

  // ---------------------------------------------------------------- values under construction

  /** A container that has been opened: its finished items, and the name that waits for its value. */
  datatype Open =
    | OpenArray(elements: seq<Value>)
    | OpenObject(members: seq<Member>)
    | OpenMember(members: seq<Member>, name: Value)

  datatype Progress = Nothing | Within(frames: seq<Open>) | Done(v: Value)

  function Size(f: Open): nat {
    match f
    case OpenArray(es) => |es|
    case OpenObject(ms) => 2 * |ms|
    case OpenMember(ms, _) => 2 * |ms| + 1
  }

  function LevelOf(f: Open): Level {
    Level(Size(f), f.OpenArray?)
  }

  predicate GoodFrame(f: Open) {
    match f
    case OpenArray(es) => PrintableElements(es)
    case OpenObject(ms) => PrintableMembers(ms)
    case OpenMember(ms, name) => PrintableMembers(ms) && name.StringValue?
  }

  function Add(f: Open, v: Value): Open {
    match f
    case OpenArray(es) => OpenArray(es + [v])
    case OpenObject(ms) => OpenMember(ms, v)
    case OpenMember(ms, name) => OpenObject(ms + [Member(name, v)])
  }

  function Closed(f: Open): Value
    requires !f.OpenMember?
  {
    if f.OpenArray? then ArrayValue(f.elements) else ObjectValue(f.members)
  }

  function Put(p: Progress, v: Value): Progress
    requires !p.Done? && (p.Within? ==> p.frames != [])
  {
    if p.Nothing? then Done(v)
    else
      var n := |p.frames| - 1;
      Within(p.frames[..n] + [Add(p.frames[n], v)])
  }

  // ---------------------------------------------------------------- texts of open containers

  /** Elements after the first gap, without the closing bracket. */
  function Listed(style: Style, depth: nat, es: seq<Value>): Text
    requires depth > 0 && es != [] && PrintableElements(es)
  {
    if |es| == 1 then TreeText(Format(style, depth, es[0]))
    else TreeText(Format(style, depth, es[0])) + ([COMMA] + (GapN(style, true, depth) + Listed(style, depth, es[1..])))
  }

  function MemberText(style: Style, depth: nat, m: Member): Text
    requires PrintableMember(m)
  {
    NameText(NameOf(style, m, depth)) + TreeText(FormatMember(style, depth, m))
  }

  function ListedMembers(style: Style, depth: nat, ms: seq<Member>): Text
    requires depth > 0 && ms != [] && PrintableMembers(ms)
  {
    if |ms| == 1 then MemberText(style, depth, ms[0])
    else MemberText(style, depth, ms[0]) + ([COMMA] + (GapN(style, false, depth) + ListedMembers(style, depth, ms[1..])))
  }

  /** Members so far, with the first gap. */
  function MembersSoFar(style: Style, depth: nat, ms: seq<Member>): Text
    requires depth > 0 && PrintableMembers(ms)
  {
    if ms == [] then [] else Gap0(style, false, depth) + ListedMembers(style, depth, ms)
  }

  /** What stands between the opening bracket of a frame and the cursor. */
  function ItemsText(style: Style, depth: nat, f: Open): Text
    requires depth > 0 && GoodFrame(f)
  {
    match f
    case OpenArray(es) => if es == [] then [] else Gap0(style, true, depth) + Listed(style, depth, es)
    case OpenObject(ms) => MembersSoFar(style, depth, ms)
    case OpenMember(ms, name) =>
      MembersSoFar(style, depth, ms) + (Leading(style, Level(2 * |ms|, false), depth) + Literal(name.s))
  }

  /** Comma or colon, and white space, before the next item. */
  function Leading(style: Style, level: Level, depth: nat): Text {
    DelimiterText(level) + Spacing(style, level, depth)
  }

  function Bracket(f: Open): Text {
    if f.OpenArray? then [LBRACKET] else [LBRACE]
  }

  /** All frames: each one's opening bracket and items; inside the outer ones the next item has been introduced. */
  function FramesText(style: Style, fs: seq<Open>): Text
    requires forall k | 0 <= k < |fs| :: GoodFrame(fs[k])
  {
    if fs == [] then []
    else
      var n := |fs| - 1;
      FramesText(style, fs[..n]) + Introduced(style, fs[..n]) + (Bracket(fs[n]) + ItemsText(style, n + 1, fs[n]))
  }

  /** What is written before an item of the innermost frame. */
  function Introduced(style: Style, fs: seq<Open>): Text {
    if fs == [] then [] else Leading(style, LevelOf(fs[|fs| - 1]), |fs|)
  }

  lemma GapsAlike(style: Style, k: nat, inArray: bool, depth: nat)
    ensures k > 0 && (inArray || k % 2 == 0) ==>
              Leading(style, Level(k, inArray), depth) == [COMMA] + GapN(style, inArray, depth)
    ensures Leading(style, Level(0, inArray), depth) == Gap0(style, inArray, depth)
    ensures !inArray && k % 2 == 1 ==>
              Leading(style, Level(k, inArray), depth) == [COLON] + Spacing(style, Level(1, false), depth)
    ensures k > 0 && depth > 0 ==> ClosingGap(style, Level(k, inArray), depth - 1) == GapLast(style, inArray, depth)
  {
    assert [] + Gap0(style, inArray, depth) == Gap0(style, inArray, depth);
  }

  lemma {:induction false} ListedAppend(style: Style, depth: nat, es: seq<Value>, v: Value)
    requires depth > 0 && es != [] && PrintableElements(es) && Printable(v)
    ensures PrintableElements(es + [v])
    ensures Listed(style, depth, es + [v]) ==
              Listed(style, depth, es) + ([COMMA] + (GapN(style, true, depth) + TreeText(Format(style, depth, v))))
  {
    hide Format, TreeText, Spacing, Printable;
    var gap := GapN(style, true, depth);
    assert (es + [v])[1..] == es[1..] + [v];
    if |es| == 1 {
      assert (es + [v])[1..] == [v];
    } else {
      ListedAppend(style, depth, es[1..], v);
      Reassociate(TreeText(Format(style, depth, es[0])), gap, Listed(style, depth, es[1..]),
                  [COMMA] + (gap + TreeText(Format(style, depth, v))));
    }
  }

  lemma Reassociate(a: Text, gap: Text, b: Text, c: Text)
    ensures a + ([COMMA] + (gap + (b + c))) == a + ([COMMA] + (gap + b)) + c
  {
  }

  lemma {:induction false} ListedMembersAppend(style: Style, depth: nat, ms: seq<Member>, m: Member)
    requires depth > 0 && ms != [] && PrintableMembers(ms) && PrintableMember(m)
    ensures PrintableMembers(ms + [m])
    ensures ListedMembers(style, depth, ms + [m]) ==
              ListedMembers(style, depth, ms) + ([COMMA] + (GapN(style, false, depth) + MemberText(style, depth, m)))
  {
    hide MemberText, Spacing, PrintableMember;
    var gap := GapN(style, false, depth);
    assert (ms + [m])[1..] == ms[1..] + [m];
    if |ms| == 1 {
      assert (ms + [m])[1..] == [m];
    } else {
      ListedMembersAppend(style, depth, ms[1..], m);
      Reassociate(MemberText(style, depth, ms[0]), gap, ListedMembers(style, depth, ms[1..]),
                  [COMMA] + (gap + MemberText(style, depth, m)));
    }
  }

  lemma {:induction false} ListedCloses(style: Style, depth: nat, es: seq<Value>)
    requires depth > 0 && es != [] && PrintableElements(es)
    ensures ElementsText(FormatElements(style, depth, es)) ==
              Listed(style, depth, es) + (GapLast(style, true, depth) + [RBRACKET])
  {
    hide Format, TreeText, Spacing, ClosingGap, Printable;
    if |es| > 1 {
      ListedCloses(style, depth, es[1..]);
      var rest := FormatElements(style, depth, es[1..]);
      assert ElementsTail(FormatElements(style, depth, es)) == [COMMA] + (GapN(style, true, depth) + ElementsText(rest));
      NoGap(ElementsTail(FormatElements(style, depth, es)));
      Reassociate(TreeText(Format(style, depth, es[0])), GapN(style, true, depth), Listed(style, depth, es[1..]),
                  GapLast(style, true, depth) + [RBRACKET]);
    }
  }

  lemma NoGap(t: Text)
    ensures [] + t == t
  {
  }

  lemma {:induction false} ListedMembersClose(style: Style, depth: nat, ms: seq<Member>)
    requires depth > 0 && ms != [] && PrintableMembers(ms)
    ensures MembersText(FormatMembers(style, depth, ms)) ==
              ListedMembers(style, depth, ms) + (GapLast(style, false, depth) + [RBRACE])
  {
    hide FormatMember, NameOf, NameText, TreeText, Spacing, ClosingGap, Printable;
    var c := FormatMembers(style, depth, ms);
    ThreeParts(NameText(NameOf(style, ms[0], depth)), TreeText(FormatMember(style, depth, ms[0])), c.after + MembersTail(c));
    if |ms| > 1 {
      ListedMembersClose(style, depth, ms[1..]);
      NoGap(MembersTail(c));
      Reassociate(MemberText(style, depth, ms[0]), GapN(style, false, depth), ListedMembers(style, depth, ms[1..]),
                  GapLast(style, false, depth) + [RBRACE]);
    }
  }

  /** A finished item is written behind what introduces it. */
  lemma ItemAdded(style: Style, depth: nat, f: Open, v: Value)
    requires depth > 0 && GoodFrame(f) && Printable(v) && (f.OpenObject? ==> v.StringValue?)
    ensures GoodFrame(Add(f, v))
    ensures ItemsText(style, depth, Add(f, v)) ==
              ItemsText(style, depth, f) + (Leading(style, LevelOf(f), depth) + TreeText(Format(style, depth, v)))
  {
    hide Format, TreeText, Spacing, Leading, Literal, Listed, MembersSoFar;
    match f
    case OpenArray(es) => ElementAdded(style, depth, es, v);
    case OpenObject(ms) => LiteralText(style, depth, v.s);
    case OpenMember(ms, name) => MemberAdded(style, depth, ms, name, v);
  }

  lemma LiteralText(style: Style, depth: nat, s: Text)
    ensures TreeText(Format(style, depth, StringValue(s))) == StringText(PiecesOf(s)) == Literal(s)
  {
    PiecesOfString(s);
  }

  lemma ElementAdded(style: Style, depth: nat, es: seq<Value>, v: Value)
    requires depth > 0 && PrintableElements(es) && Printable(v)
    ensures ItemsText(style, depth, OpenArray(es + [v])) ==
              ItemsText(style, depth, OpenArray(es))
              + (Leading(style, Level(|es|, true), depth) + TreeText(Format(style, depth, v)))
  {
    hide Format, TreeText, Spacing, Leading, Printable;
    GapsAlike(style, |es|, true, depth);
    if es == [] {
      assert es + [v] == [v];
      NoGap(Gap0(style, true, depth) + TreeText(Format(style, depth, v)));
    } else {
      ListedAppend(style, depth, es, v);
      Inserted(Gap0(style, true, depth), Listed(style, depth, es), GapN(style, true, depth), TreeText(Format(style, depth, v)));
    }
  }

  lemma Inserted(a: Text, b: Text, gap: Text, c: Text)
    ensures a + (b + ([COMMA] + (gap + c))) == a + b + (([COMMA] + gap) + c)
  {
  }

  lemma MemberAdded(style: Style, depth: nat, ms: seq<Member>, name: Value, v: Value)
    requires depth > 0 && PrintableMembers(ms) && name.StringValue? && Printable(v)
    ensures PrintableMembers(ms + [Member(name, v)])
    ensures ItemsText(style, depth, OpenObject(ms + [Member(name, v)])) ==
              ItemsText(style, depth, OpenMember(ms, name))
              + (Leading(style, Level(2 * |ms| + 1, false), depth) + TreeText(Format(style, depth, v)))
  {
    hide Format, TreeText, Spacing, Leading, Printable, Literal, MembersSoFar, DelimiterText;
    if ms == [] {
      FirstMemberAdded(style, depth, Member(name, v));
      assert ms + [Member(name, v)] == [Member(name, v)];
    } else {
      NextMemberAdded(style, depth, ms, Member(name, v));
    }
  }

  lemma FirstMemberAdded(style: Style, depth: nat, m: Member)
    requires depth > 0 && PrintableMember(m)
    ensures MembersSoFar(style, depth, [m]) ==
              MembersSoFar(style, depth, []) + (Leading(style, Level(0, false), depth) + Literal(m.name.s))
              + (Leading(style, Level(1, false), depth) + TreeText(Format(style, depth, m.value)))
  {
    hide Format, TreeText, Spacing, Leading, Printable, Literal, MemberText, ListedMembers;
    var before, text := Literal(m.name.s), TreeText(Format(style, depth, m.value));
    GapsAlike(style, 0, false, depth);
    GapsAlike(style, 1, false, depth);
    MemberTextParts(style, depth, m);
    ListedOne(style, depth, m);
    NoGap(Gap0(style, false, depth) + before);
    InsertedFirst(Gap0(style, false, depth), before, [COLON] + Spacing(style, Level(1, false), depth), text);
  }

  lemma MembersListed(style: Style, depth: nat, ms: seq<Member>)
    requires depth > 0 && ms != [] && PrintableMembers(ms)
    ensures MembersSoFar(style, depth, ms) == Gap0(style, false, depth) + ListedMembers(style, depth, ms)
  {
  }

  lemma NextMemberAdded(style: Style, depth: nat, ms: seq<Member>, m: Member)
    requires depth > 0 && ms != [] && PrintableMembers(ms) && PrintableMember(m)
    ensures PrintableMembers(ms + [m])
    ensures MembersSoFar(style, depth, ms + [m]) ==
              MembersSoFar(style, depth, ms) + (Leading(style, Level(2 * |ms|, false), depth) + Literal(m.name.s))
              + (Leading(style, Level(2 * |ms| + 1, false), depth) + TreeText(Format(style, depth, m.value)))
  {
    hide *;
    GapsAlike(style, 2 * |ms|, false, depth);
    GapsAlike(style, 2 * |ms| + 1, false, depth);
    MemberTextParts(style, depth, m);
    MembersListed(style, depth, ms);
    ListedMembersAppend(style, depth, ms, m);
    MembersListed(style, depth, ms + [m]);
    InsertedMember(Gap0(style, false, depth), ListedMembers(style, depth, ms), GapN(style, false, depth),
                   Literal(m.name.s), [COLON] + Spacing(style, Level(1, false), depth),
                   TreeText(Format(style, depth, m.value)));
  }

  lemma ListedOne(style: Style, depth: nat, m: Member)
    requires depth > 0 && PrintableMember(m)
    ensures ListedMembers(style, depth, [m]) == MemberText(style, depth, m)
  {
  }

  lemma MemberTextParts(style: Style, depth: nat, m: Member)
    requires PrintableMember(m)
    ensures m.name.StringValue? && Printable(m.value)
    ensures MemberText(style, depth, m) ==
              (Literal(m.name.s) + ([COLON] + Spacing(style, Level(1, false), depth))) + TreeText(Format(style, depth, m.value))
  {
    LiteralText(style, depth, m.name.s);
    NoGap([COLON] + Spacing(style, Level(1, false), depth));
  }

  lemma InsertedFirst(gap: Text, n: Text, colon: Text, v: Text)
    ensures gap + ((n + colon) + v) == (gap + n) + (colon + v)
  {
  }

  lemma InsertedMember(first: Text, listed: Text, gap: Text, n: Text, colon: Text, v: Text)
    ensures first + (listed + ([COMMA] + (gap + ((n + colon) + v)))) ==
              ((first + listed) + (([COMMA] + gap) + n)) + (colon + v)
  {
  }

  /** A frame and its closing bracket are the text of the value it becomes. */
  lemma FrameCloses(style: Style, depth: nat, f: Open)
    requires GoodFrame(f) && !f.OpenMember?
    ensures Printable(Closed(f))
    ensures Bracket(f) + ItemsText(style, depth + 1, f)
            + (ClosingGap(style, LevelOf(f), depth) + [if f.OpenArray? then RBRACKET else RBRACE]) ==
              TreeText(Format(style, depth, Closed(f)))
  {
    hide Spacing, Leading, Listed, ListedMembers, FormatElements, FormatMembers, ElementsText, MembersText,
         ClosingGap;
    var d := depth + 1;
    var size := Size(f);
    GapsAlike(style, size, f.OpenArray?, d);
    if size == 0 {
      EmptyCloses(style, depth, f);
    } else if f.OpenArray? {
      ListedCloses(style, d, f.elements);
      Bracketed([LBRACKET], Gap0(style, true, d), Listed(style, d, f.elements), GapLast(style, true, d) + [RBRACKET]);
    } else {
      ListedMembersClose(style, d, f.members);
      Bracketed([LBRACE], Gap0(style, false, d), ListedMembers(style, d, f.members), GapLast(style, false, d) + [RBRACE]);
    }
  }

  lemma EmptyCloses(style: Style, depth: nat, f: Open)
    requires GoodFrame(f) && Size(f) == 0
    ensures ItemsText(style, depth + 1, f) == [] && ClosingGap(style, LevelOf(f), depth) == []
    ensures TreeText(Format(style, depth, Closed(f))) == Bracket(f) + [if f.OpenArray? then RBRACKET else RBRACE]
  {
  }

  lemma Bracketed(open: Text, gap: Text, items: Text, close: Text)
    ensures open + (gap + items) + close == open + (gap + (items + close))
  {
  }
}
