/** The recursive parser accepts exactly the texts of legal trees, and sends exactly their events. */
module GrammarAccepted {
  import opened Bytes
  import opened Strings
  import opened Events
  import opened Numbers
  import opened Grammar
  import opened RecursiveParser

  // ---------------------------------------------------------------- soundness

  /** The text between two positions of the stream. */
  function Between(env: Env, r: Run, r': Run): Text
    requires r.pos <= r'.pos <= |env.text|
  {
    env.text[r.pos..r'.pos]
  }

  lemma ScalarSound(env: Env, r: Run) returns (c: Tree)
    requires Ready(env, r) && See(env, r) != LBRACE && See(env, r) != LBRACKET
    requires ScanScalar(env, r.pos).Token?
    ensures Legal(env, c) && env.text[r.pos..ScanScalar(env, r.pos).end] == TreeText(c)
    ensures TreeEvents(env, c) == [ScanScalar(env, r.pos).value]
    ensures c.Number? ==> MayFollow(c.n, Peek(env.text, ScanScalar(env, r.pos).end))
  {
    var t, p, end := env.text, r.pos, ScanScalar(env, r.pos).end;
    match Peek(t, p)
    case 0x6E =>
      c := NullLit;
      LiteralSound(t, p, NULL_TEXT);
    case 0x74 =>
      c := TrueLit;
      LiteralSound(t, p, TRUE_TEXT);
    case 0x66 =>
      c := FalseLit;
      LiteralSound(t, p, FALSE_TEXT);
    case 0x22 =>
      c := StringSound(env, r);
    case _ =>
      ScanNumeralSound(t, p);
      ScanNumeralEnds(t, p);
      c := Number(ScanNumeral(t, p).value);
  }

  lemma StringSound(env: Env, r: Run) returns (c: Tree)
    requires Ready(env, r) && See(env, r) == QUOTE && ScanScalar(env, r.pos).Token?
    ensures c.Str? && Legal(env, c) && env.text[r.pos..ScanScalar(env, r.pos).end] == TreeText(c)
    ensures TreeEvents(env, c) == [ScanScalar(env, r.pos).value]
  {
    hide PiecesText, PiecesValue, LegalPieces;
    var t, p, end := env.text, r.pos, ScanScalar(env, r.pos).end;
    var pieces := BodySound(t, p + 1, []);
    c := Str(pieces);
    assert t[p..end] == [QUOTE] + t[p + 1..end];
    assert [] + PiecesValue(pieces) == PiecesValue(pieces);
  }

  lemma LiteralSound(t: Text, p: nat, s: Text)
    requires |s| > 0 && s[|s| - 1] != NUL && Matching(t, p, s, 0) == |s|
    ensures p + |s| <= |t| && t[p..p + |s|] == s
  {
    assert Peek(t, p + (|s| - 1)) == s[|s| - 1];
    assert forall i | 0 <= i < |s| :: Peek(t, p + i) == s[i];
    var u := t[p..p + |s|];
    forall i | 0 <= i < |s| ensures u[i] == s[i] {
      assert Peek(t, p + i) == u[i];
    }
  }

  /** A value that parses has the text and the events of a legal tree. */
  lemma ValueSound(env: Env, r: Run) returns (c: Tree)
    requires Ready(env, r) && ParseValue(env, r).result.NoError?
    ensures Legal(env, c) && Between(env, r, ParseValue(env, r)) == TreeText(c)
    ensures ParseValue(env, r).log == r.log + TreeEvents(env, c)
    ensures c.Number? ==> MayFollow(c.n, Peek(env.text, ParseValue(env, r).pos))
    decreases |env.text| - r.pos, 1
  {
    if See(env, r) == LBRACKET {
      c := ArraySound(env, r);
    } else if See(env, r) == LBRACE {
      c := ObjectSound(env, r);
    } else {
      c := ScalarSound(env, r);
    }
  }

  lemma ArraySound(env: Env, r: Run) returns (c: Tree)
    requires Ready(env, r) && See(env, r) == LBRACKET && ParseArray(env, r).result.NoError?
    ensures Legal(env, c) && Between(env, r, ParseArray(env, r)) == TreeText(c)
    ensures ParseArray(env, r).log == r.log + TreeEvents(env, c) && !c.Number?
    decreases |env.text| - r.pos, 0
  {
    hide ParseElements, ElementsText, ElementsEvents, LegalElements, CountElements, SkipSpace;
    var r1 := Emit(env, Take(r), StartArray, r.pos + 1);
    var r2 := Skip(env, r1);
    var r' := ParseArray(env, r);
    var gap := Between(env, r1, r2);
    Pieces3(env.text, r.pos, r1.pos, r2.pos, r'.pos);
    if See(env, r2) == RBRACKET {
      c := EmptyArray(gap);
      assert r'.log == r.log + [StartArray, EndArray(0)];
    } else {
      var es := ElementsSound(env, r2, 0);
      c := Array(gap, es);
      Associate(r.log, [StartArray], ElementsEvents(env, es), [EndArray(CountElements(es) % U32)]);
    }
  }

  lemma Associate<T>(log: seq<T>, a: seq<T>, b: seq<T>, c: seq<T>)
    ensures log + a + b + c == log + (a + b + c) == log + (a + b) + c
  {
  }

  lemma Pieces3(t: Text, a: nat, b: nat, c: nat, d: nat)
    requires a <= b <= c <= d <= |t|
    ensures t[a..d] == t[a..b] + (t[b..c] + t[c..d])
    ensures b == a + 1 ==> t[a..b] == [t[a]]
    ensures d == c + 1 ==> t[c..d] == [t[c]]
  {
    assert t[b..d] == t[b..c] + t[c..d];
  }

  lemma ElementsSound(env: Env, r: Run, n: nat) returns (es: Elements)
    requires Ready(env, r) && n < U32 && ParseElements(env, r, n).result.NoError?
    ensures LegalElements(env, es) && Between(env, r, ParseElements(env, r, n)) == ElementsText(es)
    ensures ParseElements(env, r, n).log == r.log + ElementsEvents(env, es) + [EndArray((n + CountElements(es)) % U32)]
    decreases |env.text| - r.pos, 2
  {
    hide ParseValue, ParseArray, ParseObject, ParseName, TreeText, TreeEvents, Legal, SkipSpace, AfterElement,
         ElementsTail, LaterElements, CountElements;
    var r1 := ParseValue(env, r);
    var v := ValueSound(env, r);
    var r2 := Skip(env, r1);
    es := AfterElementSound(env, r2, n, v, Between(env, r1, r2));
    var r' := ParseElements(env, r, n);
    Pieces3(env.text, r.pos, r1.pos, r2.pos, r'.pos);
    Associate(r.log, TreeEvents(env, v), LaterElements(env, es), [EndArray((n + CountElements(es)) % U32)]);
  }

  lemma AfterElementSound(env: Env, r: Run, n: nat, v: Tree, after: Text) returns (es: Elements)
    requires Ready(env, r) && n < U32 && AfterElement(env, r, Inc(n)).result.NoError?
    requires Legal(env, v) && AllSpace(after)
    ensures LegalElements(env, es) && es.value == v && es.after == after
    ensures Between(env, r, AfterElement(env, r, Inc(n))) == ElementsTail(es)
    ensures AfterElement(env, r, Inc(n)).log == r.log + LaterElements(env, es) + [EndArray((n + CountElements(es)) % U32)]
    decreases |env.text| - r.pos, 0
  {
    hide ParseValue, ParseArray, ParseObject, ParseName, TreeText, TreeEvents, Legal, SkipSpace, ParseElements,
         ElementsText, ElementsEvents, AllSpace, IsSpace;
    var t, r' := env.text, AfterElement(env, r, Inc(n));
    if See(env, r) == COMMA {
      var r1 := Skip(env, Take(r));
      var gap := t[r.pos + 1..r1.pos];
      Pieces3(t, r.pos, r.pos + 1, r1.pos, r'.pos);
      if env.trailingCommas && See(env, r1) == RBRACKET {
        es := Trailing(v, after, gap);
      } else {
        var rest := ElementsSound(env, r1, Inc(n));
        es := More(v, after, gap, rest);
        Wrap(n, CountElements(rest));
      }
    } else {
      es := Last(v, after);
      assert t[r.pos..r'.pos] == [t[r.pos]];
    }
  }

  lemma Wrap(n: nat, k: nat)
    ensures (Inc(n) + k) % U32 == (n + (1 + k)) % U32
  {
  }

  lemma ObjectSound(env: Env, r: Run) returns (c: Tree)
    requires Ready(env, r) && See(env, r) == LBRACE && ParseObject(env, r).result.NoError?
    ensures Legal(env, c) && Between(env, r, ParseObject(env, r)) == TreeText(c)
    ensures ParseObject(env, r).log == r.log + TreeEvents(env, c) && !c.Number?
    decreases |env.text| - r.pos, 0
  {
    hide ParseMembers, MembersText, MembersEvents, LegalMembers, CountMembers, SkipSpace;
    var r1 := Emit(env, Take(r), StartObject, r.pos + 1);
    var r2 := Skip(env, r1);
    var r' := ParseObject(env, r);
    var gap := Between(env, r1, r2);
    Pieces3(env.text, r.pos, r1.pos, r2.pos, r'.pos);
    if See(env, r2) == RBRACE {
      c := EmptyObject(gap);
      assert r'.log == r.log + [StartObject, EndObject(0)];
    } else {
      var ms := MembersSound(env, r2, 0);
      c := Object(gap, ms);
      Associate(r.log, [StartObject], MembersEvents(env, ms), [EndObject(CountMembers(ms) % U32)]);
    }
  }

  lemma NameSound(env: Env, r: Run) returns (n: Name)
    requires Ready(env, r) && ParseName(env, r).result.NoError?
    ensures LegalName(n) && Between(env, r, ParseName(env, r)) == NameText(n)
    ensures ParseName(env, r).log == r.log + NameEvents(n)
  {
    hide SkipSpace, ScanBody, PiecesText, PiecesValue;
    var t := env.text;
    var r1 := ParseKey(env, r);
    var r2 := Skip(env, r1);
    var r3 := Skip(env, Take(r2));
    var pieces := BodySound(t, r.pos + 1, []);
    assert [] + PiecesValue(pieces) == PiecesValue(pieces);
    n := Name(pieces, Between(env, r1, r2), t[r2.pos + 1..r3.pos]);
    assert t[r.pos..r1.pos] == [QUOTE] + t[r.pos + 1..r1.pos];
    Pieces3(t, r.pos, r1.pos, r2.pos, r3.pos);
    assert t[r2.pos..r3.pos] == [COLON] + n.behind;
  }

  lemma MembersSound(env: Env, r: Run, n: nat) returns (ms: Members)
    requires Ready(env, r) && n < U32 && ParseMembers(env, r, n).result.NoError?
    ensures LegalMembers(env, ms) && Between(env, r, ParseMembers(env, r, n)) == MembersText(ms)
    ensures ParseMembers(env, r, n).log == r.log + MembersEvents(env, ms) + [EndObject((n + CountMembers(ms)) % U32)]
    decreases |env.text| - r.pos, 2
  {
    hide ParseValue, ParseArray, ParseObject, ParseName, TreeText, TreeEvents, Legal, SkipSpace, AfterMember,
         MembersTail, LaterMembers, CountMembers, NameText, NameEvents;
    var t := env.text;
    var r0 := ParseName(env, r);
    var name := NameSound(env, r);
    var r1 := ParseValue(env, r0);
    var v := ValueSound(env, r0);
    var r2 := Skip(env, r1);
    ms := AfterMemberSound(env, r2, n, name, v, Between(env, r1, r2));
    var r' := ParseMembers(env, r, n);
    Pieces3(t, r0.pos, r1.pos, r2.pos, r'.pos);
    assert t[r.pos..r'.pos] == t[r.pos..r0.pos] + t[r0.pos..r'.pos];
    var last := [EndObject((n + CountMembers(ms)) % U32)];
    Associate(r.log, NameEvents(name), TreeEvents(env, v), LaterMembers(env, ms));
  }

  lemma AfterMemberSound(env: Env, r: Run, n: nat, name: Name, v: Tree, after: Text) returns (ms: Members)
    requires Ready(env, r) && n < U32 && AfterMember(env, r, Inc(n)).result.NoError?
    requires LegalName(name) && Legal(env, v) && AllSpace(after)
    ensures LegalMembers(env, ms) && ms.name == name && ms.value == v && ms.after == after
    ensures Between(env, r, AfterMember(env, r, Inc(n))) == MembersTail(ms)
    ensures AfterMember(env, r, Inc(n)).log == r.log + LaterMembers(env, ms) + [EndObject((n + CountMembers(ms)) % U32)]
    decreases |env.text| - r.pos, 0
  {
    hide ParseValue, ParseArray, ParseObject, ParseName, TreeText, TreeEvents, Legal, SkipSpace, ParseMembers,
         MembersText, MembersEvents, LegalPieces, AllSpace, IsSpace;
    var t, r' := env.text, AfterMember(env, r, Inc(n));
    if See(env, r) == COMMA {
      var r1 := Skip(env, Take(r));
      var gap := t[r.pos + 1..r1.pos];
      Pieces3(t, r.pos, r.pos + 1, r1.pos, r'.pos);
      if env.trailingCommas && See(env, r1) == RBRACE {
        ms := TrailingMember(name, v, after, gap);
      } else {
        var rest := MembersSound(env, r1, Inc(n));
        ms := MoreMembers(name, v, after, gap, rest);
        Wrap(n, CountMembers(rest));
      }
    } else {
      ms := LastMember(name, v, after);
      assert t[r.pos..r'.pos] == [t[r.pos]];
    }
  }

  // ---------------------------------------------------------------- completeness

  /** A handler that never stops the parse. */
  ghost predicate AcceptsAll(env: Env) {
    forall log :: env.handler(log)
  }

  lemma LiteralComplete(t: Text, p: nat, s: Text, k: nat)
    requires At(t, p, s) && k <= |s|
    ensures Matching(t, p, s, k) == |s|
    decreases |s| - k
  {
    if k < |s| {
      AtPeek(t, p, s, k);
      LiteralComplete(t, p, s, k + 1);
    }
  }

  lemma ScalarComplete(env: Env, r: Run, c: Tree)
    requires Ready(env, r) && Legal(env, c) && At(env.text, r.pos, TreeText(c))
    requires c.NullLit? || c.TrueLit? || c.FalseLit? || c.Number? || c.Str?
    requires c.Number? ==> MayFollow(c.n, Peek(env.text, r.pos + |TreeText(c)|))
    ensures See(env, r) != LBRACE && See(env, r) != LBRACKET
    ensures ScanScalar(env, r.pos) == Token(r.pos + |TreeText(c)|, TreeEvents(env, c)[0])
  {
    hide ScanNumber, NumeralText, Refused, LegalNumeral, ScanBody, PiecesText, PiecesValue, LegalPieces, Matching;
    var t, p, s := env.text, r.pos, TreeText(c);
    if c.Number? {
      NumberComplete(env, p, c.n);
    } else if c.Str? {
      AtPeek(t, p, s, 0);
      AtSplit(t, p, [QUOTE], PiecesText(c.pieces) + [QUOTE]);
      BodyComplete(t, p + 1, c.pieces, []);
      assert [] + PiecesValue(c.pieces) == PiecesValue(c.pieces);
    } else {
      AtPeek(t, p, s, 0);
      LiteralComplete(t, p, s, 0);
    }
  }

  lemma NumberComplete(env: Env, p: nat, n: Numeral)
    requires p <= |env.text| && LegalNumeral(n) && !Refused(env, n) && At(env.text, p, NumeralText(n))
    requires MayFollow(n, Peek(env.text, p + |NumeralText(n)|))
    ensures Peek(env.text, p) == MINUS || IsDigit(Peek(env.text, p))
    ensures ScanScalar(env, p) == Token(p + |NumeralText(n)|, NumeralEvent(n))
  {
    hide ScanNumeral, NumeralText, NumeralEvent, Refused, LegalNumeral, ScanString, ScanLiteral;
    ScanNumeralComplete(env.text, p, n);
    NumeralStarts(n);
    AtPeek(env.text, p, NumeralText(n), 0);
  }

  lemma NumeralStarts(n: Numeral)
    requires LegalNumeral(n)
    ensures NumeralText(n) != [] && (NumeralText(n)[0] == MINUS || IsDigit(NumeralText(n)[0]))
  {
    assert NumeralText(n)[0] == (MinusText(n) + n.digits)[0];
  }

  lemma GapComplete(env: Env, r: Run, gap: Text)
    requires Ready(env, r) && AllSpace(gap) && At(env.text, r.pos, gap)
    requires !IsSpace(Peek(env.text, r.pos + |gap|))
    ensures Skip(env, r) == r.(pos := r.pos + |gap|)
  {
    SkipSpaceOver(env.text, r.pos, gap);
  }

  /** No byte that could continue a numeral. */
  predicate EndsNumeral(b: byte) {
    !IsDigit(b) && b != DOT && !IsE(b)
  }

  /** What follows a value inside a container cannot continue a numeral. */
  lemma Delimited(t: Text, p: nat, after: Text, tail: Text)
    requires AllSpace(after) && tail != [] && tail[0] in {COMMA, RBRACKET, RBRACE} && At(t, p, after + tail)
    ensures EndsNumeral(Peek(t, p)) && Peek(t, p + |after|) == tail[0]
  {
    AtPeek(t, p, after + tail, 0);
    AtPeek(t, p, after + tail, |after|);
  }

  /** No tree text starts with white space or a closing bracket. */
  lemma TreeStarts(env: Env, c: Tree)
    requires Legal(env, c)
    ensures TreeText(c) != [] && !IsSpace(TreeText(c)[0]) && TreeText(c)[0] !in {RBRACKET, RBRACE, NUL}
  {
    if c.Number? {
      NumeralStarts(c.n);
    }
  }

  lemma ElementsStart(env: Env, es: Elements)
    requires LegalElements(env, es)
    ensures ElementsText(es) != [] && !IsSpace(ElementsText(es)[0]) && ElementsText(es)[0] !in {RBRACKET, RBRACE, NUL}
  {
    TreeStarts(env, es.value);
  }

  lemma MembersStart(ms: Members)
    ensures MembersText(ms) != [] && MembersText(ms)[0] == QUOTE
  {
  }

  /** The text of a legal tree is parsed whole, and its events are sent. */
  lemma ValueComplete(env: Env, r: Run, c: Tree)
    requires AcceptsAll(env) && Ready(env, r) && Legal(env, c) && At(env.text, r.pos, TreeText(c))
    requires c.Number? ==> MayFollow(c.n, Peek(env.text, r.pos + |TreeText(c)|))
    ensures ParseValue(env, r) == Run(r.pos + |TreeText(c)|, r.log + TreeEvents(env, c), NoError)
    decreases c, 1
  {
    if c.Array? || c.EmptyArray? {
      ArrayComplete(env, r, c);
    } else if c.Object? || c.EmptyObject? {
      ObjectComplete(env, r, c);
    } else {
      ScalarComplete(env, r, c);
    }
  }

  /** A container's opening bracket and the white space behind it. */
  lemma OpeningComplete(env: Env, r: Run, open: byte, e: Event, gap: Text, inner: Text)
    requires AcceptsAll(env) && Ready(env, r) && AllSpace(gap) && inner != [] && !IsSpace(inner[0])
    requires At(env.text, r.pos, [open] + (gap + inner))
    ensures See(env, r) == open && r.pos < |env.text|
    ensures Emit(env, Take(r), e, r.pos + 1) == Run(r.pos + 1, r.log + [e], NoError)
    ensures Skip(env, Run(r.pos + 1, r.log + [e], NoError)) == Run(r.pos + 1 + |gap|, r.log + [e], NoError)
    ensures At(env.text, r.pos + 1 + |gap|, inner) && Peek(env.text, r.pos + 1 + |gap|) == inner[0]
  {
    var t, p := env.text, r.pos;
    AtSplit(t, p, [open], gap + inner);
    AtSplit(t, p + 1, gap, inner);
    AtPeek(t, p, [open], 0);
    AtPeek(t, p + 1 + |gap|, inner, 0);
    GapComplete(env, Run(p + 1, r.log + [e], NoError), gap);
  }

  lemma ArrayComplete(env: Env, r: Run, c: Tree)
    requires AcceptsAll(env) && Ready(env, r) && Legal(env, c) && At(env.text, r.pos, TreeText(c))
    requires c.Array? || c.EmptyArray?
    ensures See(env, r) == LBRACKET
    ensures ParseArray(env, r) == Run(r.pos + |TreeText(c)|, r.log + TreeEvents(env, c), NoError)
    decreases c, 0
  {
    hide ParseElements, ElementsText, ElementsEvents, LegalElements, CountElements, SkipSpace, AllSpace, At,
         ParseValue, ParseObject, AfterElement, Skip, NumeralText, StringText, LegalNumeral, Refused, LegalPieces,
         NumeralEvent, PiecesValue;
    if c.EmptyArray? {
      OpeningComplete(env, r, LBRACKET, StartArray, c.gap, [RBRACKET]);
      assert r.log + [StartArray] + [EndArray(0)] == r.log + TreeEvents(env, c);
    } else {
      var es := c.elements;
      ElementsStart(env, es);
      OpeningComplete(env, r, LBRACKET, StartArray, c.gap, ElementsText(es));
      ElementsComplete(env, Run(r.pos + 1 + |c.gap|, r.log + [StartArray], NoError), es, 0);
      Associate(r.log, [StartArray], ElementsEvents(env, es), [EndArray(CountElements(es) % U32)]);
    }
  }

  lemma ElementsComplete(env: Env, r: Run, es: Elements, n: nat)
    requires AcceptsAll(env) && Ready(env, r) && LegalElements(env, es) && At(env.text, r.pos, ElementsText(es)) && n < U32
    ensures ParseElements(env, r, n) ==
              Run(r.pos + |ElementsText(es)|,
                  r.log + ElementsEvents(env, es) + [EndArray((n + CountElements(es)) % U32)], NoError)
    decreases es, 2
  {
    hide ParseValue, ParseArray, ParseObject, ParseName, TreeText, TreeEvents, Legal, SkipSpace, AfterElement,
         ElementsTail, LaterElements, CountElements, Skip, IsSpace, IsDigit, AllSpace, AcceptsAll, Peek;
    var tail := ElementsTail(es);
    ValueThenGap(env.text, r.pos, es.value, es.after, tail);
    ValueComplete(env, r, es.value);
    var r1 := ParseValue(env, r);
    GapComplete(env, r1, es.after);
    AfterElementComplete(env, r1.(pos := r1.pos + |es.after|), es, n);
    Associate(r.log, TreeEvents(env, es.value), LaterElements(env, es), [EndArray((n + CountElements(es)) % U32)]);
  }

  /** Where a value, the white space behind it and the next delimiter stand. */
  lemma ValueThenGap(t: Text, p: nat, v: Tree, after: Text, tail: Text)
    requires AllSpace(after) && tail != [] && tail[0] in {COMMA, RBRACKET, RBRACE}
    requires At(t, p, TreeText(v) + (after + tail))
    ensures At(t, p, TreeText(v)) && EndsNumeral(Peek(t, p + |TreeText(v)|))
    ensures At(t, p + |TreeText(v)|, after) && !IsSpace(Peek(t, p + |TreeText(v)| + |after|))
    ensures At(t, p + |TreeText(v)| + |after|, tail)
  {
    hide TreeText;
    AtSplit(t, p, TreeText(v), after + tail);
    Delimited(t, p + |TreeText(v)|, after, tail);
    AtSplit(t, p + |TreeText(v)|, after, tail);
  }

  lemma AfterElementComplete(env: Env, r: Run, es: Elements, n: nat)
    requires AcceptsAll(env) && Ready(env, r) && LegalElements(env, es) && At(env.text, r.pos, ElementsTail(es)) && n < U32
    ensures AfterElement(env, r, Inc(n)) ==
              Run(r.pos + |ElementsTail(es)|,
                  r.log + LaterElements(env, es) + [EndArray((n + CountElements(es)) % U32)], NoError)
    decreases es, 1
  {
    hide ParseValue, ParseArray, ParseObject, ParseName, TreeText, TreeEvents, Legal, SkipSpace, ParseElements,
         ElementsText, ElementsEvents, Skip;
    match es {
      case Last(_, _) =>
        AtPeek(env.text, r.pos, [RBRACKET], 0);
        assert r.log + [] == r.log;
      case Trailing(_, _, gap) =>
        CommaComplete(env, r, gap, [RBRACKET]);
        assert r.log + [] == r.log;
      case More(_, _, _, _) =>
        MoreElementsComplete(env, r, es, n);
    }
  }

  /** A comma and the white space behind it. */
  lemma CommaComplete(env: Env, r: Run, gap: Text, inner: Text)
    requires Ready(env, r) && AllSpace(gap) && inner != [] && !IsSpace(inner[0])
    requires At(env.text, r.pos, [COMMA] + (gap + inner))
    ensures See(env, r) == COMMA && r.pos < |env.text|
    ensures Skip(env, Take(r)) == r.(pos := r.pos + 1 + |gap|)
    ensures At(env.text, r.pos + 1 + |gap|, inner) && Peek(env.text, r.pos + 1 + |gap|) == inner[0]
  {
    var t, p := env.text, r.pos;
    AtSplit(t, p, [COMMA], gap + inner);
    AtSplit(t, p + 1, gap, inner);
    AtPeek(t, p, [COMMA], 0);
    AtPeek(t, p + 1 + |gap|, inner, 0);
    GapComplete(env, Take(r), gap);
  }

  lemma MoreElements(env: Env, es: Elements)
    requires LegalElements(env, es) && es.More?
    ensures LegalElements(env, es.rest) && AllSpace(es.gap) && CountElements(es) == 1 + CountElements(es.rest)
    ensures ElementsTail(es) == [COMMA] + (es.gap + ElementsText(es.rest))
    ensures LaterElements(env, es) == ElementsEvents(env, es.rest)
  {
  }

  lemma MoreNames(env: Env, ms: Members)
    requires LegalMembers(env, ms) && ms.MoreMembers?
    ensures LegalMembers(env, ms.rest) && AllSpace(ms.gap) && CountMembers(ms) == 1 + CountMembers(ms.rest)
    ensures MembersTail(ms) == [COMMA] + (ms.gap + MembersText(ms.rest))
    ensures LaterMembers(env, ms) == MembersEvents(env, ms.rest)
  {
  }

  lemma MoreElementsComplete(env: Env, r: Run, es: Elements, n: nat)
    requires AcceptsAll(env) && Ready(env, r) && LegalElements(env, es) && At(env.text, r.pos, ElementsTail(es)) && n < U32
    requires es.More?
    ensures AfterElement(env, r, Inc(n)) ==
              Run(r.pos + |ElementsTail(es)|,
                  r.log + LaterElements(env, es) + [EndArray((n + CountElements(es)) % U32)], NoError)
    decreases es, 0
  {
    hide *;
    MoreElements(env, es);
    ElementsStart(env, es.rest);
    IncBelow(n);
    Closers();
    NextElement(env, r, es.gap, ElementsText(es.rest), Inc(n));
    ElementsComplete(env, r.(pos := r.pos + 1 + |es.gap|), es.rest, Inc(n));
    Wrap(n, CountElements(es.rest));
  }

  lemma MoreMembersComplete(env: Env, r: Run, ms: Members, n: nat)
    requires AcceptsAll(env) && Ready(env, r) && LegalMembers(env, ms) && At(env.text, r.pos, MembersTail(ms)) && n < U32
    requires ms.MoreMembers?
    ensures AfterMember(env, r, Inc(n)) ==
              Run(r.pos + |MembersTail(ms)|,
                  r.log + LaterMembers(env, ms) + [EndObject((n + CountMembers(ms)) % U32)], NoError)
    decreases ms, 0
  {
    hide *;
    MoreNames(env, ms);
    MembersStart(ms.rest);
    IncBelow(n);
    Closers();
    NextMember(env, r, ms.gap, MembersText(ms.rest), Inc(n));
    MembersComplete(env, r.(pos := r.pos + 1 + |ms.gap|), ms.rest, Inc(n));
    Wrap(n, CountMembers(ms.rest));
  }

  lemma IncBelow(n: nat)
    ensures Inc(n) < U32
  {
  }

  lemma Closers()
    ensures !IsSpace(QUOTE) && QUOTE != RBRACE
  {
  }

  lemma NextElement(env: Env, r: Run, gap: Text, inner: Text, k: nat)
    requires Ready(env, r) && AllSpace(gap) && inner != [] && !IsSpace(inner[0]) && inner[0] != RBRACKET
    requires At(env.text, r.pos, [COMMA] + (gap + inner))
    ensures Ready(env, r.(pos := r.pos + 1 + |gap|)) && At(env.text, r.pos + 1 + |gap|, inner)
    ensures AfterElement(env, r, k) == ParseElements(env, r.(pos := r.pos + 1 + |gap|), k)
  {
    hide ParseElements, SkipSpace;
    CommaComplete(env, r, gap, inner);
  }

  lemma NextMember(env: Env, r: Run, gap: Text, inner: Text, k: nat)
    requires Ready(env, r) && AllSpace(gap) && inner != [] && !IsSpace(inner[0]) && inner[0] != RBRACE
    requires At(env.text, r.pos, [COMMA] + (gap + inner))
    ensures Ready(env, r.(pos := r.pos + 1 + |gap|)) && At(env.text, r.pos + 1 + |gap|, inner)
    ensures AfterMember(env, r, k) == ParseMembers(env, r.(pos := r.pos + 1 + |gap|), k)
  {
    hide ParseMembers, SkipSpace;
    CommaComplete(env, r, gap, inner);
  }

  lemma ObjectComplete(env: Env, r: Run, c: Tree)
    requires AcceptsAll(env) && Ready(env, r) && Legal(env, c) && At(env.text, r.pos, TreeText(c))
    requires c.Object? || c.EmptyObject?
    ensures See(env, r) == LBRACE
    ensures ParseObject(env, r) == Run(r.pos + |TreeText(c)|, r.log + TreeEvents(env, c), NoError)
    decreases c, 0
  {
    hide ParseMembers, MembersText, MembersEvents, LegalMembers, CountMembers, SkipSpace, AllSpace, At, ParseValue,
         ParseArray, AfterMember, Skip, NumeralText, StringText, LegalNumeral, Refused, LegalPieces, NumeralEvent,
         PiecesValue;
    if c.EmptyObject? {
      OpeningComplete(env, r, LBRACE, StartObject, c.gap, [RBRACE]);
      assert r.log + [StartObject] + [EndObject(0)] == r.log + TreeEvents(env, c);
    } else {
      var ms := c.members;
      MembersStart(ms);
      OpeningComplete(env, r, LBRACE, StartObject, c.gap, MembersText(ms));
      MembersComplete(env, Run(r.pos + 1 + |c.gap|, r.log + [StartObject], NoError), ms, 0);
      Associate(r.log, [StartObject], MembersEvents(env, ms), [EndObject(CountMembers(ms) % U32)]);
    }
  }

  lemma NameComplete(env: Env, r: Run, n: Name)
    requires AcceptsAll(env) && Ready(env, r) && LegalName(n) && At(env.text, r.pos, NameText(n))
    requires !IsSpace(Peek(env.text, r.pos + |NameText(n)|))
    ensures ParseName(env, r) == Run(r.pos + |NameText(n)|, r.log + NameEvents(n), NoError)
  {
    hide *;
    NameUnfold(n);
    var t, p := env.text, r.pos;
    var s := StringText(n.pieces);
    var colon := [COLON] + n.behind;
    AtSplit(t, p, s, n.before + colon);
    AtSplit(t, p + |s|, n.before, colon);
    AtSplit(t, p + |s| + |n.before|, [COLON], n.behind);
    KeyComplete(env, r, n.pieces);
    var r1 := ParseKey(env, r);
    AtPeek(t, p + |s| + |n.before|, [COLON], 0);
    AtWithin(t, p + |s|, n.before);
    GapComplete(env, r1, n.before);
    AtWithin(t, p + |s| + |n.before| + 1, n.behind);
    TakeOver(env, Skip(env, r1));
    GapComplete(env, Take(Skip(env, r1)), n.behind);
    NameStep(env, r);
  }

  lemma NameUnfold(n: Name)
    requires LegalName(n)
    ensures LegalPieces(n.pieces) && AllSpace(n.before) && AllSpace(n.behind) && !IsSpace(COLON)
    ensures NameText(n) == StringText(n.pieces) + (n.before + ([COLON] + n.behind))
    ensures NameEvents(n) == [Key(PiecesValue(n.pieces))]
  {
  }

  lemma TakeOver(env: Env, r: Run)
    ensures See(env, r) == Peek(env.text, r.pos) && Take(r) == r.(pos := r.pos + 1)
    ensures Ready(env, r) && See(env, r) != NUL ==> Ready(env, Take(r))
  {
  }

  lemma NameStep(env: Env, r: Run)
    requires Ready(env, r) && See(env, r) == QUOTE && Ready(env, ParseKey(env, r))
    requires See(env, Skip(env, ParseKey(env, r))) == COLON
    ensures Ready(env, Take(Skip(env, ParseKey(env, r))))
    ensures ParseName(env, r) == Skip(env, Take(Skip(env, ParseKey(env, r))))
  {
  }

  lemma KeyComplete(env: Env, r: Run, pieces: seq<Piece>)
    requires AcceptsAll(env) && Ready(env, r) && LegalPieces(pieces) && At(env.text, r.pos, StringText(pieces))
    ensures See(env, r) == QUOTE
    ensures ParseKey(env, r) == Run(r.pos + |StringText(pieces)|, r.log + [Key(PiecesValue(pieces))], NoError)
  {
    AtPeek(env.text, r.pos, StringText(pieces), 0);
    AtSplit(env.text, r.pos, [QUOTE], PiecesText(pieces) + [QUOTE]);
    BodyComplete(env.text, r.pos + 1, pieces, []);
    assert [] + PiecesValue(pieces) == PiecesValue(pieces);
  }

  lemma MembersComplete(env: Env, r: Run, ms: Members, n: nat)
    requires AcceptsAll(env) && Ready(env, r) && LegalMembers(env, ms) && At(env.text, r.pos, MembersText(ms)) && n < U32
    ensures ParseMembers(env, r, n) ==
              Run(r.pos + |MembersText(ms)|,
                  r.log + MembersEvents(env, ms) + [EndObject((n + CountMembers(ms)) % U32)], NoError)
    decreases ms, 2
  {
    hide *;
    MembersUnfold(env, ms);
    var tail := MembersTail(ms);
    NameThenValue(env, env.text, r.pos, ms.name, ms.value, ms.after + tail);
    ValueThenGap(env.text, r.pos + |NameText(ms.name)|, ms.value, ms.after, tail);
    NameComplete(env, r, ms.name);
    var r0 := ParseName(env, r);
    AtWithin(env.text, r0.pos, TreeText(ms.value));
    EndsAny(ms.value, Peek(env.text, r0.pos + |TreeText(ms.value)|));
    ValueComplete(env, r0, ms.value);
    var r1 := ParseValue(env, r0);
    AtWithin(env.text, r1.pos, ms.after);
    GapComplete(env, r1, ms.after);
    AtWithin(env.text, r1.pos + |ms.after|, tail);
    var r2 := r1.(pos := r1.pos + |ms.after|);
    AfterMemberComplete(env, r2, ms, n);
    MembersStep(env, r, n);
    Associate(r.log, NameEvents(ms.name), TreeEvents(env, ms.value), LaterMembers(env, ms));
  }

  lemma MembersUnfold(env: Env, ms: Members)
    requires LegalMembers(env, ms)
    ensures LegalName(ms.name) && Legal(env, ms.value) && AllSpace(ms.after)
    ensures MembersText(ms) == NameText(ms.name) + (TreeText(ms.value) + (ms.after + MembersTail(ms)))
    ensures MembersTail(ms) != [] && MembersTail(ms)[0] in {COMMA, RBRACKET, RBRACE}
    ensures MembersEvents(env, ms) == NameEvents(ms.name) + TreeEvents(env, ms.value) + LaterMembers(env, ms)
  {
  }

  lemma MembersStep(env: Env, r: Run, n: nat)
    requires Ready(env, r) && ParseName(env, r).result.NoError? && ParseValue(env, ParseName(env, r)).result.NoError?
    ensures ParseMembers(env, r, n) == AfterMember(env, Skip(env, ParseValue(env, ParseName(env, r))), Inc(n))
  {
  }

  /** What stands in the text ends within it. */
  lemma AtWithin(t: Text, p: nat, s: Text)
    requires At(t, p, s)
    ensures p + |s| <= |t|
    ensures forall env: Env, log :: env.text == t ==>
              Ready(env, Run(p, log, NoError)) && Ready(env, Run(p + |s|, log, NoError))
  {
    forall env: Env, log | env.text == t
      ensures Ready(env, Run(p, log, NoError)) && Ready(env, Run(p + |s|, log, NoError))
    {
    }
  }

  lemma EndsAny(c: Tree, b: byte)
    requires EndsNumeral(b)
    ensures c.Number? && LegalNumeral(c.n) ==> MayFollow(c.n, b)
  {
  }

  lemma NameThenValue(env: Env, t: Text, p: nat, n: Name, v: Tree, rest: Text)
    requires Legal(env, v) && At(t, p, NameText(n) + (TreeText(v) + rest))
    ensures At(t, p, NameText(n)) && At(t, p + |NameText(n)|, TreeText(v) + rest)
    ensures !IsSpace(Peek(t, p + |NameText(n)|))
  {
    hide TreeText, NameText, Legal;
    AtSplit(t, p, NameText(n), TreeText(v) + rest);
    TreeStarts(env, v);
    AtPeek(t, p + |NameText(n)|, TreeText(v) + rest, 0);
  }

  lemma AfterMemberComplete(env: Env, r: Run, ms: Members, n: nat)
    requires AcceptsAll(env) && Ready(env, r) && LegalMembers(env, ms) && At(env.text, r.pos, MembersTail(ms)) && n < U32
    ensures AfterMember(env, r, Inc(n)) ==
              Run(r.pos + |MembersTail(ms)|,
                  r.log + LaterMembers(env, ms) + [EndObject((n + CountMembers(ms)) % U32)], NoError)
    decreases ms, 1
  {
    hide ParseValue, ParseArray, ParseObject, ParseName, TreeText, TreeEvents, Legal, SkipSpace, ParseMembers,
         MembersText, MembersEvents, Skip;
    match ms {
      case LastMember(_, _, _) =>
        AtPeek(env.text, r.pos, [RBRACE], 0);
        assert r.log + [] == r.log;
      case TrailingMember(_, _, _, gap) =>
        CommaComplete(env, r, gap, [RBRACE]);
        assert r.log + [] == r.log;
      case MoreMembers(_, _, _, gap, rest) =>
        MoreMembersComplete(env, r, ms, n);
    }
  }
}
