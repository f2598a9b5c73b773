/**
  Texts that break off, and what completes them: a value, a name, a colon or a delimiter at the place where one is due,
  and then the brackets of the containers that are open.
 */
module Completions {
  import opened Bytes
  import opened Strings
  import opened Events
  import opened Grammar

  // ---------------------------------------------------------------- what would have let the text go on

  /** What is due: a value, the name of a member, the colon behind it, or the delimiter behind an element or member. */
  datatype Place = ValueDue | NameDue | ColonDue | DelimiterDue | MemberDelimiterDue

  /** Where the text breaks off, what is due there, and the brackets that then close the outer containers. */
  datatype Hole = Hole(place: Place, at: nat, closers: Text)

  /** Short texts that are due at a place, up to the bracket that closes the innermost container. */
  ghost predicate IsDue(env: Env, place: Place, core: Text) {
    match place
    case ValueDue => exists c :: Legal(env, c) && core == TreeText(c)
    case NameDue => core == [QUOTE, QUOTE, COLON] + NULL_TEXT + [RBRACE]
    case ColonDue => core == [COLON] + NULL_TEXT + [RBRACE]
    case DelimiterDue => core == [RBRACKET] || core == [COMMA] + NULL_TEXT + [RBRACKET]
    case MemberDelimiterDue => core == [RBRACE] || core == [COMMA, QUOTE, QUOTE, COLON] + NULL_TEXT + [RBRACE]
  }

  datatype Part = ValuePart | ElementsPart | MembersPart

  predicate IsValueText(env: Env, t: Text, gap: Text, c: Tree) {
    AllSpace(gap) && Legal(env, c) && t == gap + TreeText(c)
  }

  predicate IsElementsText(env: Env, t: Text, gap: Text, es: Elements) {
    AllSpace(gap) && LegalElements(env, es) && t == gap + ElementsText(es)
  }

  predicate IsMembersText(env: Env, t: Text, gap: Text, ms: Members) {
    AllSpace(gap) && LegalMembers(env, ms) && t == gap + MembersText(ms)
  }

  /** White space and a legal value, or legal elements or members with the closing bracket. */
  ghost predicate Whole(env: Env, part: Part, t: Text) {
    match part
    case ValuePart => exists gap, c :: IsValueText(env, t, gap, c)
    case ElementsPart => exists gap, es :: IsElementsText(env, t, gap, es)
    case MembersPart => exists gap, ms :: IsMembersText(env, t, gap, ms)
  }

  /** With white space, what is due, and the closing brackets behind it, s is whole. */
  ghost predicate Completed(env: Env, part: Part, s: Text, h: Hole) {
    forall gap, core | AllSpace(gap) && IsDue(env, h.place, core) :: Whole(env, part, s + (gap + core) + h.closers)
  }

  // ---------------------------------------------------------------- completing a text from the inside out

  lemma SpaceMore(a: Text, b: Text)
    requires AllSpace(a) && AllSpace(b)
    ensures AllSpace(a + b)
  {
  }

  lemma Regroup<T>(a: seq<T>, s: seq<T>, x: seq<T>, z: seq<T>, b: seq<T>)
    ensures a + s + x + (z + b) == a + (s + x + z) + b
  {
  }

  lemma Unit<T>(s: seq<T>)
    ensures [] + s == s && s + [] == s
  {
  }

  /** What holds of every whole text with something before and behind it holds of every completed one. */
  lemma Lifted(env: Env, part: Part, s: Text, h: Hole, part': Part, a: Text, b: Text)
    requires Completed(env, part, s, h)
    requires forall t | Whole(env, part, t) :: Whole(env, part', a + t + b)
    ensures Completed(env, part', a + s, h.(closers := h.closers + b))
  {
    hide Whole, IsDue, AllSpace;
    forall gap, core | AllSpace(gap) && IsDue(env, h.place, core)
      ensures Whole(env, part', a + s + (gap + core) + (h.closers + b))
    {
      Regroup(a, s, gap + core, h.closers, b);
      assert Whole(env, part, s + (gap + core) + h.closers);
    }
  }

  lemma ValueWhole(env: Env, t: Text) returns (gap: Text, c: Tree)
    requires Whole(env, ValuePart, t)
    ensures AllSpace(gap) && Legal(env, c) && t == gap + TreeText(c)
  {
    hide AllSpace, Legal, TreeText;
    gap, c :| IsValueText(env, t, gap, c);
  }

  lemma ElementsWhole(env: Env, t: Text) returns (gap: Text, es: Elements)
    requires Whole(env, ElementsPart, t)
    ensures AllSpace(gap) && LegalElements(env, es) && t == gap + ElementsText(es)
  {
    hide AllSpace, LegalElements, ElementsText;
    gap, es :| IsElementsText(env, t, gap, es);
  }

  lemma MembersWhole(env: Env, t: Text) returns (gap: Text, ms: Members)
    requires Whole(env, MembersPart, t)
    ensures AllSpace(gap) && LegalMembers(env, ms) && t == gap + MembersText(ms)
  {
    hide AllSpace, LegalMembers, MembersText;
    gap, ms :| IsMembersText(env, t, gap, ms);
  }

  lemma WholeValue(env: Env, gap: Text, c: Tree)
    requires AllSpace(gap) && Legal(env, c)
    ensures Whole(env, ValuePart, gap + TreeText(c)) && Whole(env, ValuePart, TreeText(c))
  {
    hide Legal, TreeText;
    Unit(TreeText(c));
    assert IsValueText(env, gap + TreeText(c), gap, c) && IsValueText(env, TreeText(c), [], c);
  }

  lemma WholeElements(env: Env, gap: Text, es: Elements)
    requires AllSpace(gap) && LegalElements(env, es)
    ensures Whole(env, ElementsPart, gap + ElementsText(es)) && Whole(env, ElementsPart, ElementsText(es))
  {
    hide LegalElements, ElementsText;
    Unit(ElementsText(es));
    assert IsElementsText(env, gap + ElementsText(es), gap, es) && IsElementsText(env, ElementsText(es), [], es);
  }

  lemma WholeMembers(env: Env, gap: Text, ms: Members)
    requires AllSpace(gap) && LegalMembers(env, ms)
    ensures Whole(env, MembersPart, gap + MembersText(ms)) && Whole(env, MembersPart, MembersText(ms))
  {
    hide LegalMembers, MembersText;
    Unit(MembersText(ms));
    assert IsMembersText(env, gap + MembersText(ms), gap, ms) && IsMembersText(env, MembersText(ms), [], ms);
  }

  lemma ValueMissing(env: Env, at: nat)
    ensures Completed(env, ValuePart, [], Hole(ValueDue, at, []))
  {
    hide TreeText, Legal, AllSpace, Whole;
    forall gap, core | AllSpace(gap) && IsDue(env, ValueDue, core) ensures Whole(env, ValuePart, [] + (gap + core) + []) {
      var c :| Legal(env, c) && core == TreeText(c);
      Unit(gap + core);
      WholeValue(env, gap, c);
    }
  }

  lemma FirstElement(env: Env, s: Text, h: Hole)
    requires Completed(env, ValuePart, s, h)
    ensures Completed(env, ElementsPart, s, h.(closers := h.closers + [RBRACKET]))
  {
    hide *;
    forall t | Whole(env, ValuePart, t) ensures Whole(env, ElementsPart, [] + t + [RBRACKET]) {
      var g, c := ValueWhole(env, t);
      OneElement(env, c);
      WholeElements(env, g, Last(c, []));
      Regroup([], g, TreeText(c), [], [RBRACKET]);
      Unit(t);
      Unit(g + TreeText(c));
      Unit(g);
      Unit([RBRACKET]);
      assert g + (TreeText(c) + [RBRACKET]) == g + TreeText(c) + [RBRACKET];
    }
    Lifted(env, ValuePart, s, h, ElementsPart, [], [RBRACKET]);
    Unit(s);
  }

  lemma OneElement(env: Env, c: Tree)
    requires Legal(env, c)
    ensures LegalElements(env, Last(c, [])) && ElementsText(Last(c, [])) == TreeText(c) + [RBRACKET]
  {
    hide TreeText, Legal;
    Unit([RBRACKET]);
  }

  lemma OpenArray(env: Env, before: Text, s: Text, h: Hole)
    requires AllSpace(before) && Completed(env, ElementsPart, s, h)
    ensures Completed(env, ValuePart, [LBRACKET] + before + s, h)
  {
    hide *;
    forall t | Whole(env, ElementsPart, t) ensures Whole(env, ValuePart, [LBRACKET] + before + t + []) {
      var g, es := ElementsWhole(env, t);
      SpaceMore(before, g);
      ArrayText(env, before + g, es);
      WholeValue(env, [], Array(before + g, es));
      assert [LBRACKET] + before + t + [] == [LBRACKET] + (before + g + ElementsText(es));
    }
    Lifted(env, ElementsPart, s, h, ValuePart, [LBRACKET] + before, []);
    Unit(h.closers);
  }

  lemma ArrayText(env: Env, gap: Text, es: Elements)
    requires AllSpace(gap) && LegalElements(env, es)
    ensures AllSpace([]) && Legal(env, Array(gap, es)) && TreeText(Array(gap, es)) == [LBRACKET] + (gap + ElementsText(es))
  {
  }

  lemma ElementBefore(env: Env, v: Tree, after: Text, before: Text, s: Text, h: Hole)
    requires Legal(env, v) && AllSpace(after) && AllSpace(before) && Completed(env, ElementsPart, s, h)
    ensures Completed(env, ElementsPart, TreeText(v) + after + ([COMMA] + before) + s, h)
  {
    hide *;
    var a := TreeText(v) + after + ([COMMA] + before);
    forall t | Whole(env, ElementsPart, t) ensures Whole(env, ElementsPart, a + t + []) {
      var g, es := ElementsWhole(env, t);
      SpaceMore(before, g);
      MoreText(env, v, after, before + g, es);
      WholeElements(env, [], More(v, after, before + g, es));
      Commas(TreeText(v), after, before, g, ElementsText(es));
      Unit(a + t);
    }
    Lifted(env, ElementsPart, s, h, ElementsPart, a, []);
    Unit(h.closers);
  }

  lemma Commas(v: Text, after: Text, before: Text, g: Text, rest: Text)
    ensures v + after + ([COMMA] + before) + (g + rest) == v + (after + ([COMMA] + (before + g + rest)))
  {
  }

  lemma MoreText(env: Env, v: Tree, after: Text, gap: Text, es: Elements)
    requires Legal(env, v) && AllSpace(after) && AllSpace(gap) && LegalElements(env, es)
    ensures AllSpace([]) && LegalElements(env, More(v, after, gap, es))
    ensures ElementsText(More(v, after, gap, es)) == TreeText(v) + (after + ([COMMA] + (gap + ElementsText(es))))
  {
    hide Legal, TreeText;
  }

  lemma DelimiterMissing(env: Env, v: Tree, after: Text, at: nat)
    requires Legal(env, v) && AllSpace(after)
    ensures Completed(env, ElementsPart, TreeText(v) + after, Hole(DelimiterDue, at, []))
  {
    hide TreeText, Legal, AllSpace, Whole, ElementsText, LegalElements;
    forall gap, core | AllSpace(gap) && IsDue(env, DelimiterDue, core)
      ensures Whole(env, ElementsPart, TreeText(v) + after + (gap + core) + [])
    {
      Unit(TreeText(v) + after + (gap + core));
      SpaceMore(after, gap);
      assert TreeText(v) + after + (gap + core) == TreeText(v) + (after + gap + core);
      LastText(env, v, after + gap);
      if core == [RBRACKET] {
        WholeElements(env, [], Last(v, after + gap));
      } else {
        NullElement(env);
        MoreText(env, v, after + gap, [], Last(NullLit, []));
        WholeElements(env, [], More(v, after + gap, [], Last(NullLit, [])));
        assert core == [COMMA] + ([] + (NULL_TEXT + [RBRACKET]));
      }
    }
  }

  lemma LastText(env: Env, v: Tree, after: Text)
    requires Legal(env, v) && AllSpace(after)
    ensures AllSpace([]) && LegalElements(env, Last(v, after)) && ElementsText(Last(v, after)) == TreeText(v) + (after + [RBRACKET])
  {
    hide Legal, TreeText;
  }

  lemma NullElement(env: Env)
    ensures LegalElements(env, Last(NullLit, [])) && ElementsText(Last(NullLit, [])) == NULL_TEXT + [RBRACKET]
  {
    OneElement(env, NullLit);
  }

  lemma FirstMember(env: Env, name: Name, s: Text, h: Hole)
    requires LegalName(name) && Completed(env, ValuePart, s, h)
    ensures Completed(env, MembersPart, NameText(name) + s, h.(closers := h.closers + [RBRACE]))
  {
    hide *;
    var a := NameText(name);
    forall t | Whole(env, ValuePart, t) ensures Whole(env, MembersPart, a + t + [RBRACE]) {
      var g, c := ValueWhole(env, t);
      var n := name.(behind := name.behind + g);
      WiderName(name, g);
      NoSpace();
      OneMember(env, n, c, []);
      WholeMembers(env, [], LastMember(n, c, []));
      Unit([RBRACE]);
      assert a + t + [RBRACE] == a + g + (TreeText(c) + [RBRACE]);
    }
    Lifted(env, ValuePart, s, h, MembersPart, a, [RBRACE]);
  }

  lemma WiderName(name: Name, g: Text)
    requires LegalName(name) && AllSpace(g)
    ensures LegalName(name.(behind := name.behind + g)) && NameText(name.(behind := name.behind + g)) == NameText(name) + g
  {
    hide LegalPieces, StringText, AllSpace;
    SpaceMore(name.behind, g);
    assert name.before + ([COLON] + (name.behind + g)) == name.before + ([COLON] + name.behind) + g;
  }

  lemma OneMember(env: Env, name: Name, v: Tree, after: Text)
    requires LegalName(name) && Legal(env, v) && AllSpace(after)
    ensures AllSpace([]) && LegalMembers(env, LastMember(name, v, after))
    ensures MembersText(LastMember(name, v, after)) == NameText(name) + (TreeText(v) + (after + [RBRACE]))
  {
    hide LegalName, NameText, Legal, TreeText;
  }

  lemma OpenObject(env: Env, before: Text, s: Text, h: Hole)
    requires AllSpace(before) && Completed(env, MembersPart, s, h)
    ensures Completed(env, ValuePart, [LBRACE] + before + s, h)
  {
    hide *;
    forall t | Whole(env, MembersPart, t) ensures Whole(env, ValuePart, [LBRACE] + before + t + []) {
      var g, ms := MembersWhole(env, t);
      SpaceMore(before, g);
      ObjectText(env, before + g, ms);
      WholeValue(env, [], Object(before + g, ms));
      assert [LBRACE] + before + t + [] == [LBRACE] + (before + g + MembersText(ms));
    }
    Lifted(env, MembersPart, s, h, ValuePart, [LBRACE] + before, []);
    Unit(h.closers);
  }

  lemma ObjectText(env: Env, gap: Text, ms: Members)
    requires AllSpace(gap) && LegalMembers(env, ms)
    ensures AllSpace([]) && Legal(env, Object(gap, ms)) && TreeText(Object(gap, ms)) == [LBRACE] + (gap + MembersText(ms))
  {
  }

  lemma MemberBefore(env: Env, name: Name, v: Tree, after: Text, before: Text, s: Text, h: Hole)
    requires LegalName(name) && Legal(env, v) && AllSpace(after) && AllSpace(before) && Completed(env, MembersPart, s, h)
    ensures Completed(env, MembersPart, NameText(name) + TreeText(v) + after + ([COMMA] + before) + s, h)
  {
    hide *;
    var a := NameText(name) + TreeText(v) + after + ([COMMA] + before);
    forall t | Whole(env, MembersPart, t) ensures Whole(env, MembersPart, a + t + []) {
      var g, ms := MembersWhole(env, t);
      SpaceMore(before, g);
      MoreMembersText(env, name, v, after, before + g, ms);
      WholeMembers(env, [], MoreMembers(name, v, after, before + g, ms));
      Commas(NameText(name) + TreeText(v), after, before, g, MembersText(ms));
      Unit(a + t);
      Associate3(NameText(name), TreeText(v), after + ([COMMA] + (before + g + MembersText(ms))));
    }
    Lifted(env, MembersPart, s, h, MembersPart, a, []);
    Unit(h.closers);
  }

  lemma Associate3<T>(a: seq<T>, b: seq<T>, c: seq<T>)
    ensures a + b + c == a + (b + c)
  {
  }

  lemma MoreMembersText(env: Env, name: Name, v: Tree, after: Text, gap: Text, ms: Members)
    requires LegalName(name) && Legal(env, v) && AllSpace(after) && AllSpace(gap) && LegalMembers(env, ms)
    ensures AllSpace([]) && LegalMembers(env, MoreMembers(name, v, after, gap, ms))
    ensures MembersText(MoreMembers(name, v, after, gap, ms)) ==
              NameText(name) + (TreeText(v) + (after + ([COMMA] + (gap + MembersText(ms)))))
  {
    hide LegalName, NameText, Legal, TreeText;
  }

  function NullName(): Name {
    Name([], [], [])
  }

  lemma NullMember(env: Env)
    ensures var ms := LastMember(NullName(), NullLit, []);
            LegalMembers(env, ms) && MembersText(ms) == [QUOTE, QUOTE, COLON] + NULL_TEXT + [RBRACE]
  {
    var n := NullName();
    assert NameText(n) == [QUOTE] + ([] + [QUOTE]) + ([] + ([COLON] + []));
    OneMember(env, n, NullLit, []);
  }

  lemma MemberDelimiterMissing(env: Env, name: Name, v: Tree, after: Text, at: nat)
    requires LegalName(name) && Legal(env, v) && AllSpace(after)
    ensures Completed(env, MembersPart, NameText(name) + TreeText(v) + after, Hole(MemberDelimiterDue, at, []))
  {
    hide TreeText, Legal, AllSpace, Whole, MembersText, LegalMembers, NameText, LegalName, NullName;
    var head := NameText(name) + TreeText(v);
    forall gap, core | AllSpace(gap) && IsDue(env, MemberDelimiterDue, core)
      ensures Whole(env, MembersPart, head + after + (gap + core) + [])
    {
      Unit(head + after + (gap + core));
      SpaceMore(after, gap);
      assert head + after + (gap + core) == NameText(name) + (TreeText(v) + (after + gap + core));
      OneMember(env, name, v, after + gap);
      if core == [RBRACE] {
        WholeMembers(env, [], LastMember(name, v, after + gap));
      } else {
        NullMember(env);
        var last := LastMember(NullName(), NullLit, []);
        MoreMembersText(env, name, v, after + gap, [], last);
        WholeMembers(env, [], MoreMembers(name, v, after + gap, [], last));
        assert core == [COMMA] + ([] + MembersText(last));
      }
    }
  }

  lemma NameMissing(env: Env, at: nat)
    ensures Completed(env, MembersPart, [], Hole(NameDue, at, []))
  {
    hide LegalMembers, MembersText, AllSpace, Whole, NullName;
    NullMember(env);
    forall gap, core | AllSpace(gap) && IsDue(env, NameDue, core) ensures Whole(env, MembersPart, [] + (gap + core) + []) {
      Unit(gap + core);
      WholeMembers(env, gap, LastMember(NullName(), NullLit, []));
    }
  }

  lemma ColonMissing(env: Env, pieces: seq<Piece>, before: Text, at: nat)
    requires LegalPieces(pieces) && AllSpace(before)
    ensures Completed(env, MembersPart, StringText(pieces) + before, Hole(ColonDue, at, []))
  {
    hide LegalPieces, StringText, AllSpace, Whole, MembersText, LegalMembers;
    forall gap, core | AllSpace(gap) && IsDue(env, ColonDue, core)
      ensures Whole(env, MembersPart, StringText(pieces) + before + (gap + core) + [])
    {
      SpaceMore(before, gap);
      var n := Name(pieces, before + gap, []);
      NoSpace();
      OneMember(env, n, NullLit, []);
      WholeMembers(env, [], LastMember(n, NullLit, []));
      assert NameText(n) == StringText(pieces) + (before + gap + ([COLON] + []));
      assert StringText(pieces) + before + (gap + core) + [] == NameText(n) + (NULL_TEXT + ([] + [RBRACE]));
    }
  }

  lemma NoSpace()
    ensures AllSpace([])
  {
  }
}
