/** The objects put together: `Accept` drives a writer, and a document parses what was written. */
module Accepting {
  import opened Bytes
  import opened Strings
  import opened Events
  import opened Numbers
  import opened Grammar
  import opened Values
  import opened Writers
  import opened Printing
  import opened WriterRuns
  import opened RecursiveParser
  import opened GrammarAccepted
  import opened Language
  import opened Documents
  import opened RoundTrip

  /** The writer's call for one event. */
  method Send(writer: Writer, e: Event, ghost p: Progress)
    requires Shows(Compact, writer.Now(), p) && Accepts(p, e)
    modifies writer
    ensures Shows(Compact, writer.Now(), Advance(p, e))
  {
    hide Shows, Accepts, Guarded, Write, Advance;
    CallShows(Compact, writer.Now(), p, e);
    Kinds(p, e);
    if e.StartObject? {
      writer.StartObject();
    } else if e.StartArray? {
      writer.StartArray();
    } else if e.EndObject? {
      writer.EndObject(e.count);
    } else if e.EndArray? {
      writer.EndArray(e.count);
    } else {
      writer.Leaf(e);
    }
  }

  /** `Accept` on a writer adds exactly this value to the one being written, and passes every assertion. */
  method Accept(v: Value, writer: Writer, ghost p: Progress)
    requires Valid(v) && DoubleFree(v) && TakesValue(p) && Shows(Compact, writer.Now(), p)
    modifies writer
    ensures Shows(Compact, writer.Now(), Put(p, v))
    decreases v
  {
    hide Shows, Accepts, Advance, Put, TakesValue, Replay;
    match v
    case ArrayValue(es) => AcceptElements(es, writer, p);
    case ObjectValue(ms) => AcceptMembers(ms, writer, p);
    case _ =>
      LeafAccepted(p, v);
      Send(writer, Replay(v)[0], p);
  }

  lemma LeafAccepted(p: Progress, v: Value)
    requires Valid(v) && DoubleFree(v) && !v.ArrayValue? && !v.ObjectValue? && TakesValue(p)
    ensures |Replay(v)| == 1 && Accepts(p, Replay(v)[0]) && Advance(p, Replay(v)[0]) == Put(p, v)
  {
    if v.NumberValue? {
      NumberReplays(v.n);
    }
  }

  method AcceptElements(es: seq<Value>, writer: Writer, ghost p: Progress)
    requires ValidElements(es) && (forall k | 0 <= k < |es| :: DoubleFree(es[k]))
    requires TakesValue(p) && Shows(Compact, writer.Now(), p)
    modifies writer
    ensures Shows(Compact, writer.Now(), Put(p, ArrayValue(es)))
    decreases es
  {
    hide Valid, DoubleFree, Shows;
    ghost var fs := FramesOf(p);
    Send(writer, StartArray, p);
    for i := 0 to |es|
      invariant Shows(Compact, writer.Now(), Within(fs + [OpenArray(es[..i])]))
    {
      ghost var q := Within(fs + [OpenArray(es[..i])]);
      assert q.frames[..|fs|] == fs && es[..i] + [es[i]] == es[..i + 1];
      Accept(es[i], writer, q);
    }
    assert es[..|es|] == es;
    ghost var q := Within(fs + [OpenArray(es)]);
    assert q.frames[..|fs|] == fs;
    Send(writer, EndArray(|es|), q);
  }

  method AcceptMembers(ms: seq<Member>, writer: Writer, ghost p: Progress)
    requires ValidMembers(ms) && (forall k | 0 <= k < |ms| :: DoubleFree(ms[k].value))
    requires TakesValue(p) && Shows(Compact, writer.Now(), p)
    modifies writer
    ensures Shows(Compact, writer.Now(), Put(p, ObjectValue(ms)))
    decreases ms
  {
    hide Valid, DoubleFree, Shows;
    ghost var fs := FramesOf(p);
    Send(writer, StartObject, p);
    for i := 0 to |ms|
      invariant Shows(Compact, writer.Now(), Within(fs + [OpenObject(ms[..i])]))
    {
      ghost var q := Within(fs + [OpenObject(ms[..i])]);
      assert q.frames[..|fs|] == fs && ms[..i] + [ms[i]] == ms[..i + 1];
      AcceptMember(ms[i], writer, fs, ms[..i]);
    }
    assert ms[..|ms|] == ms;
    ghost var q := Within(fs + [OpenObject(ms)]);
    assert q.frames[..|fs|] == fs;
    Send(writer, EndObject(|ms|), q);
  }

  method AcceptMember(m: Member, writer: Writer, ghost fs: seq<Open>, ghost done: seq<Member>)
    requires m.name.StringValue? && Valid(m.value) && DoubleFree(m.value)
    requires Shows(Compact, writer.Now(), Within(fs + [OpenObject(done)]))
    modifies writer
    ensures Shows(Compact, writer.Now(), Within(fs + [OpenObject(done + [m])]))
    decreases m
  {
    hide Valid, DoubleFree, Shows;
    ghost var p, q := Within(fs + [OpenObject(done)]), Within(fs + [OpenMember(done, m.name)]);
    assert p.frames[..|fs|] == fs && q.frames[..|fs|] == fs;
    Send(writer, Key(m.name.s), p);
    Accept(m.value, writer, q);
    assert Member(m.name, m.value) == m;
  }

  // ---------------------------------------------------------------- texts contain no terminator

  predicate NoNul(t: Text) {
    forall k | 0 <= k < |t| :: t[k] != NUL
  }

  lemma {:induction false} PiecesHaveNoNul(xs: seq<Piece>)
    requires LegalPieces(xs)
    ensures NoNul(PiecesText(xs))
  {
    if xs != [] {
      PieceHasNoNul(xs[0]);
      PiecesHaveNoNul(xs[1..]);
    }
  }

  lemma QuadHasNoNul(h: Text)
    requires IsQuad(h)
    ensures NoNul(h)
  {
    forall k | 0 <= k < |h| ensures h[k] != NUL {
      assert IsHex(Peek(h, k));
    }
  }

  lemma PieceHasNoNul(x: Piece)
    requires LegalPiece(x)
    ensures NoNul(PieceText(x))
  {
    match x
    case Unicode(h) => QuadHasNoNul(h);
    case Surrogates(h, l) =>
      QuadHasNoNul(h);
      QuadHasNoNul(l);
    case _ =>
  }

  lemma Join(a: Text, b: Text)
    requires NoNul(a) && NoNul(b)
    ensures NoNul(a + b)
  {
  }

  lemma SmallHaveNoNul(t: Text, gap: Text)
    requires AllSpace(gap)
    ensures NoNul(gap) && (t in [[LBRACKET], [RBRACKET], [LBRACE], [RBRACE], [QUOTE], [COMMA], [COLON]] ==> NoNul(t))
  {
  }

  lemma StringHasNoNul(pieces: seq<Piece>)
    requires LegalPieces(pieces)
    ensures NoNul(StringText(pieces))
  {
    hide NoNul, PiecesText, LegalPieces;
    PiecesHaveNoNul(pieces);
    SmallHaveNoNul([QUOTE], []);
    Join(PiecesText(pieces), [QUOTE]);
    Join([QUOTE], PiecesText(pieces) + [QUOTE]);
  }

  lemma NameHasNoNul(n: Name)
    requires LegalName(n)
    ensures NoNul(NameText(n))
  {
    hide NoNul, StringText, LegalPieces;
    StringHasNoNul(n.pieces);
    SmallHaveNoNul([COLON], n.before);
    SmallHaveNoNul([COLON], n.behind);
    Join([COLON], n.behind);
    Join(n.before, [COLON] + n.behind);
    Join(StringText(n.pieces), n.before + ([COLON] + n.behind));
  }

  lemma LiteralsHaveNoNul()
    ensures NoNul(NULL_TEXT) && NoNul(TRUE_TEXT) && NoNul(FALSE_TEXT)
  {
  }

  lemma NumeralHasNoNul(n: Numeral)
    requires LegalNumeral(n)
    ensures NoNul(NumeralText(n))
  {
  }

  /** The text of a legal tree contains no NUL, whatever its strings denote. */
  lemma {:induction false} TreeHasNoNul(env: Env, c: Tree)
    requires Legal(env, c)
    ensures NoNul(TreeText(c))
    decreases c
  {
    hide NoNul, ElementsText, MembersText, StringText, NumeralText, LegalElements, LegalMembers, LegalPieces,
         LegalNumeral, Refused;
    match c
    case Str(pieces) => StringHasNoNul(pieces);
    case Number(n) => NumeralHasNoNul(n);
    case EmptyArray(gap) => Enclosed([LBRACKET], gap, [RBRACKET]);
    case EmptyObject(gap) => Enclosed([LBRACE], gap, [RBRACE]);
    case Array(gap, es) =>
      ElementsHaveNoNul(env, es);
      Enclosed([LBRACKET], gap, ElementsText(es));
    case Object(gap, ms) =>
      MembersHaveNoNul(env, ms);
      Enclosed([LBRACE], gap, MembersText(ms));
    case _ => LiteralsHaveNoNul();
  }

  lemma Enclosed(open: Text, gap: Text, rest: Text)
    requires AllSpace(gap) && open in [[LBRACKET], [LBRACE], [COMMA]]
    requires rest in [[RBRACKET], [RBRACE]] || NoNul(rest)
    ensures NoNul(open + (gap + rest))
  {
    hide NoNul, AllSpace;
    SmallHaveNoNul(open, gap);
    SmallHaveNoNul(rest, gap);
    Join(gap, rest);
    Join(open, gap + rest);
  }

  lemma {:induction false} ElementsHaveNoNul(env: Env, es: Elements)
    requires LegalElements(env, es)
    ensures NoNul(ElementsText(es))
    decreases es
  {
    hide NoNul, TreeText, Legal, AllSpace;
    TreeHasNoNul(env, es.value);
    SmallHaveNoNul([RBRACKET], es.after);
    match es {
      case Last(_, _) =>
      case Trailing(_, _, gap) => Enclosed([COMMA], gap, [RBRACKET]);
      case More(_, _, gap, rest) =>
        ElementsHaveNoNul(env, rest);
        Enclosed([COMMA], gap, ElementsText(rest));
    }
    Join(es.after, ElementsTail(es));
    Join(TreeText(es.value), es.after + ElementsTail(es));
  }

  lemma {:induction false} MembersHaveNoNul(env: Env, ms: Members)
    requires LegalMembers(env, ms)
    ensures NoNul(MembersText(ms))
    decreases ms
  {
    hide NoNul, TreeText, Legal, AllSpace, LegalName, NameText;
    NameHasNoNul(ms.name);
    TreeHasNoNul(env, ms.value);
    SmallHaveNoNul([RBRACE], ms.after);
    match ms {
      case LastMember(_, _, _) =>
      case TrailingMember(_, _, _, gap) => Enclosed([COMMA], gap, [RBRACE]);
      case MoreMembers(_, _, _, gap, rest) =>
        MembersHaveNoNul(env, rest);
        Enclosed([COMMA], gap, MembersText(rest));
    }
    Join(ms.after, MembersTail(ms));
    Join(TreeText(ms.value), ms.after + MembersTail(ms));
    Join(NameText(ms.name), TreeText(ms.value) + (ms.after + MembersTail(ms)));
  }

  /** A value whose events the parser reports is the value the document adopts. */
  lemma OneValueParsed(env: Env, v: Value, before: Text, c: Tree, rest: Text)
    requires AcceptsAll(env) && Accepted(env, before, c, rest) && Build([], Parse(env).log) == Some([v])
    ensures Countable(c) && TreeValue(env, c) == v
  {
    hide Parse, Build, TreeEvents, TreeText, Excess, Countable, TreeValue, Legal;
    EveryTreeAccepted(env, before, c, rest);
    NoExcessIffCountable(c);
    TreeBuilds(env, [], c);
    assert [] + [TreeValue(env, c)] == [TreeValue(env, c)];
  }

  /** Write a value, and parse the text into a document: the document holds the same value. */
  method WriteAndRead(v: Value, env: Env, document: GenericDocument) returns (text: Text)
    requires Valid(v) && DoubleFree(v) && AcceptsAll(env) && document.stack == []
    modifies document
    ensures Printable(v) && text == TreeText(Format(Compact, 0, v))
    ensures document.root == v && document.parseResult.NoError?
  {
    hide Valid, DoubleFree, Printable, Format, TreeText, Build, Parse, Session, Replay;
    var writer := new Writer();
    Accept(v, writer, Nothing);
    text := writer.os;
    WritingPrints(Compact, v);
    var env1 := env.(text := text);
    WriteThenRead(env1, Compact, v);
    FormatLegal(env1, Compact, 0, v);
    TreeHasNoNul(env1, Format(Compact, 0, v));
    var ok := document.ParseStream(env1);
    ghost var before, c, rest :| Accepted(env1, before, c, rest) && (ok <==> Countable(c))
      && document.root == (if ok then TreeValue(env1, c) else old(document.root));
    OneValueParsed(env1, v, before, c, rest);
  }
}
