/** Runs of writer calls: the output is always a prefix of a JSON text, and whole exactly when the writer says so. */
module WriterRuns {
  import opened Bytes
  import opened Events
  import opened Grammar
  import opened Values
  import opened Writers
  import opened Printing
  import opened RecursiveParser
  import opened GrammarAccepted
  import Numbers
  import Strings

  // ---------------------------------------------------------------- what a writer has written

  predicate GoodFrames(fs: seq<Open>) {
    forall k | 0 <= k < |fs| :: GoodFrame(fs[k])
  }

  /** A container inside an object stands behind a name. */
  predicate Nested(fs: seq<Open>) {
    forall k | 0 <= k < |fs| - 1 :: !fs[k].OpenObject?
  }

  /** The level of every frame; the outer ones have counted the item in progress. */
  function LevelsOf(fs: seq<Open>): seq<Level> {
    seq(|fs|, i requires 0 <= i < |fs| =>
      if i < |fs| - 1 then Level(Size(fs[i]) + 1, fs[i].OpenArray?) else LevelOf(fs[i]))
  }

  /** The writer's fields and output are those of the progress made. */
  predicate Shows(style: Style, w: Sheet, p: Progress) {
    match p
    case Nothing => w == BLANK
    case Done(v) => Printable(v) && w == Sheet(TreeText(Format(style, 0, v)), [], true)
    case Within(fs) => fs != [] && GoodFrames(fs) && Nested(fs) && w == Sheet(FramesText(style, fs), LevelsOf(fs), true)
  }

  /** The next call that continues a value. */
  predicate Accepts(p: Progress, e: Event) {
    match e
    case EndObject(_) => p.Within? && p.frames != [] && p.frames[|p.frames| - 1].OpenObject?
    case EndArray(_) => p.Within? && p.frames != [] && p.frames[|p.frames| - 1].OpenArray?
    case Double(_) => false
    case _ =>
      match p
      case Nothing => true
      case Done(_) => false
      case Within(fs) => fs != [] && (fs[|fs| - 1].OpenObject? ==> e.String? || e.Key?)
  }

  function Advance(p: Progress, e: Event): Progress
    requires Accepts(p, e)
  {
    if IsEnd(e) then
      var n := |p.frames| - 1;
      var v := Closed(p.frames[n]);
      if n == 0 then Done(v) else Put(Within(p.frames[..n]), v)
    else if e.StartObject? || e.StartArray? then
      Within((if p.Within? then p.frames else []) + [if e.StartObject? then OpenObject([]) else OpenArray([])])
    else Put(p, LeafValue(e))
  }

  // ---------------------------------------------------------------- one call

  lemma GuardsAgree(style: Style, w: Sheet, p: Progress, e: Event)
    requires Shows(style, w, p)
    ensures Guarded(w, e) <==> Accepts(p, e)
  {
    hide FramesText, Format, TreeText, Printable, GoodFrames;
    if p.Within? {
      var n := |p.frames| - 1;
      assert w.levels[n] == LevelOf(p.frames[n]);
    }
  }

  lemma LeafText(style: Style, depth: nat, e: Event)
    requires IsLeaf(e) && !e.Double?
    ensures Printable(LeafValue(e)) && TreeText(Format(style, depth, LeafValue(e))) == TokenOf(e)
  {
    if IsNumberEvent(e) {
      NumberText(style, depth, e);
    } else if e.String? || e.Key? {
      hide Strings.Escaped, Strings.PiecesText, Format;
      LiteralText(style, depth, e.s);
    }
  }

  lemma NumberText(style: Style, depth: nat, e: Event)
    requires IsNumberEvent(e) && !e.Double?
    ensures Printable(LeafValue(e)) && TreeText(Format(style, depth, LeafValue(e))) == TokenOf(e)
  {
    hide Numbers.NumeralText, Numbers.LegalNumeral, Numbers.NumeralEvent, Decimal, SignedDecimal, Stored;
    EventStored(e);
    StoredIsWellStored(EventInteger(e));
    IntegerReadsBack(EventInteger(e));
  }

  /** Finishing an item inside frames: its text, and the count of the innermost level. */
  lemma PutText(style: Style, fs: seq<Open>, v: Value)
    requires fs != [] && GoodFrames(fs) && Nested(fs) && Printable(v) && (fs[|fs| - 1].OpenObject? ==> v.StringValue?)
    ensures var fs' := Put(Within(fs), v).frames;
            && fs' != [] && GoodFrames(fs') && Nested(fs') && LevelsOf(fs') == Writers.Counted(LevelsOf(fs))
            && FramesText(style, fs') == FramesText(style, fs) + (Introduced(style, fs) + TreeText(Format(style, |fs|, v)))
  {
    hide *;
    var n := |fs| - 1;
    var f := fs[n];
    LastFrame(fs, v);
    var fs' := Put(Within(fs), v).frames;
    ItemAdded(style, n + 1, f, v);
    PutFrames(fs, v);
    BracketAdded(f, v);
    FramesUnfold(style, fs);
    FramesUnfold(style, fs');
    Joined(FramesText(style, fs[..n]) + Introduced(style, fs[..n]), Bracket(f), ItemsText(style, n + 1, f),
           Introduced(style, fs) + TreeText(Format(style, |fs|, v)));
    LeadsTo(style, fs);
  }

  lemma LeadsTo(style: Style, fs: seq<Open>)
    requires fs != []
    ensures Introduced(style, fs) == Leading(style, LevelOf(fs[|fs| - 1]), |fs|)
  {
  }

  lemma LastFrame(fs: seq<Open>, v: Value)
    requires fs != [] && GoodFrames(fs)
    ensures GoodFrame(fs[|fs| - 1])
    ensures Put(Within(fs), v) == Within(fs[..|fs| - 1] + [Add(fs[|fs| - 1], v)])
  {
  }

  lemma PutFrames(fs: seq<Open>, v: Value)
    requires fs != [] && GoodFrames(fs) && Nested(fs) && GoodFrame(Add(fs[|fs| - 1], v))
    ensures var fs' := Put(Within(fs), v).frames; var n := |fs| - 1;
            && |fs'| == |fs| && fs'[..n] == fs[..n] && fs'[n] == Add(fs[n], v)
            && GoodFrames(fs') && Nested(fs') && LevelsOf(fs') == Writers.Counted(LevelsOf(fs))
  {
    hide GoodFrame, Add, Size;
    SizeAdded(fs[|fs| - 1], v);
  }

  lemma SizeAdded(f: Open, v: Value)
    ensures LevelOf(Add(f, v)) == Level(Size(f) + 1, f.OpenArray?)
  {
  }

  lemma BracketAdded(f: Open, v: Value)
    ensures Bracket(Add(f, v)) == Bracket(f)
  {
  }

  lemma Joined(a: Text, b: Text, c: Text, d: Text)
    ensures a + (b + (c + d)) == a + (b + c) + d
  {
  }

  lemma LeafShows(style: Style, w: Sheet, p: Progress, e: Event)
    requires Shows(style, w, p) && Guarded(w, e) && Accepts(p, e) && IsLeaf(e)
    ensures Shows(style, Write(style, w, e), Advance(p, e))
  {
    hide FramesText, Format, TreeText, Flatten, Chunk, TokenOf, Printable, GoodFrames, LevelsOf;
    ChunkText(style, w.levels, e);
    LeafText(style, if p.Within? then |p.frames| else 0, e);
    if p.Within? {
      TopLevel(p.frames);
      PutText(style, p.frames, LeafValue(e));
    } else {
      EmptyParts(TokenOf(e));
    }
  }

  lemma EmptyParts(t: Text)
    ensures [] + ([] + t) == t
  {
  }

  lemma TopLevel(fs: seq<Open>)
    requires fs != []
    ensures |LevelsOf(fs)| == |fs| && Top(LevelsOf(fs)) == LevelOf(fs[|fs| - 1])
  {
  }

  /** A container that has just been opened, and what opening it writes. */
  lemma StartText(style: Style, fs: seq<Open>, e: Event, f: Open)
    requires GoodFrames(fs) && Nested(fs) && (fs != [] ==> !fs[|fs| - 1].OpenObject?)
    requires (e.StartObject? && f == OpenObject([])) || (e.StartArray? && f == OpenArray([]))
    ensures GoodFrames(fs + [f]) && Nested(fs + [f])
    ensures LevelsOf(fs + [f]) == LevelsAfter(LevelsOf(fs), e)
    ensures FramesText(style, fs + [f]) == FramesText(style, fs) + (Before(style, LevelsOf(fs), e) + TokenOf(e))
  {
    hide FramesText, GoodFrames, Nested;
    Opened(style, fs, f);
    NoFrames(style);
    if fs == [] {
      NothingIntroduced(style);
    } else {
      TopLevel(fs);
    }
  }

  lemma StartShows(style: Style, w: Sheet, p: Progress, e: Event)
    requires Shows(style, w, p) && Guarded(w, e) && Accepts(p, e) && (e.StartObject? || e.StartArray?)
    ensures Shows(style, Write(style, w, e), Advance(p, e))
  {
    hide FramesText, Flatten, Chunk, LevelsOf, LevelsAfter, Before, TokenOf, Format, TreeText, GoodFrames, Nested;
    ChunkText(style, w.levels, e);
    NoFrames(style);
    NothingNested();
    StartText(style, if p.Within? then p.frames else [], e, if e.StartObject? then OpenObject([]) else OpenArray([]));
  }

  lemma NothingNested()
    ensures GoodFrames([]) && Nested([])
  {
  }

  lemma NoFrames(style: Style)
    ensures FramesText(style, []) == [] && LevelsOf([]) == []
  {
  }

  lemma Opened(style: Style, fs: seq<Open>, f: Open)
    requires GoodFrames(fs) && Nested(fs) && !f.OpenMember? && Size(f) == 0
    requires fs != [] ==> !fs[|fs| - 1].OpenObject?
    ensures GoodFrames(fs + [f]) && Nested(fs + [f]) && LevelsOf(fs + [f]) == Writers.Counted(LevelsOf(fs)) + [Level(0, f.OpenArray?)]
    ensures FramesText(style, fs + [f]) == FramesText(style, fs) + (Introduced(style, fs) + Bracket(f))
  {
    hide FramesText, Introduced, Bracket, ItemsText;
    var fs' := fs + [f];
    NoItems(style, |fs| + 1, f);
    assert fs'[..|fs|] == fs && fs'[|fs|] == f;
    FramesUnfold(style, fs');
    BracketOnly(FramesText(style, fs), Introduced(style, fs), Bracket(f));
  }

  lemma NoItems(style: Style, depth: nat, f: Open)
    requires depth > 0 && !f.OpenMember? && Size(f) == 0
    ensures GoodFrame(f) && ItemsText(style, depth, f) == []
  {
  }

  lemma BracketOnly(a: Text, b: Text, c: Text)
    ensures a + b + (c + []) == a + (b + c)
  {
  }

  /** The innermost container, closed. */
  lemma ClosedText(style: Style, fs: seq<Open>, e: Event)
    requires fs != [] && GoodFrames(fs)
    requires var f := fs[|fs| - 1]; (f.OpenArray? && e.EndArray?) || (f.OpenObject? && e.EndObject?)
    ensures var n := |fs| - 1; var f := fs[n];
            && Printable(Closed(f)) && GoodFrames(fs[..n])
            && FramesText(style, fs) + (ClosingGap(style, LevelOf(f), n) + TokenOf(e)) ==
                 FramesText(style, fs[..n]) + Introduced(style, fs[..n]) + TreeText(Format(style, n, Closed(f)))
  {
    var n := |fs| - 1;
    var f := fs[n];
    EndToken(f, e);
    hide *;
    FramesUnfold(style, fs);
    FrameCloses(style, n, f);
    EndJoined(FramesText(style, fs[..n]) + Introduced(style, fs[..n]), Bracket(f), ItemsText(style, n + 1, f),
              ClosingGap(style, LevelOf(f), n), TokenOf(e));
  }

  lemma EndToken(f: Open, e: Event)
    requires (f.OpenArray? && e.EndArray?) || (f.OpenObject? && e.EndObject?)
    ensures TokenOf(e) == [if f.OpenArray? then RBRACKET else RBRACE]
  {
  }

  lemma EndShows(style: Style, w: Sheet, p: Progress, e: Event)
    requires Shows(style, w, p) && Guarded(w, e) && Accepts(p, e) && IsEnd(e)
    ensures Shows(style, Write(style, w, e), Advance(p, e))
  {
    hide FramesText, Flatten, Chunk, Format, TreeText, ItemsText, Introduced, GoodFrame, LevelsOf, Printable,
         ClosingGap, Bracket, TokenOf;
    ChunkText(style, w.levels, e);
    var fs := p.frames;
    var n := |fs| - 1;
    TopLevel(fs);
    ClosedText(style, fs, e);
    if n == 0 {
      NoFrames(style);
      NothingIntroduced(style);
      EmptyParts(TreeText(Format(style, 0, Closed(fs[n]))));
      assert fs[..0] == [] && LevelsOf(fs)[..0] == [];
    } else {
      Popped(fs);
      PutText(style, fs[..n], Closed(fs[n]));
      ThreeParts(FramesText(style, fs[..n]), Introduced(style, fs[..n]), TreeText(Format(style, n, Closed(fs[n]))));
    }
  }

  lemma FramesUnfold(style: Style, fs: seq<Open>)
    requires fs != [] && GoodFrames(fs)
    ensures var n := |fs| - 1;
            && GoodFrames(fs[..n]) && GoodFrame(fs[n])
            && FramesText(style, fs) ==
                 FramesText(style, fs[..n]) + Introduced(style, fs[..n]) + (Bracket(fs[n]) + ItemsText(style, n + 1, fs[n]))
  {
  }

  lemma NothingIntroduced(style: Style)
    ensures Introduced(style, []) == []
  {
  }

  lemma Popped(fs: seq<Open>)
    requires |fs| > 1
    ensures LevelsOf(fs)[..|fs| - 1] == Writers.Counted(LevelsOf(fs[..|fs| - 1]))
  {
  }

  lemma EndJoined(base: Text, b: Text, items: Text, gap: Text, close: Text)
    ensures base + (b + items) + (gap + close) == base + (b + items + (gap + close))
  {
  }

  /** One call of a writer, and the same step of the value it writes. */
  lemma CallShows(style: Style, w: Sheet, p: Progress, e: Event)
    requires Shows(style, w, p) && Accepts(p, e)
    ensures Guarded(w, e) && Shows(style, Write(style, w, e), Advance(p, e))
  {
    hide Shows, Accepts, Guarded, Write, Advance;
    GuardsAgree(style, w, p, e);
    Kinds(p, e);
    if IsEnd(e) {
      EndShows(style, w, p, e);
    } else if e.StartObject? || e.StartArray? {
      StartShows(style, w, p, e);
    } else {
      LeafShows(style, w, p, e);
    }
  }

  lemma Kinds(p: Progress, e: Event)
    requires Accepts(p, e)
    ensures IsEnd(e) || e.StartObject? || e.StartArray? || IsLeaf(e)
  {
  }

  // ---------------------------------------------------------------- runs

  /** The progress of a run of calls; None when some call does not continue a value. */
  function Follow(p: Progress, es: seq<Event>): Option<Progress> {
    if es == [] then Some(p)
    else
      match Follow(p, es[..|es| - 1])
      case None => None
      case Some(q) => if Accepts(q, es[|es| - 1]) then Some(Advance(q, es[|es| - 1])) else None
  }

  /** A writer passes its assertions exactly as long as the calls continue a value, and has written that much of it. */
  lemma {:induction false} RunShows(style: Style, w: Sheet, p: Progress, es: seq<Event>)
    requires Shows(style, w, p)
    ensures Session(style, w, es).Some? <==> Follow(p, es).Some?
    ensures Session(style, w, es).Some? ==> Shows(style, Session(style, w, es).value, Follow(p, es).value)
  {
    hide Shows, Accepts, Guarded, Write, Advance;
    if es != [] {
      var n := |es| - 1;
      RunShows(style, w, p, es[..n]);
      if Session(style, w, es[..n]).Some? {
        var w', p' := Session(style, w, es[..n]).value, Follow(p, es[..n]).value;
        GuardsAgree(style, w', p', es[n]);
        if Accepts(p', es[n]) {
          CallShows(style, w', p', es[n]);
        }
      }
    }
  }

  lemma {:induction false} RunAppend(style: Style, w: Sheet, a: seq<Event>, b: seq<Event>)
    requires Session(style, w, a).Some?
    ensures Session(style, w, a + b) == Session(style, Session(style, w, a).value, b)
  {
    hide Guarded, Write;
    if b == [] {
      assert a + b == a;
    } else {
      assert (a + b)[..|a + b| - 1] == a + b[..|b| - 1];
      RunAppend(style, w, a, b[..|b| - 1]);
    }
  }

  lemma RunOne(style: Style, w: Sheet, e: Event)
    requires Guarded(w, e)
    ensures Session(style, w, [e]) == Some(Write(style, w, e))
  {
    assert [e][..0] == [];
  }

  lemma {:induction false} FollowAppend(p: Progress, a: seq<Event>, b: seq<Event>)
    requires Follow(p, a).Some?
    ensures Follow(p, a + b) == Follow(Follow(p, a).value, b)
  {
    hide Accepts, Advance;
    if b == [] {
      assert a + b == a;
    } else {
      assert (a + b)[..|a + b| - 1] == a + b[..|b| - 1];
      FollowAppend(p, a, b[..|b| - 1]);
    }
  }

  lemma FollowOne(p: Progress, e: Event)
    requires Accepts(p, e)
    ensures Follow(p, [e]) == Some(Advance(p, e))
  {
    assert [e][..0] == [];
  }

  /** The call that closes one container, or gives a waiting name a value. */
  function Closer(p: Progress): Event
    requires !p.Done? && (p.Within? ==> p.frames != [])
  {
    if p.Nothing? then Event.Null
    else
      match p.frames[|p.frames| - 1]
      case OpenArray(_) => EndArray(0)
      case OpenObject(_) => EndObject(0)
      case OpenMember(_, _) => Event.Null
  }

  /** Calls left until the value is whole. */
  function Left(p: Progress): nat
    requires p.Within? ==> p.frames != []
  {
    match p
    case Nothing => 1
    case Done(_) => 0
    case Within(fs) => 2 * |fs| + if fs[|fs| - 1].OpenMember? then 1 else 0
  }

  lemma WritesMore(style: Style, w: Sheet, e: Event)
    requires Guarded(w, e)
    ensures w.out < Write(style, w, e).out
  {
    ChunkText(style, w.levels, e);
    TokenNotEmpty(e);
  }

  lemma TokenNotEmpty(e: Event)
    requires !e.Double?
    ensures TokenOf(e) != []
  {
  }

  /** From every state of the writer some calls finish the value; the output only grows. */
  lemma {:induction false} CanFinish(style: Style, w: Sheet, p: Progress) returns (es: seq<Event>, w': Sheet, v: Value)
    requires Shows(style, w, p) && !p.Done?
    ensures Session(style, w, es) == Some(w') && Shows(style, w', Done(v)) && w.out < w'.out
    decreases Left(p)
  {
    hide Write, Guarded, FramesText, Format, TreeText, LevelsOf, GoodFrames, Printable;
    var e := Closer(p);
    var p1 := Advance(p, e);
    CallShows(style, w, p, e);
    WritesMore(style, w, e);
    RunOne(style, w, e);
    var w1 := Write(style, w, e);
    if p1.Done? {
      es, w', v := [e], w1, p1.v;
    } else {
      var rest;
      rest, w', v := CanFinish(style, w1, p1);
      es := [e] + rest;
      RunAppend(style, w, [e], rest);
    }
  }

  // ---------------------------------------------------------------- the output

  /** An environment that only differs in the text, and in stopping behind the first value. */
  function Reading(env: Env, t: Text): Env {
    Env(t, env.trailingCommas, true, log => true, env.overflows)
  }

  lemma {:induction false} LegalAlike(env: Env, env': Env, c: Tree)
    requires Legal(env, c) && env.trailingCommas == env'.trailingCommas && env.overflows == env'.overflows
    ensures Legal(env', c)
    decreases c
  {
    match c
    case Array(_, es) => LegalElementsAlike(env, env', es);
    case Object(_, ms) => LegalMembersAlike(env, env', ms);
    case _ =>
  }

  lemma {:induction false} LegalElementsAlike(env: Env, env': Env, es: Elements)
    requires LegalElements(env, es) && env.trailingCommas == env'.trailingCommas && env.overflows == env'.overflows
    ensures LegalElements(env', es)
    decreases es
  {
    LegalAlike(env, env', es.value);
    if es.More? {
      LegalElementsAlike(env, env', es.rest);
    }
  }

  lemma {:induction false} LegalMembersAlike(env: Env, env': Env, ms: Members)
    requires LegalMembers(env, ms) && env.trailingCommas == env'.trailingCommas && env.overflows == env'.overflows
    ensures LegalMembers(env', ms)
    decreases ms
  {
    LegalAlike(env, env', ms.value);
    if ms.MoreMembers? {
      LegalMembersAlike(env, env', ms.rest);
    }
  }

  /** A container that stands at the start of a text is parsed to its end, whatever follows. */
  lemma ContainerEnds(env: Env, t: Text, c: Tree)
    requires Legal(env, c) && At(t, 0, TreeText(c)) && !c.Number?
    ensures ParseValue(Reading(env, t), START).result.NoError? && ParseValue(Reading(env, t), START).pos == |TreeText(c)|
  {
    hide ParseValue, TreeText, TreeEvents, Legal;
    LegalAlike(env, Reading(env, t), c);
    ValueComplete(Reading(env, t), START, c);
  }

  /** A text that starts with a bracket starts with at most one container text. */
  lemma OneContainer(env: Env, t: Text, c: Tree, c': Tree)
    requires Legal(env, c) && Legal(env, c') && At(t, 0, TreeText(c)) && At(t, 0, TreeText(c'))
    requires t != [] && t[0] in {LBRACKET, LBRACE}
    ensures |TreeText(c)| == |TreeText(c')|
  {
    NotANumber(env, t, c);
    NotANumber(env, t, c');
    ContainerEnds(env, t, c);
    ContainerEnds(env, t, c');
  }

  lemma NotANumber(env: Env, t: Text, c: Tree)
    requires Legal(env, c) && At(t, 0, TreeText(c)) && t != [] && t[0] in {LBRACKET, LBRACE}
    ensures !c.Number?
  {
    TreeStarts(env, c);
    AtPeek(t, 0, TreeText(c), 0);
    NumberStart(env, c);
  }

  lemma NumberStart(env: Env, c: Tree)
    requires Legal(env, c)
    ensures c.Number? ==> TreeText(c) != [] && TreeText(c)[0] !in {LBRACKET, LBRACE}
  {
    if c.Number? {
      NumeralStarts(c.n);
    }
  }

  lemma StartsWithBracket(style: Style, fs: seq<Open>)
    requires fs != [] && GoodFrames(fs)
    ensures FramesText(style, fs) != [] && FramesText(style, fs)[0] in {LBRACKET, LBRACE}
    decreases fs
  {
    if |fs| > 1 {
      StartsWithBracket(style, fs[..|fs| - 1]);
    }
  }

  lemma LeadingSpace(before: Text, rest: Text)
    requires AllSpace(before)
    ensures before != [] ==> IsSpace((before + rest)[0])
  {
  }

  /** A proper prefix of a container text is not a JSON text. */
  lemma PrefixIsNoText(env: Env, t: Text, whole: Text, c: Tree)
    requires t < whole && t != [] && t[0] in {LBRACKET, LBRACE} && Legal(env, c) && whole == TreeText(c)
    ensures forall c' :: !IsJsonText(env, t, c')
  {
    hide TreeText, Legal;
    forall c' | IsJsonText(env, t, c') ensures false {
      var before, after :| AllSpace(before) && AllSpace(after) && t == before + TreeText(c') + after;
      LeadingSpace(before, TreeText(c') + after);
      assert t == before + (TreeText(c') + after);
      assert t[..|TreeText(c')|] == TreeText(c');
      assert whole[0..|TreeText(c')|] == t[..|TreeText(c')|];
      assert whole[0..|whole|] == whole;
      OneContainer(env, whole, c, c');
    }
  }

  /** The whole output of a finished writer is a JSON text. */
  lemma DoneIsText(env: Env, style: Style, w: Sheet, v: Value)
    requires LegalStyle(style) && Shows(style, w, Done(v))
    ensures IsJsonText(env, w.out, Format(style, 0, v))
  {
    hide Format, TreeText, Legal;
    FormatLegal(env, style, 0, v);
    assert AllSpace([]);
    assert w.out == [] + TreeText(Format(style, 0, v)) + [];
  }

  /**
    After any run of calls that passes the assertions the output is a prefix of a JSON text, and the writer is
    complete if and only if it is one whole JSON text.
   */
  lemma OutputIsPrefixOfText(env: Env, style: Style, es: seq<Event>)
    requires LegalStyle(style) && Session(style, BLANK, es).Some?
    ensures exists t, c :: Session(style, BLANK, es).value.out <= t && IsJsonText(env, t, c)
    ensures Complete(Session(style, BLANK, es).value) <==> exists c :: IsJsonText(env, Session(style, BLANK, es).value.out, c)
  {
    hide Session, Follow, Format, TreeText, Legal, FramesText, IsJsonText, GoodFrames, LevelsOf;
    RunShows(style, BLANK, Nothing, es);
    var w, p := Session(style, BLANK, es).value, Follow(Nothing, es).value;
    if p.Done? {
      DoneIsText(env, style, w, p.v);
    } else {
      var more, w', v := CanFinish(style, w, p);
      DoneIsText(env, style, w', v);
      FormatLegal(env, style, 0, v);
      if p.Nothing? {
        EmptyIsNoText(env);
      } else {
        StartsWithBracket(style, p.frames);
        LevelsNotEmpty(p.frames);
        PrefixIsNoText(env, w.out, w'.out, Format(style, 0, v));
      }
    }
  }

  lemma LevelsNotEmpty(fs: seq<Open>)
    requires fs != []
    ensures LevelsOf(fs) != []
  {
  }

  lemma EmptyIsNoText(env: Env)
    ensures forall c :: !IsJsonText(env, [], c)
  {
    hide TreeText, Legal;
    forall c | IsJsonText(env, [], c) ensures false {
      TreeStarts(env, c);
    }
  }
}
