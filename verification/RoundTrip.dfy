/**
  Value, events, text, events, value: writing a value without doubles in either style and parsing the text gives
  the same value. And the two writers print the same tokens.
 */
module RoundTrip {
  import opened Bytes
  import opened Strings
  import opened Events
  import opened Numbers
  import opened Grammar
  import opened Values
  import opened Writers
  import opened Printing
  import opened WriterRuns
  import opened RecursiveParser
  import opened IterativeParser
  import opened Simulation
  import opened GrammarAccepted
  import opened Language
  import opened Documents

  // ---------------------------------------------------------------- replaying into a writer

  /** A value may come next: not where a name is expected. */
  predicate TakesValue(p: Progress) {
    match p
    case Nothing => true
    case Done(_) => false
    case Within(fs) => fs != [] && !fs[|fs| - 1].OpenObject?
  }

  function FramesOf(p: Progress): seq<Open> {
    if p.Within? then p.frames else []
  }

  /** Replaying a value continues the value being written by exactly that item. */
  lemma {:induction false} ReplayFollows(p: Progress, v: Value)
    requires TakesValue(p) && Valid(v) && DoubleFree(v)
    ensures Follow(p, Replay(v)) == Some(Put(p, v))
    decreases v
  {
    match v
    case ArrayValue(es) =>
      ElementsFollow(FramesOf(p), [], es);
      assert [] + es == es;
      ContainerFollows(p, StartArray, ReplayElements(es), OpenArray(es), EndArray(|es|));
    case ObjectValue(ms) =>
      MembersFollow(FramesOf(p), [], ms);
      assert [] + ms == ms;
      ContainerFollows(p, StartObject, ReplayMembers(ms), OpenObject(ms), EndObject(|ms|));
    case NumberValue(n) =>
      NumberReplays(n);
      FollowOne(p, NumberEvent(n));
    case _ =>
      FollowOne(p, Replay(v)[0]);
  }

  lemma ContainerFollows(p: Progress, open: Event, inner: seq<Event>, f: Open, close: Event)
    requires TakesValue(p) && (if f.OpenArray? then open.StartArray? && close.EndArray?
                               else f.OpenObject? && open.StartObject? && close.EndObject?)
    requires Follow(Within(FramesOf(p) + [if f.OpenArray? then OpenArray([]) else OpenObject([])]), inner) ==
               Some(Within(FramesOf(p) + [f]))
    ensures Follow(p, [open] + inner + [close]) == Some(Put(p, Printing.Closed(f)))
  {
    hide Follow;
    var p1, p2 := Advance(p, open), Within(FramesOf(p) + [f]);
    FollowOne(p, open);
    FollowAppend(p, [open], inner);
    FollowAppend(p, [open] + inner, [close]);
    FollowOne(p2, close);
    assert p2.frames[..|p2.frames| - 1] == FramesOf(p);
  }

  lemma {:induction false} ElementsFollow(fs: seq<Open>, done: seq<Value>, es: seq<Value>)
    requires ValidElements(es) && forall k | 0 <= k < |es| :: DoubleFree(es[k])
    ensures Follow(Within(fs + [OpenArray(done)]), ReplayElements(es)) == Some(Within(fs + [OpenArray(done + es)]))
    decreases es
  {
    hide Valid, DoubleFree, Replay, Follow;
    if es == [] {
      FollowNone(Within(fs + [OpenArray(done)]));
      assert done + es == done;
    } else {
      var n := |es| - 1;
      var p := Within(fs + [OpenArray(done)]);
      ElementsFollow(fs, done, es[..n]);
      var q := Within(fs + [OpenArray(done + es[..n])]);
      FollowAppend(p, ReplayElements(es[..n]), Replay(es[n]));
      ReplayFollows(q, es[n]);
      assert q.frames[..|fs|] == fs;
      assert done + es[..n] + [es[n]] == done + es;
    }
  }

  lemma FollowNone(p: Progress)
    ensures Follow(p, []) == Some(p)
  {
  }

  lemma {:induction false} MemberFollows(fs: seq<Open>, done: seq<Member>, m: Member)
    requires m.name.StringValue? && Valid(m.value) && DoubleFree(m.value)
    ensures Follow(Within(fs + [OpenObject(done)]), ReplayMember(m)) == Some(Within(fs + [OpenObject(done + [m])]))
    decreases m
  {
    hide Valid, DoubleFree, Replay, Follow;
    var p, q := Within(fs + [OpenObject(done)]), Within(fs + [OpenMember(done, m.name)]);
    var key := Key(m.name.s);
    FollowOne(p, key);
    FollowAppend(p, [key], Replay(m.value));
    assert p.frames[..|fs|] == fs && q.frames[..|fs|] == fs;
    ReplayFollows(q, m.value);
    assert Member(m.name, m.value) == m;
  }

  lemma {:induction false} MembersFollow(fs: seq<Open>, done: seq<Member>, ms: seq<Member>)
    requires ValidMembers(ms) && forall k | 0 <= k < |ms| :: DoubleFree(ms[k].value)
    ensures Follow(Within(fs + [OpenObject(done)]), ReplayMembers(ms)) == Some(Within(fs + [OpenObject(done + ms)]))
    decreases ms
  {
    hide Valid, DoubleFree, ReplayMember, Follow;
    if ms == [] {
      FollowNone(Within(fs + [OpenObject(done)]));
      assert done + ms == done;
    } else {
      var n := |ms| - 1;
      var p := Within(fs + [OpenObject(done)]);
      MembersFollow(fs, done, ms[..n]);
      FollowAppend(p, ReplayMembers(ms[..n]), ReplayMember(ms[n]));
      MemberFollows(fs, done + ms[..n], ms[n]);
      assert done + ms[..n] + [ms[n]] == done + ms;
    }
  }

  // ---------------------------------------------------------------- reading the printed tree

  lemma {:induction false} ValidIsPrintable(v: Value)
    requires Valid(v) && DoubleFree(v)
    ensures Printable(v)
    decreases v
  {
    match v
    case ArrayValue(es) =>
      forall k | 0 <= k < |es| ensures Printable(es[k]) {
        ValidIsPrintable(es[k]);
      }
    case ObjectValue(ms) =>
      forall k | 0 <= k < |ms| ensures Printable(ms[k].value) {
        ValidIsPrintable(ms[k].value);
      }
    case _ =>
  }

  /** The tree a value is printed as denotes that value. */
  lemma {:induction false} TreeDenotes(env: Env, style: Style, depth: nat, v: Value)
    requires LegalStyle(style) && Printable(v)
    ensures Legal(env, Format(style, depth, v)) && TreeValue(env, Format(style, depth, v)) == v
    decreases v
  {
    FormatLegal(env, style, depth, v);
    match v
    case StringValue(s) => PiecesOfString(s);
    case NumberValue(n) =>
      IntegerReadsBack(IntegerOf(n));
      EventStored(NumeralEvent(IntegerNumeral(IntegerOf(n))));
    case ArrayValue(es) => if es != [] { ElementsDenote(env, style, depth + 1, es); }
    case ObjectValue(ms) => if ms != [] { MembersDenote(env, style, depth + 1, ms); }
    case _ =>
  }

  lemma {:induction false} ElementsDenote(env: Env, style: Style, depth: nat, es: seq<Value>)
    requires LegalStyle(style) && depth > 0 && es != [] && PrintableElements(es)
    ensures LegalElements(env, FormatElements(style, depth, es))
    ensures ElementValues(env, FormatElements(style, depth, es)) == es
    decreases es
  {
    FormatElementsLegal(env, style, depth, es);
    hide Legal, Format, TreeValue, Printable;
    TreeDenotes(env, style, depth, es[0]);
    if |es| > 1 {
      ElementsDenote(env, style, depth, es[1..]);
    }
  }

  lemma {:induction false} MemberDenotes(env: Env, style: Style, depth: nat, m: Member)
    requires LegalStyle(style) && PrintableMember(m)
    ensures Legal(env, FormatMember(style, depth, m)) && TreeValue(env, FormatMember(style, depth, m)) == m.value
    ensures LegalPieces(PiecesOf(m.name.s)) && PiecesValue(NameOf(style, m, depth).pieces) == m.name.s
    decreases m
  {
    TreeDenotes(env, style, depth, m.value);
    PiecesOfString(m.name.s);
  }

  lemma {:induction false} MembersDenote(env: Env, style: Style, depth: nat, ms: seq<Member>)
    requires LegalStyle(style) && depth > 0 && ms != [] && PrintableMembers(ms)
    ensures LegalMembers(env, FormatMembers(style, depth, ms))
    ensures MemberValues(env, FormatMembers(style, depth, ms)) == ms
    decreases ms
  {
    hide Legal, FormatMember, TreeValue, Printable, PiecesValue, LegalPieces, FormatMembers, MemberValues, LegalMembers;
    FormatMembersLegal(env, style, depth, ms);
    MemberDenotes(env, style, depth, ms[0]);
    FirstMemberDenotes(env, style, depth, ms);
    if |ms| > 1 {
      MembersDenote(env, style, depth, ms[1..]);
      assert ms == [ms[0]] + ms[1..];
    }
  }

  lemma FirstMemberDenotes(env: Env, style: Style, depth: nat, ms: seq<Member>)
    requires LegalStyle(style) && depth > 0 && ms != [] && PrintableMembers(ms)
    requires LegalMembers(env, FormatMembers(style, depth, ms))
    requires Legal(env, FormatMember(style, depth, ms[0])) && LegalPieces(PiecesOf(ms[0].name.s))
    requires TreeValue(env, FormatMember(style, depth, ms[0])) == ms[0].value
    requires PiecesValue(NameOf(style, ms[0], depth).pieces) == ms[0].name.s
    ensures |ms| == 1 ==> MemberValues(env, FormatMembers(style, depth, ms)) == ms
    ensures |ms| > 1 ==>
              && LegalMembers(env, FormatMembers(style, depth, ms[1..]))
              && MemberValues(env, FormatMembers(style, depth, ms)) ==
                   [ms[0]] + MemberValues(env, FormatMembers(style, depth, ms[1..]))
  {
    hide Legal, FormatMember, TreeValue, Printable, PiecesValue, LegalPieces;
    assert Member(StringValue(ms[0].name.s), ms[0].value) == ms[0];
  }

  /** The containers of the tree can be counted in 32 bits exactly when those of the value can. */
  lemma {:induction false} FormatCountable(style: Style, depth: nat, v: Value)
    requires Printable(v)
    ensures Countable(Format(style, depth, v)) <==> Valid(v)
    decreases v
  {
    match v
    case ArrayValue(es) => if es != [] { ElementsCountable(style, depth + 1, es); }
    case ObjectValue(ms) => if ms != [] { MembersCountable(style, depth + 1, ms); }
    case _ =>
  }

  lemma {:induction false} ElementsCountable(style: Style, depth: nat, es: seq<Value>)
    requires depth > 0 && es != [] && PrintableElements(es)
    ensures CountElements(FormatElements(style, depth, es)) == |es|
    ensures CountableElements(FormatElements(style, depth, es)) <==> ValidElements(es)
    decreases es
  {
    hide Format, Countable, Valid, Printable;
    FormatCountable(style, depth, es[0]);
    if |es| > 1 {
      ElementsCountable(style, depth, es[1..]);
      assert es == [es[0]] + es[1..];
    }
  }

  lemma {:induction false} MemberCountable(style: Style, depth: nat, m: Member)
    requires PrintableMember(m)
    ensures Countable(FormatMember(style, depth, m)) <==> Valid(m.value)
    decreases m
  {
    FormatCountable(style, depth, m.value);
  }

  lemma {:induction false} MembersCountable(style: Style, depth: nat, ms: seq<Member>)
    requires depth > 0 && ms != [] && PrintableMembers(ms)
    ensures CountMembers(FormatMembers(style, depth, ms)) == |ms|
    ensures CountableMembers(FormatMembers(style, depth, ms)) <==> ValidMembers(ms)
    decreases ms
  {
    hide FormatMember, Countable, Valid, Printable;
    MemberCountable(style, depth, ms[0]);
    if |ms| > 1 {
      MembersCountable(style, depth, ms[1..]);
      assert ms == [ms[0]] + ms[1..];
    }
  }

  // ---------------------------------------------------------------- the round trip

  /** Replaying a whole value into a fresh writer passes every assertion and prints the value's tree. */
  lemma WritingPrints(style: Style, v: Value)
    requires LegalStyle(style) && Valid(v) && DoubleFree(v)
    ensures Printable(v)
    ensures Session(style, BLANK, Replay(v)) == Some(Sheet(TreeText(Format(style, 0, v)), [], true))
  {
    hide Session, Follow, Format, TreeText, Valid, DoubleFree, Printable;
    ValidIsPrintable(v);
    ReplayFollows(Nothing, v);
    RunShows(style, BLANK, Nothing, Replay(v));
  }

  /** The value a run of calls has written when it leaves no container and no name open. */
  function Written(es: seq<Event>): Option<Value> {
    match Follow(Nothing, es)
    case Some(Done(v)) => Some(v)
    case _ => None
  }

  lemma CompleteIsDone(style: Style, w: Sheet, p: Progress)
    requires Shows(style, w, p)
    ensures Complete(w) <==> p.Done?
  {
    hide FramesText, Format, TreeText, Printable, GoodFrames, LevelsOf;
    if p.Within? {
      LevelsNotEmpty(p.frames);
    }
  }

  /** All three drivers accept the printed tree of a value and build it, unless some count wraps. */
  lemma PrintedReadsBack(env: Env, style: Style, v: Value)
    requires LegalStyle(style) && Printable(v) && AcceptsAll(env) && env.text == TreeText(Format(style, 0, v))
    ensures Parse(env).result.NoError? && IterativeParse(env).result.NoError? && ParseByTokens(env).result.NoError?
    ensures Parse(env).log == IterativeParse(env).log == ParseByTokens(env).log
    ensures Build([], Parse(env).log).Some?
    ensures Build([], Parse(env).log) == Some([v]) <==> Valid(v)
  {
    hide *;
    var c := Format(style, 0, v);
    TreeDenotes(env, style, 0, v);
    FormatCountable(style, 0, v);
    NoExcessIffCountable(c);
    TreeBuilds(env, [], c);
    Alone(Build([], TreeEvents(env, c)), Excess(c), v);
    Bare(env, c);
    EveryTreeAccepted(env, [], c, []);
    ParsersAgree(env);
    TokenParserAgrees(env);
  }

  lemma Alone(built: Option<seq<Value>>, excess: nat, v: Value)
    requires Grown([], built, 1, excess, [v])
    ensures built.Some? && (built == Some([v]) <==> excess == 0)
  {
    assert [] + [v] == [v];
  }

  lemma Bare(env: Env, c: Tree)
    requires Legal(env, c) && env.text == TreeText(c)
    ensures Accepted(env, [], c, [])
  {
    hide TreeText, Legal;
    assert env.text == [] + (TreeText(c) + []);
    EndsAny(c, NUL);
  }

  /**
    Every run of calls that passes the assertions and leaves the writer complete has written some value, which does
    not depend on the style; the output of either writer is parsed by any of the three drivers to exactly that value,
    if and only if its containers can be counted in 32 bits, as those of every value in memory can.
   */
  lemma CompleteRunReadsBack(env: Env, style: Style, es: seq<Event>)
    requires LegalStyle(style) && AcceptsAll(env) && Session(style, BLANK, es).Some?
    requires env.text == Session(style, BLANK, es).value.out
    ensures Complete(Session(style, BLANK, es).value) <==> Written(es).Some?
    ensures Written(es).Some? ==>
              && Parse(env).result.NoError? && IterativeParse(env).result.NoError? && ParseByTokens(env).result.NoError?
              && Parse(env).log == IterativeParse(env).log == ParseByTokens(env).log
              && Build([], Parse(env).log).Some?
              && (Build([], Parse(env).log) == Some([Written(es).value]) <==> Valid(Written(es).value))
  {
    hide Session, Follow, Format, TreeText, Build, Parse, IterativeParse, ParseByTokens, Valid, Printable, Complete,
         FramesText, GoodFrames, LevelsOf;
    RunShows(style, BLANK, Nothing, es);
    var w, p := Session(style, BLANK, es).value, Follow(Nothing, es).value;
    CompleteIsDone(style, w, p);
    if p.Done? {
      PrintedReadsBack(env, style, p.v);
    }
  }

  /**
    Any valid value without doubles, written in any style and parsed with any flags by any of the three drivers,
    comes back as the same value: order of members, type flags of integers, and bytes of strings.
   */
  lemma WriteThenRead(env: Env, style: Style, v: Value)
    requires LegalStyle(style) && Valid(v) && DoubleFree(v) && AcceptsAll(env)
    requires Session(style, BLANK, Replay(v)).Some? && env.text == Session(style, BLANK, Replay(v)).value.out
    ensures Parse(env).result.NoError? && Build([], Parse(env).log) == Some([v])
    ensures IterativeParse(env).result.NoError? && Build([], IterativeParse(env).log) == Some([v])
    ensures ParseByTokens(env).result.NoError? && Build([], ParseByTokens(env).log) == Some([v])
  {
    hide *;
    WritingPrints(style, v);
    PrintedReadsBack(env, style, v);
  }

  // ---------------------------------------------------------------- the two writers

  /** Everything written during a run, as tokens and gaps. */
  function Tape(style: Style, w: Sheet, es: seq<Event>): seq<Scrap>
    requires Session(style, w, es).Some?
  {
    if es == [] then []
    else
      var n := |es| - 1;
      Tape(style, w, es[..n]) + Chunk(style, Session(style, w, es[..n]).value.levels, es[n])
  }

  lemma {:induction false} TapeIsOutput(style: Style, w: Sheet, es: seq<Event>)
    requires Session(style, w, es).Some?
    ensures Session(style, w, es).value.out == w.out + Flatten(Tape(style, w, es))
  {
    hide Chunk, Flatten;
    if es == [] {
      EmptyTape();
      assert w.out + [] == w.out;
    } else {
      var n := |es| - 1;
      var chunk := Chunk(style, Session(style, w, es[..n]).value.levels, es[n]);
      TapeIsOutput(style, w, es[..n]);
      FlattenAppend(Tape(style, w, es[..n]), chunk);
      ThreeParts(w.out, Flatten(Tape(style, w, es[..n])), Flatten(chunk));
    }
  }

  lemma EmptyTape()
    ensures Flatten([]) == [] && Marks([]) == []
  {
  }

  predicate GapsAreWhite(tape: seq<Scrap>) {
    forall k | 0 <= k < |tape| :: tape[k].Gap? ==> AllSpace(tape[k].t)
  }

  predicate HasNoGaps(tape: seq<Scrap>) {
    forall k | 0 <= k < |tape| :: tape[k].Mark?
  }

  lemma ChunksAlike(style: Style, style': Style, levels: seq<Level>, e: Event)
    requires !e.Double? && (IsEnd(e) ==> levels != []) && LegalStyle(style)
    ensures Marks(Chunk(style, levels, e)) == Marks(Chunk(style', levels, e))
    ensures GapsAreWhite(Chunk(style, levels, e)) && (style.Compact? ==> HasNoGaps(Chunk(style, levels, e)))
  {
    hide *;
    ChunkMarks(style, levels, e);
    ChunkMarks(style', levels, e);
    ChunkGaps(style, levels, e);
  }

  lemma ChunkGaps(style: Style, levels: seq<Level>, e: Event)
    requires !e.Double? && (IsEnd(e) ==> levels != []) && LegalStyle(style)
    ensures GapsAreWhite(Chunk(style, levels, e)) && (style.Compact? ==> HasNoGaps(Chunk(style, levels, e)))
  {
    hide TokenOf, Spacing, ClosingGap, Delimiter, GapsAreWhite, HasNoGaps;
    if levels == [] {
      OneGap([], [], TokenOf(e));
      assert [] + Spaced([]) + [Mark(TokenOf(e))] == [Mark(TokenOf(e))];
    } else {
      var delimiter := if IsEnd(e) then [] else Delimiter(Top(levels));
      var gap :=
        if IsEnd(e) then ClosingGap(style, Top(levels), |levels| - 1) else Spacing(style, Top(levels), |levels|);
      DelimiterIsMark(Top(levels));
      GapsAreSpace(style, Top(levels), |levels|);
      GapsAreSpace(style, Top(levels), |levels| - 1);
      CompactHasNoGaps(levels);
      OneGap(delimiter, gap, TokenOf(e));
      assert [] + Spaced(gap) == Spaced(gap);
    }
  }

  lemma DelimiterIsMark(level: Level)
    ensures HasNoGaps([]) && HasNoGaps(Delimiter(level))
  {
  }

  lemma OneGap(delimiter: seq<Scrap>, gap: Text, token: Text)
    requires HasNoGaps(delimiter) && AllSpace(gap)
    ensures GapsAreWhite(delimiter + Spaced(gap) + [Mark(token)])
    ensures gap == [] ==> HasNoGaps(delimiter + Spaced(gap) + [Mark(token)])
  {
  }

  lemma CompactHasNoGaps(levels: seq<Level>)
    ensures levels != [] ==>
              Spacing(Compact, Top(levels), |levels|) == [] && ClosingGap(Compact, Top(levels), |levels| - 1) == []
  {
  }

  lemma ChunkMarks(style: Style, levels: seq<Level>, e: Event)
    requires !e.Double? && (IsEnd(e) ==> levels != [])
    ensures Marks(Chunk(style, levels, e)) ==
              if levels == [] || IsEnd(e) then [TokenOf(e)] else Marks(Delimiter(Top(levels))) + [TokenOf(e)]
  {
    hide Marks, TokenOf, Spacing, ClosingGap, Delimiter;
    var token := Mark(TokenOf(e));
    OneScrap(token);
    if levels != [] {
      if IsEnd(e) {
        var gap := ClosingGap(style, Top(levels), |levels| - 1);
        SpacedText(gap);
        MarksAppend(Spaced(gap), [token]);
        assert [] + [TokenOf(e)] == [TokenOf(e)];
      } else {
        var gap := Spacing(style, Top(levels), |levels|);
        SpacedText(gap);
        MarksAppend(Delimiter(Top(levels)), Spaced(gap));
        MarksAppend(Delimiter(Top(levels)) + Spaced(gap), [token]);
        assert Marks(Delimiter(Top(levels))) + [] == Marks(Delimiter(Top(levels)));
      }
    }
  }

  /**
    For every run of calls both writers pass the same assertions and print the same tokens in the same order; the
    indenting one adds white space between tokens, and the compact one adds nothing.
   */
  lemma {:induction false} WritersPrintTheSameTokens(style: Style, es: seq<Event>)
    requires LegalStyle(style)
    ensures Session(style, BLANK, es).Some? <==> Session(Compact, BLANK, es).Some?
    ensures Session(style, BLANK, es).Some? ==>
              && Session(style, BLANK, es).value.(out := []) == Session(Compact, BLANK, es).value.(out := [])
              && Marks(Tape(style, BLANK, es)) == Marks(Tape(Compact, BLANK, es))
              && GapsAreWhite(Tape(style, BLANK, es)) && HasNoGaps(Tape(Compact, BLANK, es))
  {
    hide Marks, Chunk, Flatten, LevelsAfter;
    if es != [] {
      var n := |es| - 1;
      WritersPrintTheSameTokens(style, es[..n]);
      if Session(style, BLANK, es[..n]).Some? {
        var w, w0 := Session(style, BLANK, es[..n]).value, Session(Compact, BLANK, es[..n]).value;
        SameFields(w, w0);
        GuardedAlike(w, w0, es[n]);
        if Guarded(w, es[n]) {
          ChunksAlike(style, Compact, w.levels, es[n]);
          ChunksAlike(Compact, style, w.levels, es[n]);
          MarksAppend(Tape(style, BLANK, es[..n]), Chunk(style, w.levels, es[n]));
          MarksAppend(Tape(Compact, BLANK, es[..n]), Chunk(Compact, w.levels, es[n]));
        }
      }
    }
  }

  lemma SameFields(w: Sheet, w0: Sheet)
    requires w.(out := []) == w0.(out := [])
    ensures w.levels == w0.levels && w.hasRoot == w0.hasRoot
  {
  }

  lemma GuardedAlike(w: Sheet, w0: Sheet, e: Event)
    requires w.levels == w0.levels && w.hasRoot == w0.hasRoot
    ensures Guarded(w, e) <==> Guarded(w0, e)
  {
  }
}
