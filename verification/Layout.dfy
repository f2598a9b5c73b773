/**
  Where the indenting writer puts white space, told from the tokens it has printed alone: the brackets that are open,
  and the token before.
 */
module Layout {
  import opened Bytes
  import opened Events
  import opened Writers
  import opened RoundTrip

  // ---------------------------------------------------------------- what the tokens say

  predicate IsOpening(m: Text) {
    m == [LBRACKET] || m == [LBRACE]
  }

  predicate IsClosing(m: Text) {
    m == [RBRACKET] || m == [RBRACE]
  }

  /** The brackets that are open behind these tokens, outermost first. */
  function OpenBrackets(marks: seq<Text>): seq<Text> {
    if marks == [] then []
    else
      var open, m := OpenBrackets(marks[..|marks| - 1]), marks[|marks| - 1];
      if IsOpening(m) then open + [m]
      else if IsClosing(m) && open != [] then open[..|open| - 1]
      else open
  }

  /** A new line with the given number of levels of indentation. */
  function NewLine(style: Style, levels: nat): Text
    requires style.Pretty?
  {
    [0x0A] + seq(style.indentCount * levels, i => style.indentChar)
  }

  /**
    The white space between the tokens printed so far and the next one. A new line before every name and element, as
    deep as brackets are open, and before the closing bracket of a container that is not empty, one level less; one
    space behind a colon. With arrays on one line: one space behind their commas, and nothing at their brackets.
   */
  function GapExpected(style: Style, marks: seq<Text>, next: Text): Text
    requires style.Pretty?
  {
    var open := OpenBrackets(marks);
    if open == [] || next == [COMMA] || next == [COLON] then []
    else
      var last := marks[|marks| - 1];
      var oneLine := style.singleLineArray && open[|open| - 1] == [LBRACKET];
      if IsClosing(next) then
        if IsOpening(last) || oneLine then [] else NewLine(style, |open| - 1)
      else if last == [COLON] then [0x20]
      else if oneLine then if last == [COMMA] then [0x20] else []
      else NewLine(style, |open|)
  }

  /** The tape with exactly the expected gap before each token. */
  function LaidOut(style: Style, marks: seq<Text>): seq<Scrap>
    requires style.Pretty?
  {
    if marks == [] then []
    else
      var n := |marks| - 1;
      LaidOut(style, marks[..n]) + Spaced(GapExpected(style, marks[..n], marks[n])) + [Mark(marks[n])]
  }

  lemma LaidOutStep(style: Style, marks: seq<Text>, next: Text)
    requires style.Pretty?
    ensures LaidOut(style, marks + [next]) ==
              LaidOut(style, marks) + Spaced(GapExpected(style, marks, next)) + [Mark(next)]
  {
    hide GapExpected;
    assert (marks + [next])[..|marks|] == marks;
  }

  // ---------------------------------------------------------------- levels and open brackets

  function BracketOf(level: Level): Text {
    if level.inArray then [LBRACKET] else [LBRACE]
  }

  function BracketsOf(levels: seq<Level>): seq<Text> {
    seq(|levels|, i requires 0 <= i < |levels| => BracketOf(levels[i]))
  }

  /** The tokens so far and the writer's levels tell the same. */
  predicate Tell(marks: seq<Text>, levels: seq<Level>) {
    && OpenBrackets(marks) == BracketsOf(levels)
    && (forall i | 0 <= i < |levels| - 1 :: levels[i].valueCount > 0)
    && (levels != [] ==> marks != [] && (IsOpening(marks[|marks| - 1]) <==> Top(levels).valueCount == 0))
  }

  lemma OpenStep(marks: seq<Text>, m: Text)
    ensures var open := OpenBrackets(marks);
            OpenBrackets(marks + [m]) ==
            if IsOpening(m) then open + [m] else if IsClosing(m) && open != [] then open[..|open| - 1] else open
  {
    assert (marks + [m])[..|marks|] == marks;
  }

  /** What kind of token an event prints. */
  lemma TokenKinds(e: Event)
    requires !e.Double?
    ensures TokenOf(e) != [COMMA] && TokenOf(e) != [COLON]
    ensures e.StartArray? ==> TokenOf(e) == [LBRACKET]
    ensures e.StartObject? ==> TokenOf(e) == [LBRACE]
    ensures IsEnd(e) <==> IsClosing(TokenOf(e))
    ensures e.StartArray? || e.StartObject? <==> IsOpening(TokenOf(e))
  {
  }

  lemma BreakIsNewLine(style: Style, levels: nat)
    requires style.Pretty?
    ensures Break(style, levels) == NewLine(style, levels)
  {
  }

  // ---------------------------------------------------------------- one call

  /** The gap of a closing bracket. */
  lemma ClosingGapIs(style: Style, levels: seq<Level>, marks: seq<Text>, next: Text)
    requires style.Pretty? && levels != [] && Tell(marks, levels) && IsClosing(next)
    ensures GapExpected(style, marks, next) == ClosingGap(style, Top(levels), |levels| - 1)
  {
    hide OpenBrackets;
    BreakIsNewLine(style, |levels| - 1);
    assert OpenBrackets(marks)[|levels| - 1] == BracketOf(Top(levels));
  }

  /** The gap of an item, behind its comma or colon or the opening bracket. */
  lemma SpacingIs(style: Style, levels: seq<Level>, marks: seq<Text>, next: Text)
    requires style.Pretty? && levels != [] && Tell(marks, levels) && !IsClosing(next)
    requires next != [COMMA] && next != [COLON]
    ensures Top(levels).valueCount == 0 ==> GapExpected(style, marks, next) == Spacing(style, Top(levels), |levels|)
    ensures Top(levels).valueCount > 0 ==>
              var d := DelimiterText(Top(levels));
              && GapExpected(style, marks, d) == []
              && GapExpected(style, marks + [d], next) == Spacing(style, Top(levels), |levels|)
  {
    hide OpenBrackets;
    BreakIsNewLine(style, |levels|);
    OpenStep(marks, DelimiterText(Top(levels)));
    assert OpenBrackets(marks)[|levels| - 1] == BracketOf(Top(levels));
  }

  /** The tokens of one call. */
  function NewMarks(levels: seq<Level>, e: Event): seq<Text>
    requires !e.Double?
  {
    (if levels == [] || IsEnd(e) || Top(levels).valueCount == 0 then [] else [DelimiterText(Top(levels))]) + [TokenOf(e)]
  }

  lemma MarksOf(style: Style, levels: seq<Level>, e: Event)
    requires !e.Double? && (IsEnd(e) ==> levels != [])
    ensures Marks(Chunk(style, levels, e)) == NewMarks(levels, e)
  {
    hide TokenOf, Spacing, ClosingGap, Chunk, Marks;
    ChunkMarks(style, levels, e);
    if levels != [] {
      DelimiterMarks(Top(levels));
    }
  }

  lemma DelimiterMarks(level: Level)
    ensures Marks(Delimiter(level)) == if level.valueCount == 0 then [] else [DelimiterText(level)]
  {
    if level.valueCount > 0 {
      assert Delimiter(level)[..0] == [];
    }
  }

  /** What a call appends is laid out as its tokens demand. */
  lemma ChunkLaidOut(style: Style, levels: seq<Level>, marks: seq<Text>, e: Event)
    requires style.Pretty? && !e.Double? && (IsEnd(e) ==> levels != []) && Tell(marks, levels)
    ensures LaidOut(style, marks + NewMarks(levels, e)) == LaidOut(style, marks) + Chunk(style, levels, e)
  {
    hide TokenOf, Spacing, ClosingGap, GapExpected, LaidOut, Tell, IsClosing;
    var token := TokenOf(e);
    TokenKinds(e);
    if levels == [] {
      NoneOpen(style, marks, levels, token);
      LaidOutOne(style, marks, token, []);
      assert NewMarks(levels, e) == [token] && Chunk(style, levels, e) == [Mark(token)] == Spaced([]) + [Mark(token)];
    } else if IsEnd(e) {
      var gap := ClosingGap(style, Top(levels), |levels| - 1);
      ClosingGapIs(style, levels, marks, token);
      LaidOutOne(style, marks, token, gap);
      assert NewMarks(levels, e) == [token] && Chunk(style, levels, e) == Spaced(gap) + [Mark(token)];
    } else {
      var gap := Spacing(style, Top(levels), |levels|);
      SpacingIs(style, levels, marks, token);
      if Top(levels).valueCount == 0 {
        LaidOutOne(style, marks, token, gap);
        assert [] + Spaced(gap) == Spaced(gap);
        assert NewMarks(levels, e) == [token] && Chunk(style, levels, e) == Spaced(gap) + [Mark(token)];
      } else {
        var d := DelimiterText(Top(levels));
        LaidOutOne(style, marks, d, []);
        LaidOutOne(style, marks + [d], token, gap);
        assert NewMarks(levels, e) == [d, token] && marks + [d] + [token] == marks + [d, token];
        assert Spaced([]) + [Mark(d)] == [Mark(d)];
        assert Chunk(style, levels, e) == [Mark(d)] + Spaced(gap) + [Mark(token)];
        Regrouped(LaidOut(style, marks), [Mark(d)], Spaced(gap), [Mark(token)]);
      }
    }
  }

  lemma LaidOutOne(style: Style, marks: seq<Text>, next: Text, gap: Text)
    requires style.Pretty? && GapExpected(style, marks, next) == gap
    ensures LaidOut(style, marks + [next]) == LaidOut(style, marks) + (Spaced(gap) + [Mark(next)])
  {
    hide GapExpected;
    LaidOutStep(style, marks, next);
  }

  lemma Regrouped<T>(a: seq<T>, b: seq<T>, c: seq<T>, d: seq<T>)
    ensures (a + b) + (c + d) == a + (b + c + d)
  {
  }

  lemma NoneOpen(style: Style, marks: seq<Text>, levels: seq<Level>, next: Text)
    requires style.Pretty? && levels == [] && Tell(marks, levels)
    ensures GapExpected(style, marks, next) == []
  {
  }

  /** A comma or colon opens and closes nothing. */
  lemma DelimiterTells(marks: seq<Text>, levels: seq<Level>)
    requires levels != [] && Top(levels).valueCount > 0
    ensures OpenBrackets(marks + [DelimiterText(Top(levels))]) == OpenBrackets(marks)
  {
    hide OpenBrackets;
    OpenStep(marks, DelimiterText(Top(levels)));
  }

  lemma EndTells(levels: seq<Level>, marks: seq<Text>, m: Text)
    requires Tell(marks, levels) && levels != [] && IsClosing(m)
    ensures Tell(marks + [m], levels[..|levels| - 1])
  {
    hide OpenBrackets;
    OpenStep(marks, m);
    assert BracketsOf(levels[..|levels| - 1]) == BracketsOf(levels)[..|levels| - 1];
  }

  /** A token inside some containers, behind their comma or colon if need be. */
  lemma LeafTells(levels: seq<Level>, before: seq<Text>, m: Text)
    requires OpenBrackets(before) == BracketsOf(levels) && (forall i | 0 <= i < |levels| - 1 :: levels[i].valueCount > 0)
    requires !IsClosing(m) && !IsOpening(m)
    ensures Tell(before + [m], Counted(levels))
  {
    hide OpenBrackets;
    OpenStep(before, m);
    assert BracketsOf(Counted(levels)) == BracketsOf(levels);
  }

  lemma StartTells(levels: seq<Level>, before: seq<Text>, m: Text, inArray: bool)
    requires OpenBrackets(before) == BracketsOf(levels) && (forall i | 0 <= i < |levels| - 1 :: levels[i].valueCount > 0)
    requires m == BracketOf(Level(0, inArray))
    ensures Tell(before + [m], Counted(levels) + [Level(0, inArray)])
  {
    hide OpenBrackets;
    OpenStep(before, m);
    assert BracketsOf(Counted(levels)) == BracketsOf(levels);
    assert BracketsOf(Counted(levels) + [Level(0, inArray)]) == BracketsOf(levels) + [m];
  }

  /** After a call tokens and levels tell the same again. */
  lemma CallTells(levels: seq<Level>, marks: seq<Text>, e: Event)
    requires !e.Double? && (IsEnd(e) ==> levels != []) && Tell(marks, levels)
    ensures Tell(marks + NewMarks(levels, e), LevelsAfter(levels, e))
  {
    hide TokenOf, OpenBrackets, IsClosing, IsOpening, Counted, BracketsOf;
    var token := TokenOf(e);
    TokenKinds(e);
    if IsEnd(e) {
      EndTells(levels, marks, token);
      assert NewMarks(levels, e) == [token];
    } else {
      var before := marks;
      if levels != [] && Top(levels).valueCount > 0 {
        DelimiterTells(marks, levels);
        before := marks + [DelimiterText(Top(levels))];
      }
      assert marks + NewMarks(levels, e) == before + [token];
      if e.StartArray? || e.StartObject? {
        StartTells(levels, before, token, e.StartArray?);
      } else {
        LeafTells(levels, before, token);
      }
    }
  }

  // ---------------------------------------------------------------- runs

  /** For every run of calls the tape of the indenting writer is the one that its tokens determine. */
  lemma {:induction false} TapeLaidOut(style: Style, es: seq<Event>)
    requires style.Pretty? && Session(style, BLANK, es).Some?
    ensures var tape := Tape(style, BLANK, es);
            tape == LaidOut(style, Marks(tape)) && Tell(Marks(tape), Session(style, BLANK, es).value.levels)
  {
    hide Chunk, Marks, LaidOut, Tell, LevelsAfter, NewMarks;
    if es == [] {
      NothingLaidOut(style);
    } else {
      var n := |es| - 1;
      var w := Session(style, BLANK, es[..n]).value;
      var before := Tape(style, BLANK, es[..n]);
      TapeLaidOut(style, es[..n]);
      MarksOf(style, w.levels, es[n]);
      MarksAppend(before, Chunk(style, w.levels, es[n]));
      ChunkLaidOut(style, w.levels, Marks(before), es[n]);
      CallTells(w.levels, Marks(before), es[n]);
    }
  }

  lemma NothingLaidOut(style: Style)
    requires style.Pretty?
    ensures Marks([]) == [] && LaidOut(style, []) == [] && Tell([], [])
  {
  }

  /** The output itself: a function of the tokens printed, whatever calls printed them. */
  lemma OutputLaidOut(style: Style, es: seq<Event>)
    requires style.Pretty? && Session(style, BLANK, es).Some?
    ensures Session(style, BLANK, es).value.out == Flatten(LaidOut(style, Marks(Tape(style, BLANK, es))))
  {
    hide Flatten, Session, Tape, LaidOut, Marks;
    TapeLaidOut(style, es);
    TapeIsOutput(style, BLANK, es);
    assert [] + Flatten(Tape(style, BLANK, es)) == Flatten(Tape(style, BLANK, es));
  }
}
