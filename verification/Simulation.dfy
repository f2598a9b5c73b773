/**
  The table-driven parser simulates recursive descent: on every text, with either flag and against every
  handler, both accept or both reject, both send the same events, and both report the same error but for one case.
 */
module Simulation {
  import opened Bytes
  import opened Strings
  import opened Events
  import opened Numbers
  import opened RecursiveParser
  import opened IterativeParser

  /** Equal verdicts and event logs, and equal stream positions on success. */
  predicate SameOutcome(a: Run, b: Run) {
    && a.log == b.log
    && (a.result.NoError? <==> b.result.NoError?)
    && (a.result.NoError? ==> a.pos == b.pos)
  }

  predicate IsBracket(e: Event) {
    e.StartObject? || e.EndObject? || e.StartArray? || e.EndArray?
  }

  function BracketOf(e: Event): byte
    requires IsBracket(e)
  {
    if e.StartObject? then LBRACE else if e.EndObject? then RBRACE else if e.StartArray? then LBRACKET else RBRACKET
  }

  /** The last event sent is that of a bracket, and the handler stopped the parse there. */
  predicate StoppedAtBracket(r: Run) {
    r.result.Error? && r.result.code.Termination? && r.log != [] && IsBracket(r.log[|r.log| - 1])
  }

  /**
    The events are the same, and so is the error at its offset. When the handler stops the parse at a bracket, the
    table-driven parser reports the bracket, and recursive descent mostly the position behind it.
   */
  predicate SameError(env: Env, a: Run, b: Run) {
    && a.result.Error? && b.result.Error? && a.log == b.log && a.result.code == b.result.code
    && var o, o' := a.result.offset, b.result.offset;
       if StoppedAtBracket(a) then Peek(env.text, o) == BracketOf(a.log[|a.log| - 1]) && o' - 1 <= o <= o' else o == o'
  }

  /** From m the loop either fails like m', having sent its events, or goes on as it does from m'. */
  ghost predicate Reaches(env: Env, m: Machine, m': Machine)
    requires Sane(env, m)
  {
    if m'.run.result.Error? then
      SameError(env, RunLoop(env, m), m'.run)
    else Sane(env, m') && RunLoop(env, m) == Continue(env, m')
  }

  /** One transition that succeeds. */
  lemma Step(env: Env, m: Machine, m': Machine)
    requires Sane(env, m) && See(env, m.run) != NUL
    requires m' == Transit(env, m, Predicted(env, m)) && !m'.state.ErrorState?
    ensures Sane(env, m') && RunLoop(env, m) == Continue(env, m')
  {
  }

  /** Inside a container the loop goes on at the next token. */
  lemma Onward(env: Env, m: Machine)
    requires Sane(env, m) && !m.state.Finish?
    ensures Sane(env, m.(run := Skip(env, m.run))) && Continue(env, m) == RunLoop(env, m.(run := Skip(env, m.run)))
  {
  }

  /** No transition, or one that reports an error: the loop ends with the events sent by then. */
  lemma Stuck(env: Env, m: Machine)
    requires Sane(env, m) && !m.state.Finish?
    requires See(env, m.run) != NUL ==> Transit(env, m, Predicted(env, m)).state.ErrorState?
    ensures RunLoop(env, m) ==
              if See(env, m.run) == NUL then HandleError(m)
              else HandleError(m.(run := Transit(env, m, Predicted(env, m)).run))
  {
  }

  /** A byte that starts no value is refused by recursive descent before any event. */
  lemma NoValue(env: Env, r: Run)
    requires Ready(env, r) && See(env, r) in {NUL, COMMA, COLON, RBRACKET, RBRACE}
    ensures ParseValue(env, r) == Fail(r, ValueInvalid, r.pos)
  {
    assert Peek(env.text, r.pos) != MINUS;
    assert ScanInt(env.text, r.pos).Bad?;
  }

  function OpenEvent(dst: State): Event {
    if dst.ObjectInitial? then StartObject else StartArray
  }

  lemma OpenPredicted(env: Env, m: Machine, dst: State)
    requires Sane(env, m) && ExpectsValue(m.state)
    requires (dst.ObjectInitial? && See(env, m.run) == LBRACE) || (dst.ArrayInitial? && See(env, m.run) == LBRACKET)
    ensures Predicted(env, m) == dst && Transit(env, m, dst) == Open(env, m, dst)
  {
  }

  /** A container opens in the same way in both parsers. */
  lemma Opens(env: Env, m: Machine, dst: State)
    requires Sane(env, m) && ExpectsValue(m.state)
    requires (dst.ObjectInitial? && See(env, m.run) == LBRACE) || (dst.ArrayInitial? && See(env, m.run) == LBRACKET)
    ensures var r := Emit(env, Take(m.run), OpenEvent(dst), m.run.pos + 1);
            Reaches(env, m, Machine(dst, m.stack + [Frame(Resume(m.state), 0)], r))
  {
    hide Transit, Predicted, ParseValue, Tokenize, RunLoop, Resume;
    OpenPredicted(env, m, dst);
    var m' := Open(env, m, dst);
    if m'.state.ErrorState? {
      Stuck(env, m);
    } else {
      Step(env, m, m');
    }
  }

  lemma ClosePredicted(env: Env, m: Machine)
    requires Sane(env, m) && Closes(m.state)
    requires var braces := m.state.ObjectInitial? || m.state.MemberValue? || m.state.MemberDelimiter?;
             See(env, m.run) == (if braces then RBRACE else RBRACKET)
    requires m.state.MemberDelimiter? || m.state.ElementDelimiter? ==> env.trailingCommas
    ensures m.run.pos < |env.text| && m.stack != [] && Predicted(env, m) in {ObjectFinish, ArrayFinish}
    ensures Transit(env, m, Predicted(env, m)) == Close(env, m, Predicted(env, m))
    ensures Predicted(env, m).ObjectFinish? <==> See(env, m.run) == RBRACE
  {
    hide ParseValue, ParseKey, IterativeParser.Close;
  }

  /** A container closes in the same way in both parsers, whether the event is sent before or after the bracket is taken. */
  lemma Closed(env: Env, m: Machine, n: nat, r: Run)
    requires Sane(env, m) && Closes(m.state)
    requires var braces := m.state.ObjectInitial? || m.state.MemberValue? || m.state.MemberDelimiter?;
             && See(env, m.run) == (if braces then RBRACE else RBRACKET)
             && r.log == m.run.log + [if braces then EndObject(n) else EndArray(n)]
    requires m.state.MemberDelimiter? || m.state.ElementDelimiter? ==> env.trailingCommas
    requires n == FinalCount(m.state, m.stack[|m.stack| - 1].count)
    requires r.result.NoError? <==> env.handler(r.log)
    requires r.result.NoError? ==> r.pos == m.run.pos + 1
    requires r.result.Error? ==> r.result.code.Termination? && r.result.offset - 1 <= m.run.pos <= r.result.offset
    ensures Reaches(env, m, Machine(Resumed(m.stack[|m.stack| - 1].resume), m.stack[..|m.stack| - 1], r))
  {
    hide Transit, Predict, ParseValue, ParseKey, Tokenize, RunLoop;
    ClosePredicted(env, m);
    var m' := Transit(env, m, Predicted(env, m));
    if m'.state.ErrorState? {
      Stuck(env, m);
    } else {
      Step(env, m, m');
      assert m'.run == r;
    }
  }

  lemma Chain(env: Env, m: Machine, m1: Machine, m': Machine)
    requires Sane(env, m) && Reaches(env, m, m1) && m1.run.result.NoError? && !m1.state.Finish?
    requires Sane(env, m1.(run := Skip(env, m1.run))) && Reaches(env, m1.(run := Skip(env, m1.run)), m')
    ensures Reaches(env, m, m')
  {
    Onward(env, m1);
  }

  /** The whole text starts with a byte that starts no value: the one case in which the parsers name different errors. */
  predicate StartsNoValue(env: Env, m: Machine) {
    m.state.Start? && See(env, m.run) in {COMMA, COLON, RBRACKET, RBRACE, NUL}
  }

  /** Where a value is expected, the loop does what `ParseValue` does. */
  lemma ValueSimulated(env: Env, m: Machine)
    requires Sane(env, m) && ExpectsValue(m.state) && !StartsNoValue(env, m)
    requires m.state.ArrayInitial? || m.state.ElementDelimiter? ==> See(env, m.run) != RBRACKET
    ensures Reaches(env, m, Machine(Resumed(Resume(m.state)), m.stack, ParseValue(env, m.run)))
    decreases |env.text| - m.run.pos, 1
  {
    hide Transit, Predicted, ParseArray, ParseObject, RunLoop, Scalar, Reaches;
    var c := See(env, m.run);
    if c in {NUL, COMMA, COLON, RBRACKET, RBRACE} {
      NothingSimulated(env, m);
    } else if c == LBRACKET {
      ArraySimulated(env, m);
    } else if c == LBRACE {
      ObjectSimulated(env, m);
    } else {
      ScalarSimulated(env, m);
    }
  }

  lemma NothingSimulated(env: Env, m: Machine)
    requires Sane(env, m) && ExpectsValue(m.state) && See(env, m.run) in {NUL, COMMA, COLON, RBRACKET, RBRACE}
    requires !m.state.Start?
    requires m.state.ArrayInitial? || m.state.ElementDelimiter? ==> See(env, m.run) != RBRACKET
    ensures Reaches(env, m, Machine(Resumed(Resume(m.state)), m.stack, ParseValue(env, m.run)))
  {
    hide ParseValue, RunLoop, RecursiveParser.Skip, IterativeParser.Open, IterativeParser.Close, ParseKey;
    NoValue(env, m.run);
    Stuck(env, m);
  }

  /** What is no bracket sends no event of one. */
  lemma ScalarNoBracket(env: Env, r: Run)
    requires Ready(env, r)
    ensures See(env, r) != LBRACE && See(env, r) != LBRACKET ==> !StoppedAtBracket(ParseValue(env, r))
    ensures See(env, r) == QUOTE ==> !StoppedAtBracket(ParseKey(env, r))
  {
    hide ScanBody, ScanNumber, Matching;
    TokensNeverStop(env, r.pos);
  }

  /** Scanning a token is no event. */
  lemma TokensNeverStop(env: Env, p: nat)
    requires p <= |env.text|
    ensures p < |env.text| && ScanBody(env.text, p + 1, []).Bad? ==> !ScanBody(env.text, p + 1, []).code.Termination?
    ensures ScanNumber(env, p).Bad? ==> !ScanNumber(env, p).code.Termination?
    ensures ScanNumber(env, p).Token? ==> !IsBracket(ScanNumber(env, p).value)
  {
    if p < |env.text| {
      BodyNeverStops(env.text, p + 1, []);
    }
  }

  lemma {:induction false} BodyNeverStops(t: Text, p: nat, acc: Text)
    requires p <= |t|
    ensures ScanBody(t, p, acc).Bad? ==> !ScanBody(t, p, acc).code.Termination?
    decreases |t| - p
  {
    hide FourHex, HexQuad;
    if Peek(t, p) == BACKSLASH {
      if ScanEscape(t, p).Token? {
        BodyNeverStops(t, ScanEscape(t, p).end, acc + ScanEscape(t, p).value);
      }
    } else if Peek(t, p) != QUOTE && Peek(t, p) >= 0x20 {
      BodyNeverStops(t, p + 1, acc + [Peek(t, p)]);
    }
  }

  lemma ScalarSimulated(env: Env, m: Machine)
    requires Sane(env, m) && ExpectsValue(m.state) && IsScalarToken(Tokenize(See(env, m.run)))
    requires See(env, m.run) != NUL
    ensures Reaches(env, m, Machine(Resumed(Resume(m.state)), m.stack, ParseValue(env, m.run)))
  {
    hide ParseValue, RunLoop, RecursiveParser.Skip, IterativeParser.Open, IterativeParser.Close, ParseKey;
    ScalarNoBracket(env, m.run);
    var m' := Transit(env, m, Predicted(env, m));
    if m'.state.ErrorState? {
      Stuck(env, m);
    } else {
      Step(env, m, m');
    }
  }

  lemma ArraySimulated(env: Env, m: Machine)
    requires Sane(env, m) && ExpectsValue(m.state) && See(env, m.run) == LBRACKET
    ensures Reaches(env, m, Machine(Resumed(Resume(m.state)), m.stack, ParseArray(env, m.run)))
    decreases |env.text| - m.run.pos, 0
  {
    hide Transit, Predicted, ParseValue, ParseElements, ParseMembers, RunLoop, Continue, SkipSpace, HandleError;
    var r1 := Emit(env, Take(m.run), StartArray, m.run.pos + 1);
    var m1 := Machine(ArrayInitial, m.stack + [Frame(Resume(m.state), 0)], r1);
    Opens(env, m, ArrayInitial);
    if r1.result.NoError? {
      var m2 := m1.(run := Skip(env, r1));
      assert m2.stack[..|m2.stack| - 1] == m.stack;
      if See(env, m2.run) == RBRACKET {
        Closed(env, m2, 0, ParseArray(env, m.run));
      } else {
        ElementsSimulated(env, m2, 0);
      }
      Chain(env, m, m1, Machine(Resumed(Resume(m.state)), m.stack, ParseArray(env, m.run)));
    }
  }

  /** The loop over the elements; the count of the elements behind is the top of the stack. */
  lemma ElementsSimulated(env: Env, m: Machine, n: nat)
    requires Sane(env, m) && (m.state.ArrayInitial? || m.state.ElementDelimiter?)
    requires m.stack[|m.stack| - 1].count == n
    requires See(env, m.run) == RBRACKET ==> m.state.ElementDelimiter? && !env.trailingCommas
    ensures Reaches(env, m, Machine(Resumed(m.stack[|m.stack| - 1].resume), m.stack[..|m.stack| - 1],
                                    ParseElements(env, m.run, n)))
    decreases |env.text| - m.run.pos, 2
  {
    hide Transit, Predicted, ParseValue, ParseName, ParseArray, ParseObject, AfterElement, AfterMember, RunLoop,
         Continue, SkipSpace, HandleError;
    var base := m.stack[..|m.stack| - 1];
    var top := m.stack[|m.stack| - 1];
    var goal := Machine(Resumed(top.resume), base, ParseElements(env, m.run, n));
    if See(env, m.run) == RBRACKET {
      NoValue(env, m.run);
      BareComma(env, m);
    } else {
      ValueSimulated(env, m);
      var m1 := Machine(Element, m.stack, ParseValue(env, m.run));
      if m1.run.result.NoError? {
        var m2 := m1.(run := Skip(env, m1.run));
        AfterElementSimulated(env, m2, n, goal);
        Chain(env, m, m1, goal);
      }
    }
  }

  /** A closing bracket behind a comma, where trailing commas are not allowed. */
  lemma BareComma(env: Env, m: Machine)
    requires Sane(env, m) && m.state.ElementDelimiter? && See(env, m.run) == RBRACKET && !env.trailingCommas
    ensures RunLoop(env, m) == Fail(m.run, ValueInvalid, m.run.pos)
  {
    hide ParseValue, RunLoop, SkipSpace, Open, Close, ParseKey;
    Stuck(env, m);
  }

  /** A comma behind an item. */
  lemma CommaTaken(env: Env, m: Machine, dst: State)
    requires Sane(env, m) && See(env, m.run) == COMMA && m.stack != []
    requires (m.state.Element? && dst.ElementDelimiter?) || (m.state.MemberValue? && dst.MemberDelimiter?)
    ensures Sane(env, m.Counted(dst)) && Reaches(env, m, m.Counted(dst))
  {
    hide ParseValue, RunLoop, SkipSpace, Open, Close, ParseKey;
    Step(env, m, m.Counted(dst));
  }

  /** Neither a comma nor the bracket that closes the container. */
  lemma NotDelimited(env: Env, m: Machine)
    requires Sane(env, m) && (m.state.Element? || m.state.MemberValue?)
    requires See(env, m.run) != COMMA && See(env, m.run) != (if m.state.Element? then RBRACKET else RBRACE)
    ensures RunLoop(env, m) ==
              Fail(m.run,
                   if m.state.Element? then ArrayMissCommaOrSquareBracket else ObjectMissCommaOrCurlyBracket, m.run.pos)
  {
    hide ParseValue, RunLoop, SkipSpace, Open, Close, ParseKey;
    Stuck(env, m);
  }

  lemma AfterElementSimulated(env: Env, m: Machine, n: nat, goal: Machine)
    requires Sane(env, m) && m.state.Element? && m.stack[|m.stack| - 1].count == n
    requires goal.state == Resumed(m.stack[|m.stack| - 1].resume) && goal.stack == m.stack[..|m.stack| - 1]
    requires goal.run == AfterElement(env, m.run, Inc(n))
    ensures Reaches(env, m, goal)
    decreases |env.text| - m.run.pos, 1
  {
    hide Transit, Predicted, ParseValue, ParseName, ParseArray, ParseObject, RunLoop, Continue, SkipSpace,
         HandleError;
    var c := See(env, m.run);
    if c == COMMA {
      var m3 := m.Counted(ElementDelimiter);
      CommaTaken(env, m, ElementDelimiter);
      var m4 := m3.(run := Skip(env, m3.run));
      assert m4.stack[..|m4.stack| - 1] == goal.stack;
      if env.trailingCommas && See(env, m4.run) == RBRACKET {
        Closed(env, m4, Inc(n), goal.run);
      } else {
        ElementsSimulated(env, m4, Inc(n));
      }
      Chain(env, m, m3, goal);
    } else if c == RBRACKET {
      Closed(env, m, Inc(n), goal.run);
    } else {
      NotDelimited(env, m);
    }
  }

  lemma ObjectSimulated(env: Env, m: Machine)
    requires Sane(env, m) && ExpectsValue(m.state) && See(env, m.run) == LBRACE
    ensures Reaches(env, m, Machine(Resumed(Resume(m.state)), m.stack, ParseObject(env, m.run)))
    decreases |env.text| - m.run.pos, 0
  {
    hide Transit, Predicted, ParseValue, ParseElements, ParseMembers, RunLoop, Continue, SkipSpace, HandleError;
    var r1 := Emit(env, Take(m.run), StartObject, m.run.pos + 1);
    var m1 := Machine(ObjectInitial, m.stack + [Frame(Resume(m.state), 0)], r1);
    Opens(env, m, ObjectInitial);
    if r1.result.NoError? {
      var m2 := m1.(run := Skip(env, r1));
      assert m2.stack[..|m2.stack| - 1] == m.stack;
      if See(env, m2.run) == RBRACE {
        Closed(env, m2, 0, ParseObject(env, m.run));
      } else {
        MembersSimulated(env, m2, 0);
      }
      Chain(env, m, m1, Machine(Resumed(Resume(m.state)), m.stack, ParseObject(env, m.run)));
    }
  }

  /** A member's name and colon. */
  lemma NameSimulated(env: Env, m: Machine)
    requires Sane(env, m) && (m.state.ObjectInitial? || m.state.MemberDelimiter?)
    requires See(env, m.run) == RBRACE ==> m.state.MemberDelimiter? && !env.trailingCommas
    ensures var r := ParseName(env, m.run);
            if r.result.Error? then SameError(env, RunLoop(env, m), r)
            else Sane(env, Machine(KeyValueDelimiter, m.stack, r))
                 && RunLoop(env, m) == RunLoop(env, Machine(KeyValueDelimiter, m.stack, r))
  {
    hide SkipSpace, ScanString, Scalar, ParseValue, RunLoop;
    if See(env, m.run) != QUOTE {
      Stuck(env, m);
    } else {
      ScalarNoBracket(env, m.run);
      var m1 := Transit(env, m, Predicted(env, m));
      if m1.state.ErrorState? {
        Stuck(env, m);
      } else {
        Step(env, m, m1);
        Onward(env, m1);
        ColonSimulated(env, m1.(run := Skip(env, m1.run)));
      }
    }
  }

  lemma ColonSimulated(env: Env, m: Machine)
    requires Sane(env, m) && m.state.MemberKey?
    ensures if See(env, m.run) != COLON then RunLoop(env, m) == Fail(m.run, ObjectMissColon, m.run.pos)
            else var m' := Machine(KeyValueDelimiter, m.stack, Skip(env, Take(m.run)));
                 Sane(env, m') && RunLoop(env, m) == RunLoop(env, m')
  {
    hide SkipSpace, Scalar, ParseValue, RunLoop;
    if See(env, m.run) != COLON {
      Stuck(env, m);
    } else {
      var m3 := m.(state := KeyValueDelimiter, run := Take(m.run));
      Step(env, m, m3);
      Onward(env, m3);
    }
  }

  lemma MembersSimulated(env: Env, m: Machine, n: nat)
    requires Sane(env, m) && (m.state.ObjectInitial? || m.state.MemberDelimiter?)
    requires m.stack[|m.stack| - 1].count == n
    requires See(env, m.run) == RBRACE ==> m.state.MemberDelimiter? && !env.trailingCommas
    ensures Reaches(env, m, Machine(Resumed(m.stack[|m.stack| - 1].resume), m.stack[..|m.stack| - 1],
                                    ParseMembers(env, m.run, n)))
    decreases |env.text| - m.run.pos, 2
  {
    hide Transit, Predicted, ParseValue, ParseName, ParseArray, ParseObject, AfterElement, AfterMember, RunLoop,
         Continue, SkipSpace, HandleError;
    var goal := Machine(Resumed(m.stack[|m.stack| - 1].resume), m.stack[..|m.stack| - 1], ParseMembers(env, m.run, n));
    NameSimulated(env, m);
    var m0 := Machine(KeyValueDelimiter, m.stack, ParseName(env, m.run));
    if m0.run.result.NoError? {
      ValueSimulated(env, m0);
      var m1 := Machine(MemberValue, m.stack, ParseValue(env, m0.run));
      if m1.run.result.NoError? {
        var m2 := m1.(run := Skip(env, m1.run));
        AfterMemberSimulated(env, m2, n, goal);
        Chain(env, m0, m1, goal);
      }
    }
  }

  lemma AfterMemberSimulated(env: Env, m: Machine, n: nat, goal: Machine)
    requires Sane(env, m) && m.state.MemberValue? && m.stack[|m.stack| - 1].count == n
    requires goal.state == Resumed(m.stack[|m.stack| - 1].resume) && goal.stack == m.stack[..|m.stack| - 1]
    requires goal.run == AfterMember(env, m.run, Inc(n))
    ensures Reaches(env, m, goal)
    decreases |env.text| - m.run.pos, 1
  {
    hide Transit, Predicted, ParseValue, ParseName, ParseArray, ParseObject, RunLoop, Continue, SkipSpace,
         HandleError;
    var c := See(env, m.run);
    if c == COMMA {
      var m3 := m.Counted(MemberDelimiter);
      CommaTaken(env, m, MemberDelimiter);
      var m4 := m3.(run := Skip(env, m3.run));
      assert m4.stack[..|m4.stack| - 1] == goal.stack;
      if env.trailingCommas && See(env, m4.run) == RBRACE {
        Closed(env, m4, Inc(n), goal.run);
      } else {
        MembersSimulated(env, m4, Inc(n));
      }
      Chain(env, m, m3, goal);
    } else if c == RBRACE {
      Closed(env, m, Inc(n), goal.run);
    } else {
      NotDelimited(env, m);
    }
  }

  /** The first byte that is not white space. */
  function FirstByte(env: Env): byte {
    Peek(env.text, SkipSpace(env.text, 0))
  }

  /**
    The two parsers accept the same texts, send the same events to every handler, and report the same error at the same
    offset; only a text that starts with a byte no value starts with is an empty document to one of them.
   */
  lemma ParsersAgree(env: Env)
    ensures SameOutcome(IterativeParse(env), Parse(env))
    ensures var a, b := IterativeParse(env).result, Parse(env).result;
            a.Error? ==>
              if FirstByte(env) in {COMMA, COLON, RBRACKET, RBRACE} then
                a == Error(DocumentEmpty, SkipSpace(env.text, 0)) && b == Error(ValueInvalid, SkipSpace(env.text, 0))
              else SameError(env, IterativeParse(env), Parse(env))
  {
    var m := Machine(Start, [], Skip(env, START));
    if FirstByte(env) in {COMMA, COLON, RBRACKET, RBRACE} {
      NoValue(env, m.run);
      Stuck(env, m);
    } else if See(env, m.run) != NUL {
      ValueSimulated(env, m);
      var m1 := Machine(Finish, [], ParseValue(env, m.run));
      if m1.run.result.NoError? && !env.stopWhenDone {
        var m2 := m1.(run := Skip(env, m1.run));
        assert Continue(env, m1) == RunLoop(env, m2);
        if See(env, m2.run) != NUL {
          assert Transit(env, m2, Predicted(env, m2)).state.ErrorState?;
        }
      }
    }
  }

  /** Only white space is left of the text, but some: to the token driver this is not yet its end. */
  predicate OnlySpace(env: Env, r: Run)
    requires Ready(env, r)
  {
    See(env, r) != NUL && See(env, Skip(env, r)) == NUL
  }

  /** Driving the parser token by token ends as the loop does; a text of white space alone gets another error. */
  lemma {:induction false} DriveAgrees(env: Env, m: Machine)
    requires Sane(env, m) && !m.state.Finish?
    ensures SameOutcome(Drive(env, m), RunLoop(env, m.(run := Skip(env, m.run))))
    ensures Drive(env, m).result ==
              if m.state.Start? && OnlySpace(env, m.run) then Error(ValueInvalid, Skip(env, m.run).pos)
              else RunLoop(env, m.(run := Skip(env, m.run))).result
    decreases |env.text| - m.run.pos
  {
    hide Transit, ParseValue, SkipSpace, HandleError, Predict;
    var m1 := m.(run := Skip(env, m.run));
    if See(env, m.run) == NUL {
      assert m1 == m;
    } else if See(env, m1.run) == NUL {
      EndsEarly(env, m);
    } else {
      var m2 := Transit(env, m1, Predicted(env, m1));
      if !m2.state.ErrorState? {
        Step(env, m1, m2);
        if m2.state.Finish? {
          AtFinish(env, m2);
        } else {
          NeverStartAgain(env, m1);
          DriveAgrees(env, m2);
        }
      }
    }
  }

  lemma NeverStartAgain(env: Env, m: Machine)
    requires Sane(env, m)
    ensures !Transit(env, m, Predicted(env, m)).state.Start?
  {
    hide ParseValue, ParseKey, Emit;
  }

  /** White space at the end of an incomplete text: the terminator is taken for a number, which fails. */
  lemma EndsEarly(env: Env, m: Machine)
    requires Sane(env, m) && !m.state.Finish?
    requires See(env, m.run) != NUL && See(env, Skip(env, m.run)) == NUL
    ensures !ParseNext(env, m).ok && ParseNext(env, m).m.run.log == m.run.log
    ensures var r := Skip(env, m.run);
            ParseNext(env, m).m.run.result ==
              if m.state.Start? then Error(ValueInvalid, r.pos) else HandleError(m.(run := r)).result
  {
    hide SkipSpace, ParseValue, Sane;
    NoValue(env, Skip(env, m.run));
  }

  lemma AtFinish(env: Env, m: Machine)
    requires Sane(env, m) && m.state.Finish?
    ensures var skipped := Skip(env, m.run);
            if env.stopWhenDone then Continue(env, m) == m.run
            else if See(env, skipped) == NUL then Continue(env, m) == skipped
            else Continue(env, m) == HandleError(m.(run := skipped)) == Fail(skipped, DocumentRootNotSingular, skipped.pos)
  {
    var m2 := m.(run := Skip(env, m.run));
    if See(env, m2.run) != NUL {
      assert Transit(env, m2, Predicted(env, m2)).state.ErrorState?;
    }
  }

  /** All three drivers agree; the two table-driven ones also on every error, but for a text of white space alone. */
  lemma TokenParserAgrees(env: Env)
    ensures SameOutcome(ParseByTokens(env), Parse(env))
    ensures var end := SkipSpace(env.text, 0);
            if Peek(env.text, 0) != NUL && Peek(env.text, end) == NUL then
              && ParseByTokens(env).result == Error(ValueInvalid, end)
              && IterativeParse(env).result == Error(DocumentEmpty, end)
            else ParseByTokens(env).result == IterativeParse(env).result
  {
    DriveAgrees(env, Machine(Start, [], START));
    ParsersAgree(env);
  }

  /** `log` extends `before` by at most one event, and by exactly one when `must` holds. */
  predicate ExtendsByOne(before: seq<Event>, log: seq<Event>, must: bool) {
    before <= log && |log| <= |before| + 1 && (must ==> |log| == |before| + 1)
  }

  /** A call that succeeds on an unfinished text sends exactly one event; a call that fails sends at most one. */
  lemma {:induction false} OneEventPerCall(env: Env, m: Machine)
    requires Sane(env, m) && !m.state.Finish?
    ensures ExtendsByOne(m.run.log, ParseNext(env, m).m.run.log, ParseNext(env, m).ok)
    decreases |env.text| - m.run.pos
  {
    if See(env, m.run) != NUL {
      var m1 := m.(run := Skip(env, m.run));
      var m2 := Transit(env, m1, Predicted(env, m1));
      TransitSends(env, m1);
      if IsDelimiter(Predicted(env, m1)) && !m2.state.ErrorState? {
        OneEventPerCall(env, m2);
      }
    }
  }

  lemma ScalarSends(env: Env, r: Run, token: Lexeme<Event>)
    requires Ready(env, r) && (token.Token? ==> r.pos < token.end <= |env.text|)
    ensures var r' := Scalar(env, r, token); ExtendsByOne(r.log, r'.log, r'.result.NoError?)
  {
  }

  lemma TransitSends(env: Env, m: Machine)
    requires Sane(env, m) && !m.state.Finish?
    ensures var m2 := Transit(env, m, Predicted(env, m));
            ExtendsByOne(m.run.log, m2.run.log, !m2.state.ErrorState? && !IsDelimiter(Predicted(env, m)))
    ensures IsDelimiter(Predicted(env, m)) ==> Transit(env, m, Predicted(env, m)).run.log == m.run.log
  {
    hide ScanString, ScanScalar, ParseValue, Scalar;
    var dst := Predicted(env, m);
    if dst.MemberKey? {
      ScalarSends(env, m.run, ScanString(env.text, m.run.pos, true));
    } else if dst.ValueState? || dst.Element? || dst.MemberValue? {
      ScalarValue(env, m.run);
      ScalarSends(env, m.run, ScanScalar(env, m.run.pos));
    } else if dst.ObjectInitial? || dst.ArrayInitial? {
      OpenPredicted(env, m, dst);
    }
  }

  lemma ScalarValue(env: Env, r: Run)
    requires Ready(env, r) && See(env, r) != LBRACE && See(env, r) != LBRACKET
    ensures ParseValue(env, r) == Scalar(env, r, ScanScalar(env, r.pos))
  {
  }
}
