/** The table-driven parser: tokens, the prediction table, transitions over an explicit stack, and the two drivers. */
module IterativeParser {
  import opened Bytes
  import opened Strings
  import opened Events
  import opened RecursiveParser

  datatype State =
    | Finish
    | ErrorState
    | Start
    | ObjectInitial
    | MemberKey
    | MemberValue
    | ObjectFinish
    | ArrayInitial
    | Element
    | ArrayFinish
    | ValueState
    | ElementDelimiter
    | MemberDelimiter
    | KeyValueDelimiter

  datatype Token =
    | LeftBracketToken
    | RightBracketToken
    | LeftCurlyBracketToken
    | RightCurlyBracketToken
    | CommaToken
    | ColonToken
    | StringToken
    | FalseToken
    | TrueToken
    | NullToken
    | NumberToken

  function Tokenize(c: byte): Token {
    match c
    case 0x22 => StringToken
    case 0x2C => CommaToken
    case 0x3A => ColonToken
    case 0x5B => LeftBracketToken
    case 0x5D => RightBracketToken
    case 0x66 => FalseToken
    case 0x6E => NullToken
    case 0x74 => TrueToken
    case 0x7B => LeftCurlyBracketToken
    case 0x7D => RightCurlyBracketToken
    case _ => NumberToken
  }

  predicate IsScalarToken(t: Token) {
    t.StringToken? || t.FalseToken? || t.TrueToken? || t.NullToken? || t.NumberToken?
  }

  /** A row of the table for a state that expects a value. */
  function ValueRow(t: Token, scalar: State, close: State): State {
    if t.LeftBracketToken? then ArrayInitial
    else if t.LeftCurlyBracketToken? then ObjectInitial
    else if t.RightBracketToken? then close
    else if IsScalarToken(t) then scalar
    else ErrorState
  }

  function Predict(s: State, t: Token): State {
    match s
    case Start => ValueRow(t, ValueState, ErrorState)
    case ObjectInitial =>
      if t.RightCurlyBracketToken? then ObjectFinish else if t.StringToken? then MemberKey else ErrorState
    case MemberKey => if t.ColonToken? then KeyValueDelimiter else ErrorState
    case MemberValue =>
      if t.RightCurlyBracketToken? then ObjectFinish else if t.CommaToken? then MemberDelimiter else ErrorState
    case ArrayInitial => ValueRow(t, Element, ArrayFinish)
    case Element =>
      if t.RightBracketToken? then ArrayFinish else if t.CommaToken? then ElementDelimiter else ErrorState
    case ElementDelimiter => ValueRow(t, Element, ArrayFinish)
    case MemberDelimiter =>
      if t.RightCurlyBracketToken? then ObjectFinish else if t.StringToken? then MemberKey else ErrorState
    case KeyValueDelimiter => ValueRow(t, MemberValue, ErrorState)
    case _ => ErrorState  // Finish, ErrorState, ObjectFinish, ArrayFinish and ValueState are sinks
  }

  /** Two stack slots: the state to resume, and the number of members or elements so far. */
  datatype Frame = Frame(resume: State, count: nat)

  datatype Machine = Machine(state: State, stack: seq<Frame>, run: Run) {
    /** A parse error turns into the error state. */
    function Checked(): Machine {
      if run.result.Error? then this.(state := ErrorState) else this
    }

    /** Take a comma and count the item before it. */
    function Counted(dst: State): (m: Machine)
      requires stack != []
      ensures Nested(stack) ==> Nested(m.stack)
    {
      var top := stack[|stack| - 1];
      Machine(dst, stack[..|stack| - 1] + [top.(count := Inc(top.count))], Take(run))
    }
  }

  /** The state pushed when a container opens in state `src`. */
  function Resume(src: State): State {
    if src.ArrayInitial? || src.ElementDelimiter? then Element
    else if src.KeyValueDelimiter? then MemberValue
    else src
  }

  /** The state after a container whose frame holds `resume` has closed. */
  function Resumed(resume: State): State {
    if resume.Start? then Finish else resume
  }

  predicate ExpectsValue(s: State) {
    s.Start? || s.ArrayInitial? || s.ElementDelimiter? || s.KeyValueDelimiter?
  }

  predicate Closes(s: State) {
    s.ObjectInitial? || s.MemberValue? || s.MemberDelimiter? || s.ArrayInitial? || s.Element? || s.ElementDelimiter?
  }

  /** The states that live inside a container; each has the frame of that container on top of the stack. */
  predicate Inside(s: State) {
    !s.Start? && !s.Finish?
  }

  predicate Running(s: State) {
    ExpectsValue(s) || Closes(s) || s.MemberKey? || s.Finish?
  }

  predicate Nested(stack: seq<Frame>) {
    forall k | 0 <= k < |stack| ::
      if k == 0 then stack[k].resume.Start? else stack[k].resume.Element? || stack[k].resume.MemberValue?
  }

  /** What the loops keep: a running state, a frame for every open container, and states a frame may resume. */
  predicate Sane(env: Env, m: Machine) {
    && Ready(env, m.run)
    && Running(m.state)
    && (Inside(m.state) ==> m.stack != [])
    && Nested(m.stack)
    && (m.state.Start? || m.state.Finish? ==> m.stack == [])
  }

  function Open(env: Env, m: Machine, dst: State): (m': Machine)
    requires Sane(env, m) && ExpectsValue(m.state) && (dst.ObjectInitial? || dst.ArrayInitial?)
    requires m.run.pos < |env.text|
    ensures m'.run.pos <= |env.text|
    ensures !m'.state.ErrorState? ==> Sane(env, m') && m.run.pos < m'.run.pos
  {
    var run := Emit(env, m.run, if dst.ObjectInitial? then StartObject else StartArray, m.run.pos);
    Machine(
      if run.result.Error? then ErrorState else dst,
      m.stack + [Frame(Resume(m.state), 0)],
      if run.result.Error? then run else Take(run))
  }

  /** The final item is counted here; items before it were counted at their delimiter. */
  function FinalCount(src: State, count: nat): nat {
    if src.MemberValue? || src.Element? then Inc(count) else count
  }

  function Close(env: Env, m: Machine, dst: State): (m': Machine)
    requires Sane(env, m) && m.stack != [] && m.run.pos < |env.text|
    ensures m'.run.pos <= |env.text|
    ensures !m'.state.ErrorState? ==> Sane(env, m') && m.run.pos < m'.run.pos
  {
    var top := m.stack[|m.stack| - 1];
    var n := FinalCount(m.state, top.count);
    var run := Emit(env, m.run, if dst.ObjectFinish? then EndObject(n) else EndArray(n), m.run.pos);
    Machine(
      if run.result.Error? then ErrorState else Resumed(top.resume),
      m.stack[..|m.stack| - 1],
      if run.result.Error? then run else Take(run))
  }

  /** One transition towards the predicted state; the new machine's state may differ from it. */
  function Transit(env: Env, m: Machine, dst: State): (m': Machine)
    requires Sane(env, m) && dst == Predict(m.state, Tokenize(See(env, m.run)))
    ensures !m'.state.ErrorState? ==> Sane(env, m') && m.run.pos < m'.run.pos
    ensures m'.run.pos <= |env.text|
  {
    match dst
    case ErrorState => m.(state := ErrorState)
    case ObjectInitial => Open(env, m, dst)
    case ArrayInitial => Open(env, m, dst)
    case MemberKey => m.(state := dst, run := ParseKey(env, m.run)).Checked()
    case KeyValueDelimiter => m.(state := dst, run := Take(m.run))
    case MemberDelimiter => m.Counted(dst)
    case ElementDelimiter => m.Counted(dst)
    case ObjectFinish =>
      if !env.trailingCommas && m.state.MemberDelimiter? then
        m.(state := ErrorState, run := Fail(m.run, ObjectMissName, m.run.pos))
      else Close(env, m, dst)
    case ArrayFinish =>
      if !env.trailingCommas && m.state.ElementDelimiter? then
        m.(state := ErrorState, run := Fail(m.run, ValueInvalid, m.run.pos))
      else Close(env, m, dst)
    case ValueState => m.(state := Finish, run := ParseValue(env, m.run)).Checked()
    case _ => m.(state := dst, run := ParseValue(env, m.run)).Checked()
  }

  /** The error of the state in which no transition was possible, unless one was reported already. */
  function HandleError(m: Machine): (r: Run)
    ensures r.result.Error? && r.log == m.run.log
  {
    if m.run.result.Error? then m.run
    else
      match m.state
      case Start => Fail(m.run, DocumentEmpty, m.run.pos)
      case Finish => Fail(m.run, DocumentRootNotSingular, m.run.pos)
      case ObjectInitial => Fail(m.run, ObjectMissName, m.run.pos)
      case MemberDelimiter => Fail(m.run, ObjectMissName, m.run.pos)
      case MemberKey => Fail(m.run, ObjectMissColon, m.run.pos)
      case MemberValue => Fail(m.run, ObjectMissCommaOrCurlyBracket, m.run.pos)
      case KeyValueDelimiter => Fail(m.run, ValueInvalid, m.run.pos)
      case ArrayInitial => Fail(m.run, ValueInvalid, m.run.pos)
      case ElementDelimiter => Fail(m.run, ValueInvalid, m.run.pos)
      case _ => Fail(m.run, ArrayMissCommaOrSquareBracket, m.run.pos)
  }

  function Predicted(env: Env, m: Machine): State {
    Predict(m.state, Tokenize(See(env, m.run)))
  }

  /** The loop of `IterativeParse` from machine m on, to its final result. */
  function RunLoop(env: Env, m: Machine): Run
    requires Sane(env, m)
    decreases |env.text| - m.run.pos, 1
  {
    if See(env, m.run) == NUL then
      if m.state.Finish? then m.run else HandleError(m)
    else
      var m' := Transit(env, m, Predicted(env, m));
      if m'.state.ErrorState? then HandleError(m.(run := m'.run)) else Continue(env, m')
  }

  /** The rest of the loop body after a successful transition, and the iterations after it. */
  function Continue(env: Env, m: Machine): Run
    requires Sane(env, m)
    decreases |env.text| - m.run.pos, 2
  {
    if env.stopWhenDone && m.state.Finish? then m.run
    else RunLoop(env, m.(run := Skip(env, m.run)))
  }

  function IterativeParse(env: Env): Run {
    RunLoop(env, Machine(Start, [], Skip(env, START)))
  }

  // ---------------------------------------------------------------- token by token

  predicate IsDelimiter(s: State) {
    s.ElementDelimiter? || s.MemberDelimiter? || s.KeyValueDelimiter?
  }

  /** The reader after one call of `IterativeParseNext`, and the answer of the call. */
  datatype Call = Call(m: Machine, ok: bool)

  function ParseNext(env: Env, m: Machine): (c: Call)
    requires Sane(env, m)
    ensures c.ok ==> Sane(env, c.m)
    ensures c.ok && !m.state.Finish? ==> m.run.pos < c.m.run.pos
    decreases |env.text| - m.run.pos
  {
    if See(env, m.run) == NUL then
      if m.state.Finish? then Call(m.(stack := []), true) else Call(m.(stack := [], run := HandleError(m)), false)
    else
      var m1 := m.(run := Skip(env, m.run));
      var dst := Predicted(env, m1);
      var m2 := Transit(env, m1, dst);
      if m2.state.ErrorState? then Call(m1.(run := HandleError(m1.(run := m2.run))), false)
      else if m2.state.Finish? then
        if env.stopWhenDone then Call(m2, true)
        else
          var m3 := m2.(run := Skip(env, m2.run));
          if See(env, m3.run) != NUL then Call(m3.(run := HandleError(m3)), false) else Call(m3, true)
      else if IsDelimiter(dst) then ParseNext(env, m2)
      else Call(m2, true)
  }

  /** A call at the end of the text succeeds exactly on a complete text, and leaves the stack empty either way. */
  lemma NextAtEnd(env: Env, m: Machine)
    requires Sane(env, m) && See(env, m.run) == NUL
    ensures ParseNext(env, m).m.stack == [] && (ParseNext(env, m).ok <==> m.state.Finish?)
  {
  }

  /** Call `IterativeParseNext` until it fails or the text is complete. */
  function Drive(env: Env, m: Machine): Run
    requires Sane(env, m) && !m.state.Finish?
    decreases |env.text| - m.run.pos
  {
    var c := ParseNext(env, m);
    if !c.ok || c.m.state.Finish? then c.m.run else Drive(env, c.m)
  }

  function ParseByTokens(env: Env): Run {
    Drive(env, Machine(Start, [], START))
  }
}
