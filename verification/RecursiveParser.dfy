/** Recursive descent: what `Parse` and its helpers do, as functions of the parse state. */
module RecursiveParser {
  import opened Bytes
  import opened Strings
  import opened Events
  import opened Numbers

  /** Stream position, events sent so far, and the parse result. */
  datatype Run = Run(pos: nat, log: seq<Event>, result: ParseResult)

  predicate Ready(env: Env, r: Run) {
    r.result.NoError? && r.pos <= |env.text|
  }

  /** The position never moves back, and moves on when a token was read. */
  predicate Advanced(env: Env, r: Run, r': Run) {
    r.pos <= r'.pos <= |env.text| && (r'.result.NoError? ==> r.pos < r'.pos)
  }

  function Fail(r: Run, code: ErrorCode, offset: nat): Run {
    r.(result := Error(code, offset))
  }

  /** Send an event; a handler that refuses it ends the parse. */
  function Emit(env: Env, r: Run, e: Event, offset: nat): Run {
    var log := r.log + [e];
    Run(r.pos, log, if env.handler(log) then r.result else Error(Termination, offset))
  }

  function Skip(env: Env, r: Run): (r': Run)
    requires Ready(env, r)
    ensures Ready(env, r') && r.pos <= r'.pos && r'.log == r.log && !IsSpace(Peek(env.text, r'.pos))
  {
    r.(pos := SkipSpace(env.text, r.pos))
  }

  function See(env: Env, r: Run): byte {
    Peek(env.text, r.pos)
  }

  function Take(r: Run): Run {
    r.(pos := r.pos + 1)
  }

  /** One token, then its event. */
  function Scalar(env: Env, r: Run, token: Lexeme<Event>): (r': Run)
    requires Ready(env, r) && (token.Token? ==> r.pos < token.end <= |env.text|)
    ensures Advanced(env, r, r')
  {
    match token
    case Bad(code, offset) => Fail(r, code, offset)
    case Token(end, e) =>
      Emit(env, r.(pos := end), e, if e.Int? || e.Uint? || e.Int64? || e.Uint64? || e.Double? then r.pos else end)
  }

  /** The first position at or after p, within the literal that starts at `start`, that does not match. */
  function Matching(t: Text, start: nat, s: Text, k: nat): (q: nat)
    requires k <= |s|
    ensures k <= q <= |s|
    ensures q == |s| ==> forall i | k <= i < |s| :: Peek(t, start + i) == s[i]
    ensures q < |s| ==> Peek(t, start + q) != s[q] && forall i | k <= i < q :: Peek(t, start + i) == s[i]
    decreases |s| - k
  {
    if k < |s| && Peek(t, start + k) == s[k] then Matching(t, start, s, k + 1) else k
  }

  function ScanLiteral(t: Text, p: nat, s: Text, e: Event): (r: Lexeme<Event>)
    requires |s| > 0 && s[|s| - 1] != NUL
    ensures r.Token? ==> p < r.end <= |t|
  {
    var q := Matching(t, p, s, 0);
    if q == |s| then
      assert Peek(t, p + (|s| - 1)) == s[|s| - 1];
      Token(p + |s|, e)
    else Bad(ValueInvalid, p + q)
  }

  function ScanString(t: Text, p: nat, isKey: bool): (r: Lexeme<Event>)
    requires p < |t|
    ensures r.Token? ==> p < r.end <= |t|
  {
    match ScanBody(t, p + 1, [])
    case Bad(code, offset) => Bad(code, offset)
    case Token(end, s) => Token(end, if isKey then Key(s) else String(s))
  }

  /** The token of a value that is neither an object nor an array. */
  function ScanScalar(env: Env, p: nat): (r: Lexeme<Event>)
    requires p <= |env.text|
    ensures r.Token? ==> p < r.end <= |env.text|
  {
    match Peek(env.text, p)
    case 0x6E => ScanLiteral(env.text, p, NULL_TEXT, Event.Null)
    case 0x74 => ScanLiteral(env.text, p, TRUE_TEXT, Bool(true))
    case 0x66 => ScanLiteral(env.text, p, FALSE_TEXT, Bool(false))
    case 0x22 => ScanString(env.text, p, false)
    case _ => ScanNumber(env, p)
  }

  function ParseKey(env: Env, r: Run): (r': Run)
    requires Ready(env, r) && See(env, r) == QUOTE
    ensures Advanced(env, r, r')
  {
    Scalar(env, r, ScanString(env.text, r.pos, true))
  }

  function ParseValue(env: Env, r: Run): (r': Run)
    requires Ready(env, r)
    ensures Advanced(env, r, r')
    decreases |env.text| - r.pos, 1
  {
    match See(env, r)
    case 0x7B => ParseObject(env, r)
    case 0x5B => ParseArray(env, r)
    case _ => Scalar(env, r, ScanScalar(env, r.pos))
  }

  function ParseArray(env: Env, r: Run): (r': Run)
    requires Ready(env, r) && See(env, r) == LBRACKET
    ensures Advanced(env, r, r')
    decreases |env.text| - r.pos, 0
  {
    var r1 := Emit(env, Take(r), StartArray, r.pos + 1);
    if r1.result.Error? then r1
    else
      var r2 := Skip(env, r1);
      if See(env, r2) == RBRACKET then Emit(env, Take(r2), EndArray(0), r2.pos + 1)
      else ParseElements(env, r2, 0)
  }

  /** The loop of `ParseArray` with `count` elements behind it. */
  function ParseElements(env: Env, r: Run, count: nat): (r': Run)
    requires Ready(env, r)
    ensures Advanced(env, r, r')
    decreases |env.text| - r.pos, 2
  {
    var r1 := ParseValue(env, r);
    if r1.result.Error? then r1 else AfterElement(env, Skip(env, r1), Inc(count))
  }

  /** The loop from the comma or bracket behind the `count`-th element on. */
  function AfterElement(env: Env, r: Run, count: nat): (r': Run)
    requires Ready(env, r)
    ensures Advanced(env, r, r')
    decreases |env.text| - r.pos, 0
  {
    if See(env, r) == COMMA then
      var r1 := Skip(env, Take(r));
      if env.trailingCommas && See(env, r1) == RBRACKET then EarlyClose(env, r1, EndArray(count))
      else ParseElements(env, r1, count)
    else if See(env, r) == RBRACKET then Emit(env, Take(r), EndArray(count), r.pos + 1)
    else Fail(r, ArrayMissCommaOrSquareBracket, r.pos)
  }

  /** Behind a trailing comma the closing event goes out before the bracket is taken. */
  function EarlyClose(env: Env, r: Run, e: Event): (r': Run)
    requires Ready(env, r) && r.pos < |env.text|
    ensures Advanced(env, r, r')
  {
    var r1 := Emit(env, r, e, r.pos);
    if r1.result.Error? then r1 else Take(r1)
  }

  function ParseObject(env: Env, r: Run): (r': Run)
    requires Ready(env, r) && See(env, r) == LBRACE
    ensures Advanced(env, r, r')
    decreases |env.text| - r.pos, 0
  {
    var r1 := Emit(env, Take(r), StartObject, r.pos + 1);
    if r1.result.Error? then r1
    else
      var r2 := Skip(env, r1);
      if See(env, r2) == RBRACE then Emit(env, Take(r2), EndObject(0), r2.pos + 1)
      else ParseMembers(env, r2, 0)
  }

  /** The name of a member up to the start of its value. */
  function ParseName(env: Env, r: Run): (r': Run)
    requires Ready(env, r)
    ensures Advanced(env, r, r')
  {
    if See(env, r) != QUOTE then Fail(r, ObjectMissName, r.pos)
    else
      var r1 := ParseKey(env, r);
      if r1.result.Error? then r1
      else
        var r2 := Skip(env, r1);
        if See(env, r2) != COLON then Fail(r2, ObjectMissColon, r2.pos)
        else Skip(env, Take(r2))
  }

  /** The loop of `ParseObject` with `count` members behind it. */
  function ParseMembers(env: Env, r: Run, count: nat): (r': Run)
    requires Ready(env, r)
    ensures Advanced(env, r, r')
    decreases |env.text| - r.pos, 2
  {
    var r0 := ParseName(env, r);
    if r0.result.Error? then r0
    else
      var r1 := ParseValue(env, r0);
      if r1.result.Error? then r1 else AfterMember(env, Skip(env, r1), Inc(count))
  }

  function AfterMember(env: Env, r: Run, count: nat): (r': Run)
    requires Ready(env, r)
    ensures Advanced(env, r, r')
    decreases |env.text| - r.pos, 0
  {
    if See(env, r) == COMMA then
      var r1 := Skip(env, Take(r));
      if env.trailingCommas && See(env, r1) == RBRACE then EarlyClose(env, r1, EndObject(count))
      else ParseMembers(env, r1, count)
    else if See(env, r) == RBRACE then Emit(env, Take(r), EndObject(count), r.pos + 1)
    else Fail(r, ObjectMissCommaOrCurlyBracket, r.pos)
  }

  const START: Run := Run(0, [], NoError)

  /** `Parse`: one value, and nothing behind it unless the caller asked to stop when done. */
  function Parse(env: Env): Run {
    var r := Skip(env, START);
    if See(env, r) == NUL then Fail(r, DocumentEmpty, r.pos)
    else
      var r1 := ParseValue(env, r);
      if r1.result.Error? || env.stopWhenDone then r1
      else
        var r2 := Skip(env, r1);
        if See(env, r2) != NUL then Fail(r2, DocumentRootNotSingular, r2.pos) else r2
  }
}
