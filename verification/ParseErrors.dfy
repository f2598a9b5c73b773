/**
  What a parse error tells: up to some position the text can be completed to a JSON text, the code says what would have
  let it go on there, and the byte at the offset is not that.
 */
module ParseErrors {
  import opened Bytes
  import opened Encodings
  import opened Strings
  import opened Events
  import opened Numbers
  import opened Grammar
  import opened RecursiveParser
  import opened Simulation
  import opened GrammarAccepted
  import opened Completions

  // ---------------------------------------------------------------- what stands there instead

  predicate StartsValue(b: byte) {
    0x30 <= b <= 0x39 || b in {0x22, 0x2D, 0x5B, 0x66, 0x6E, 0x74, 0x7B}
  }

  /** A literal that breaks off behind its first letter at the earliest. */
  predicate BrokenWord(t: Text, q: nat, o: nat, word: Text) {
    q < o < q + |word| && o <= |t| && t[q..o] == word[..o - q] && Peek(t, o) != word[o - q]
  }

  predicate NoValue(t: Text, q: nat, o: nat) {
    || (o == q && !StartsValue(Peek(t, q)))
    || (o == q + 1 && Peek(t, q) == MINUS && !IsDigit(Peek(t, o)))
    || BrokenWord(t, q, o, NULL_TEXT) || BrokenWord(t, q, o, TRUE_TEXT) || BrokenWord(t, q, o, FALSE_TEXT)
  }

  ghost predicate NoFraction(t: Text, q: nat, o: nat) {
    && q <= o <= |t| && !IsDigit(Peek(t, o))
    && exists n :: LegalNumeral(n) && n.frac.None? && n.exp.None? && t[q..o] == NumeralText(n) + [DOT]
  }

  ghost predicate NoExponent(t: Text, q: nat, o: nat) {
    && q <= o <= |t| && !IsDigit(Peek(t, o))
    && exists n, e, sign ::
         LegalNumeral(n) && n.exp.None? && IsE(e) && LegalSign(sign) && t[q..o] == NumeralText(n) + [e] + sign
  }

  ghost predicate TooBig(env: Env, q: nat) {
    exists n ::
      && LegalNumeral(n) && Refused(env, n) && At(env.text, q, NumeralText(n))
      && MayFollow(n, Peek(env.text, q + |NumeralText(n)|))
  }

  ghost predicate NoQuad(t: Text, p: nat) {
    forall c: nat :: !QuadDenotes(t, p, c)
  }

  ghost predicate LeadAt(t: Text, p: nat) {
    exists c: nat :: QuadDenotes(t, p, c) && IsLead(c)
  }

  ghost predicate TrailAt(t: Text, p: nat) {
    exists c: nat :: QuadDenotes(t, p, c) && IsTrail(c)
  }

  ghost predicate OtherAt(t: Text, p: nat) {
    exists c: nat :: QuadDenotes(t, p, c) && !IsTrail(c)
  }

  /** A second "\u" follows the first. */
  predicate Continued(t: Text, o: nat) {
    Peek(t, o + 6) == BACKSLASH && Peek(t, o + 7) == LOWER_U
  }

  /** What is wrong at position o of a string. */
  ghost predicate BadCharacter(t: Text, o: nat, code: ErrorCode) {
    match code
    case StringMissQuotationMark => Peek(t, o) == NUL
    case StringInvalidEncoding => 0 < Peek(t, o) < 0x20
    case StringEscapeInvalid => Peek(t, o) == BACKSLASH && !IsEscapeLetter(Peek(t, o + 1)) && Peek(t, o + 1) != LOWER_U
    case StringUnicodeEscapeInvalidHex =>
      && Peek(t, o) == BACKSLASH && Peek(t, o + 1) == LOWER_U
      && (NoQuad(t, o + 2) || (Continued(t, o) && NoQuad(t, o + 8) && LeadAt(t, o + 2)))
    case StringUnicodeSurrogateInvalid =>
      && Peek(t, o) == BACKSLASH && Peek(t, o + 1) == LOWER_U
      && (TrailAt(t, o + 2) || (LeadAt(t, o + 2) && (Continued(t, o) ==> OtherAt(t, o + 8))))
    case _ => false
  }

  ghost predicate BrokenString(t: Text, q: nat, o: nat, code: ErrorCode) {
    && q < o <= |t| && BadCharacter(t, o, code)
    && exists xs :: LegalPieces(xs) && t[q..o] == [QUOTE] + PiecesText(xs)
  }

  /** The code and its offset, told by what is due at the hole and by the bytes from there on. */
  ghost predicate Fault(env: Env, h: Hole, code: ErrorCode, o: nat) {
    var t, q := env.text, h.at;
    match code
    case ObjectMissName => h.place.NameDue? && o == q && Peek(t, o) != QUOTE && !IsSpace(Peek(t, o))
    case ObjectMissColon => h.place.ColonDue? && o == q && Peek(t, o) != COLON && !IsSpace(Peek(t, o))
    case ObjectMissCommaOrCurlyBracket =>
      h.place.MemberDelimiterDue? && o == q && Peek(t, o) !in {COMMA, RBRACE} && !IsSpace(Peek(t, o))
    case ArrayMissCommaOrSquareBracket =>
      h.place.DelimiterDue? && o == q && Peek(t, o) !in {COMMA, RBRACKET} && !IsSpace(Peek(t, o))
    case ValueInvalid => h.place.ValueDue? && NoValue(t, q, o)
    case NumberMissFraction => h.place.ValueDue? && NoFraction(t, q, o)
    case NumberMissExponent => h.place.ValueDue? && NoExponent(t, q, o)
    case NumberTooBig => h.place.ValueDue? && o == q && TooBig(env, q)
    case _ => (h.place.ValueDue? || h.place.NameDue?) && BrokenString(t, q, o, code)
  }

  predicate EndsWith(t: Text, o: nat, s: Text) {
    |s| <= o <= |t| && t[o - |s|..o] == s
  }

  ghost predicate StringEnds(t: Text, o: nat, s: Text) {
    exists xs :: LegalPieces(xs) && PiecesValue(xs) == s && EndsWith(t, o, StringText(xs))
  }

  ghost predicate NumeralAt(t: Text, o: nat, e: Event) {
    exists n :: LegalNumeral(n) && NumeralEvent(n) == e && At(t, o, NumeralText(n))
  }

  /**
    Where a refused event is reported: behind its token, but a number at its first byte, and a closing bracket that may
    follow a comma perhaps at the bracket.
   */
  ghost predicate StoppedAt(env: Env, e: Event, o: nat) {
    var t := env.text;
    if IsBracket(e) then
      || EndsWith(t, o, [BracketOf(e)])
      || (env.trailingCommas && (e.EndObject? || e.EndArray?) && Peek(t, o) == BracketOf(e))
    else
      match e
      case Null => EndsWith(t, o, NULL_TEXT)
      case Bool(b) => EndsWith(t, o, if b then TRUE_TEXT else FALSE_TEXT)
      case String(s) => StringEnds(t, o, s)
      case Key(s) => StringEnds(t, o, s)
      case _ => NumeralAt(t, o, e)
  }

  /** The handler refused the last event sent. */
  ghost predicate Stopped(env: Env, r: Run) {
    r.log != [] && !env.handler(r.log) && r.result.Error? && StoppedAt(env, r.log[|r.log| - 1], r.result.offset)
  }

  /**
    The run r' that started at r with `head` before it has failed: the handler refused the last event, or the text
    breaks off at the hole.
   */
  ghost predicate Breaks(env: Env, part: Part, head: Text, r: Run, r': Run, h: Hole) {
    && r'.result.Error?
    && if r'.result.code.Termination? then Stopped(env, r')
       else
         && r.pos <= h.at <= |env.text| && Fault(env, h, r'.result.code, r'.result.offset)
         && Completed(env, part, head + env.text[r.pos..h.at], h)
  }

  // ---------------------------------------------------------------- tokens

  /** A string that is refused is legal up to the offset of the error. */
  lemma {:induction false} BodyBreaks(t: Text, p: nat, acc: Text) returns (xs: seq<Piece>)
    requires p <= |t| && ScanBody(t, p, acc).Bad?
    ensures var r := ScanBody(t, p, acc);
            && LegalPieces(xs) && p <= r.offset <= |t| && t[p..r.offset] == PiecesText(xs)
            && BadCharacter(t, r.offset, r.code)
    decreases |t| - p
  {
    hide ScanBody, PieceText, PieceValue, LegalPiece, ScanEscape, BadCharacter;
    var o := ScanBody(t, p, acc).offset;
    if BreaksAt(t, p) {
      xs := [];
      CharacterBreaks(t, p, acc);
    } else {
      var x, q := PieceBefore(t, p, acc);
      var rest := BodyBreaks(t, q, acc + PieceValue(x));
      Prepended(x, rest);
      xs := [x] + rest;
      assert t[p..o] == t[p..q] + t[q..o];
    }
  }

  predicate BreaksAt(t: Text, p: nat) {
    Peek(t, p) < 0x20 || (p < |t| && t[p] == BACKSLASH && ScanEscape(t, p).Bad?)
  }

  lemma CharacterBreaks(t: Text, p: nat, acc: Text)
    requires p <= |t| && BreaksAt(t, p)
    ensures var r := ScanBody(t, p, acc); r.Bad? && r.offset == p && BadCharacter(t, p, r.code)
  {
    if Peek(t, p) == BACKSLASH {
      hide ScanEscape, BadCharacter;
      EscapeBreaks(t, p);
    }
  }

  /** The scan passes over a piece. */
  lemma PieceBefore(t: Text, p: nat, acc: Text) returns (x: Piece, q: nat)
    requires p <= |t| && ScanBody(t, p, acc).Bad? && !BreaksAt(t, p)
    ensures LegalPiece(x) && p < q <= |t| && t[p..q] == PieceText(x)
    ensures ScanBody(t, p, acc) == ScanBody(t, q, acc + PieceValue(x))
  {
    hide ScanEscape;
    if t[p] == BACKSLASH {
      x := EscapeSound(t, p);
      q := ScanEscape(t, p).end;
    } else {
      x, q := Plain(t[p]), p + 1;
      assert t[p..q] == [t[p]];
    }
  }

  lemma EscapeBreaks(t: Text, p: nat)
    requires p < |t| && Peek(t, p) == BACKSLASH && ScanEscape(t, p).Bad?
    ensures ScanEscape(t, p).offset == p && BadCharacter(t, p, ScanEscape(t, p).code)
  {
    hide QuadDenotes, FourHex, HexQuad, Encode, IsEscapeLetter;
    EscapeTable(Peek(t, p + 1));
    QuadIs(t, p + 2);
    QuadIs(t, p + 8);
  }

  lemma QuadIs(t: Text, p: nat)
    ensures !FourHex(t, p) ==> NoQuad(t, p)
    ensures FourHex(t, p) ==>
              var c := HexQuad(t, p);
              (IsLead(c) ==> LeadAt(t, p)) && (IsTrail(c) ==> TrailAt(t, p)) && (!IsTrail(c) ==> OtherAt(t, p))
  {
    hide FourHex, HexQuad, IsDigitFor;
    QuadDenoted(t, p);
  }

  lemma LiteralBreaks(t: Text, q: nat, s: Text)
    requires |s| > 0 && Peek(t, q) == s[0] && NUL !in s && Matching(t, q, s, 0) < |s|
    ensures BrokenWord(t, q, q + Matching(t, q, s, 0), s)
  {
    var k := Matching(t, q, s, 0);
    assert k > 0;
    assert Peek(t, q + (k - 1)) == s[k - 1];
    forall i | 0 <= i < k ensures t[q..q + k][i] == s[i] {
      assert Peek(t, q + i) == s[i];
    }
  }

  /** A number that is refused for its form is a numeral up to the offset of the error. */
  lemma NumeralBreaks(t: Text, q: nat)
    requires q <= |t| && ScanNumeral(t, q).Bad? && (q < |t| ==> t[q] !in {0x22, 0x5B, 0x66, 0x6E, 0x74, 0x7B})
    ensures var r := ScanNumeral(t, q);
            match r.code
            case ValueInvalid => NoValue(t, q, r.offset)
            case NumberMissFraction => NoFraction(t, q, r.offset)
            case NumberMissExponent => NoExponent(t, q, r.offset)
            case _ => false
  {
    var minus := Peek(t, q) == MINUS;
    var i0 := if minus then q + 1 else q;
    var whole := ScanInt(t, i0);
    if whole.Token? {
      var n := Numeral(minus, whole.value, None, None);
      SignThenDigits(t, q, n, whole.end);
      if ScanFrac(t, whole.end).Token? {
        FractionThenE(t, q, n, whole.end);
      } else {
        assert t[q..whole.end + 1] == t[q..whole.end] + [DOT];
      }
    }
  }

  lemma SignThenDigits(t: Text, q: nat, n: Numeral, end: nat)
    requires n.frac.None? && n.exp.None? && n.minus == (Peek(t, q) == MINUS)
    requires var i0 := if n.minus then q + 1 else q; i0 <= end <= |t| && t[i0..end] == n.digits
    ensures q <= end && t[q..end] == NumeralText(n)
  {
    var i0 := if n.minus then q + 1 else q;
    assert t[q..end] == t[q..i0] + t[i0..end];
  }

  lemma FractionThenE(t: Text, q: nat, n: Numeral, p: nat)
    requires q <= p <= |t| && LegalNumeral(n) && n.frac.None? && n.exp.None? && t[q..p] == NumeralText(n)
    requires ScanFrac(t, p).Token? && ScanExp(t, ScanFrac(t, p).end).Bad?
    ensures var r := ScanExp(t, ScanFrac(t, p).end);
            r.code == NumberMissExponent && NoExponent(t, q, r.offset)
  {
    hide NumeralText, LegalNumeral, NoExponent, AllDigits, ScanExp, ScanFrac;
    var frac := ScanFrac(t, p);
    var m := n.(frac := frac.value);
    WithFraction(t, p, n, m);
    assert t[q..frac.end] == t[q..p] + t[p..frac.end];
    ExponentBreaks(t, q, m, frac.end);
  }

  lemma WithFraction(t: Text, p: nat, n: Numeral, m: Numeral)
    requires p <= |t| && ScanFrac(t, p).Token? && LegalNumeral(n) && n.frac.None? && n.exp.None?
    requires m == n.(frac := ScanFrac(t, p).value)
    ensures p <= ScanFrac(t, p).end <= |t| && LegalNumeral(m)
    ensures NumeralText(m) == NumeralText(n) + t[p..ScanFrac(t, p).end]
  {
    ScanFracSound(t, p, m);
  }

  lemma ExponentBreaks(t: Text, q: nat, n: Numeral, f: nat)
    requires q <= f <= |t| && LegalNumeral(n) && n.exp.None? && t[q..f] == NumeralText(n) && ScanExp(t, f).Bad?
    ensures ScanExp(t, f).code == NumberMissExponent && NoExponent(t, q, ScanExp(t, f).offset)
  {
    hide NumeralText, LegalNumeral;
    var sign := SignAt(t, f + 1);
    var o := f + 1 + |sign|;
    assert t[f + 1..o] == sign;
    assert t[q..o] == t[q..f] + [t[f]] + t[f + 1..o];
  }

  // ---------------------------------------------------------------- the parser

  lemma ScalarBreaks(env: Env, r: Run) returns (h: Hole)
    requires Ready(env, r) && See(env, r) != LBRACE && See(env, r) != LBRACKET
    requires ParseValue(env, r).result.Error?
    ensures Breaks(env, ValuePart, [], r, ParseValue(env, r), h)
  {
    hide Completed, IsDue, Whole;
    h := Hole(ValueDue, r.pos, []);
    ValueMissing(env, r.pos);
    assert [] + env.text[r.pos..r.pos] == [];
    if ScanScalar(env, r.pos).Bad? {
      TokenBreaks(env, r.pos);
    } else {
      ScalarStops(env, r);
    }
  }

  lemma ScalarStops(env: Env, r: Run)
    requires Ready(env, r) && See(env, r) != LBRACE && See(env, r) != LBRACKET && ScanScalar(env, r.pos).Token?
    ensures ParseValue(env, r).result.Error? ==> Stopped(env, ParseValue(env, r))
  {
    hide TreeText, Legal, TreeEvents, StoppedAt, ScanScalar;
    var c := ScalarSound(env, r);
    var end := ScanScalar(env, r.pos).end;
    assert EndsWith(env.text, end, TreeText(c)) && At(env.text, r.pos, TreeText(c));
    TreeStops(env, c, r.pos, end);
  }

  /** One event and its token. */
  lemma TreeStops(env: Env, c: Tree, p: nat, end: nat)
    requires Legal(env, c) && |TreeEvents(env, c)| == 1 && EndsWith(env.text, end, TreeText(c))
    requires At(env.text, p, TreeText(c))
    ensures var e := TreeEvents(env, c)[0];
            StoppedAt(env, e, if e.Int? || e.Uint? || e.Int64? || e.Uint64? || e.Double? then p else end)
  {
    hide NumeralText, LegalNumeral, PiecesText, PiecesValue, LegalPieces, At, EndsWith;
    if c.Number? {
      NumberEventOf(c.n);
      assert NumeralAt(env.text, p, NumeralEvent(c.n));
    } else if c.Str? {
      assert StringEnds(env.text, end, PiecesValue(c.pieces));
    }
  }

  lemma NumberEventOf(n: Numeral)
    requires LegalNumeral(n)
    ensures var e := NumeralEvent(n); e.Int? || e.Uint? || e.Int64? || e.Uint64? || e.Double?
  {
  }

  /** A bracket whose event is sent from r', which has taken it or not. */
  lemma BracketStops(env: Env, r: Run, r': Run, e: Event, offset: nat)
    requires Ready(env, r) && IsBracket(e) && See(env, r) == BracketOf(e) && r'.result.NoError?
    requires offset == r.pos + 1 || (offset == r.pos && env.trailingCommas && (e.EndObject? || e.EndArray?))
    ensures var sent := Emit(env, r', e, offset);
            sent.pos == r'.pos && (sent.result.Error? ==> sent.result.code.Termination? && Stopped(env, sent))
  {
    if offset == r.pos + 1 {
      assert env.text[r.pos..r.pos + 1] == [env.text[r.pos]];
    }
  }

  lemma TokenBreaks(env: Env, q: nat)
    requires q <= |env.text| && Peek(env.text, q) != LBRACE && Peek(env.text, q) != LBRACKET && ScanScalar(env, q).Bad?
    ensures Fault(env, Hole(ValueDue, q, []), ScanScalar(env, q).code, ScanScalar(env, q).offset)
    ensures !ScanScalar(env, q).code.Termination?
  {
    hide NoValue, NoFraction, NoExponent, TooBig, BrokenString, Matching;
    var t := env.text;
    match Peek(t, q)
    case 0x6E => WordBreaks(t, q, NULL_TEXT);
    case 0x74 => WordBreaks(t, q, TRUE_TEXT);
    case 0x66 => WordBreaks(t, q, FALSE_TEXT);
    case 0x22 => StringBreaks(t, q);
    case _ => NumberBreaks(env, q);
  }

  lemma WordBreaks(t: Text, q: nat, s: Text)
    requires s == NULL_TEXT || s == TRUE_TEXT || s == FALSE_TEXT
    requires Peek(t, q) == s[0] && Matching(t, q, s, 0) < |s|
    ensures NoValue(t, q, q + Matching(t, q, s, 0))
  {
    hide BrokenWord, Matching;
    LiteralBreaks(t, q, s);
  }

  lemma StringBreaks(t: Text, q: nat)
    requires q < |t| && t[q] == QUOTE && ScanBody(t, q + 1, []).Bad?
    ensures var r := ScanBody(t, q + 1, []);
            BrokenString(t, q, r.offset, r.code) && BadCharacter(t, r.offset, r.code)
  {
    hide BadCharacter, LegalPieces, PiecesText, ScanBody;
    var xs := BodyBreaks(t, q + 1, []);
    var o := ScanBody(t, q + 1, []).offset;
    assert t[q..o] == [QUOTE] + t[q + 1..o];
  }

  lemma NumberBreaks(env: Env, q: nat)
    requires q <= |env.text| && Peek(env.text, q) !in {0x22, 0x5B, 0x66, 0x6E, 0x74, 0x7B} && ScanNumber(env, q).Bad?
    ensures Fault(env, Hole(ValueDue, q, []), ScanNumber(env, q).code, ScanNumber(env, q).offset)
    ensures !ScanNumber(env, q).code.Termination?
  {
    hide NoValue, NoFraction, NoExponent, BrokenString, ScanNumeral, MayFollow, NumeralText, Refused;
    if ScanNumeral(env.text, q).Bad? {
      NumeralBreaks(env.text, q);
    } else {
      ScanNumeralSound(env.text, q);
      ScanNumeralEnds(env.text, q);
      var n := ScanNumeral(env.text, q).value;
      assert At(env.text, q, NumeralText(n));
    }
  }

  /** A failed value breaks off somewhere inside it, unless the handler stopped the parse. */
  lemma {:induction false} ValueBreaks(env: Env, r: Run) returns (h: Hole)
    requires Ready(env, r) && ParseValue(env, r).result.Error?
    ensures Breaks(env, ValuePart, [], r, ParseValue(env, r), h)
    decreases |env.text| - r.pos, 1
  {
    hide Breaks, ParseArray, ParseObject, Scalar;
    if See(env, r) == LBRACKET {
      h := ArrayBreaks(env, r);
    } else if See(env, r) == LBRACE {
      h := ObjectBreaks(env, r);
    } else {
      h := ScalarBreaks(env, r);
    }
  }

  lemma {:induction false} ArrayBreaks(env: Env, r: Run) returns (h: Hole)
    requires Ready(env, r) && See(env, r) == LBRACKET && ParseArray(env, r).result.Error?
    ensures Breaks(env, ValuePart, [], r, ParseArray(env, r), h)
    decreases |env.text| - r.pos, 0
  {
    hide Fault, Completed, ParseElements, SkipSpace, AllSpace, IsSpace, Stopped, Emit;
    h := Hole(ValueDue, r.pos, []);
    var t := env.text;
    BracketStops(env, r, Take(r), StartArray, r.pos + 1);
    var r1 := Emit(env, Take(r), StartArray, r.pos + 1);
    if r1.result.NoError? {
      var r2 := Skip(env, r1);
      if See(env, r2) == RBRACKET {
        BracketStops(env, r2, Take(r2), EndArray(0), r2.pos + 1);
      } else {
        h := ElementsBreaks(env, r2, 0);
        if !ParseElements(env, r2, 0).result.code.Termination? {
          Unit(t[r2.pos..h.at]);
          OpenArray(env, t[r1.pos..r2.pos], t[r2.pos..h.at], h);
          assert [] + t[r.pos..h.at] == [LBRACKET] + t[r1.pos..r2.pos] + t[r2.pos..h.at];
        }
      }
    }
  }

  lemma {:induction false} ElementsBreaks(env: Env, r: Run, n: nat) returns (h: Hole)
    requires Ready(env, r) && ParseElements(env, r, n).result.Error?
    ensures Breaks(env, ElementsPart, [], r, ParseElements(env, r, n), h)
    decreases |env.text| - r.pos, 2
  {
    hide Fault, Completed, ParseValue, AfterElement, SkipSpace, AllSpace, IsSpace, TreeText, Legal;
    var t := env.text;
    var r1 := ParseValue(env, r);
    if r1.result.Error? {
      h := ValueBreaks(env, r);
      if !r1.result.code.Termination? {
        FirstElement(env, [] + t[r.pos..h.at], h);
        SameFault(env, h, h.closers + [RBRACKET], r1.result.code, r1.result.offset);
        h := h.(closers := h.closers + [RBRACKET]);
      }
    } else {
      var v := ValueSound(env, r);
      var r2 := Skip(env, r1);
      var after := t[r1.pos..r2.pos];
      h := AfterElementBreaks(env, r2, Inc(n), v, after);
      assert t[r.pos..r2.pos] == TreeText(v) + after;
      Further(env, ElementsPart, r, r2, AfterElement(env, r2, Inc(n)), h);
    }
  }

  lemma ThreeSlices(t: Text, a: nat, b: nat, c: nat, d: nat)
    requires a <= b <= c <= d <= |t|
    ensures t[a..d] == t[a..b] + t[b..c] + t[c..d]
  {
  }

  lemma CommaFirst(t: Text, p: nat, q: nat, at: nat)
    requires p < q <= at <= |t| && t[p] == COMMA
    ensures t[p..at] == [COMMA] + t[p + 1..q] + t[q..at]
  {
    assert t[p + 1..at] == t[p + 1..q] + t[q..at];
  }

  /** A fault does not depend on what comes behind it. */
  lemma SameFault(env: Env, h: Hole, closers: Text, code: ErrorCode, o: nat)
    requires Fault(env, h, code, o)
    ensures Fault(env, h.(closers := closers), code, o)
  {
    hide NoValue, NoFraction, NoExponent, TooBig, BrokenString;
  }

  lemma {:induction false} AfterElementBreaks(env: Env, r: Run, n: nat, v: Tree, after: Text) returns (h: Hole)
    requires Ready(env, r) && !IsSpace(See(env, r)) && AfterElement(env, r, n).result.Error?
    requires Legal(env, v) && AllSpace(after)
    ensures Breaks(env, ElementsPart, TreeText(v) + after, r, AfterElement(env, r, n), h)
    decreases |env.text| - r.pos, 0
  {
    hide Completed, ParseElements, SkipSpace, AllSpace, IsSpace, TreeText, Legal, Stopped, Emit;
    hide NoValue, NoFraction, NoExponent, TooBig, BrokenString;
    var t := env.text;
    h := Hole(DelimiterDue, r.pos, []);
    if See(env, r) == COMMA {
      var r1 := Skip(env, Take(r));
      if env.trailingCommas && See(env, r1) == RBRACKET {
        BracketStops(env, r1, r1, EndArray(n), r1.pos);
      } else {
        h := ElementsBreaks(env, r1, n);
        if !ParseElements(env, r1, n).result.code.Termination? {
          Unit(t[r1.pos..h.at]);
          ElementBefore(env, v, after, t[r.pos + 1..r1.pos], t[r1.pos..h.at], h);
          CommaFirst(t, r.pos, r1.pos, h.at);
          Associate3(TreeText(v) + after, [COMMA] + t[r.pos + 1..r1.pos], t[r1.pos..h.at]);
        }
      }
    } else if See(env, r) == RBRACKET {
      BracketStops(env, r, Take(r), EndArray(n), r.pos + 1);
    } else {
      DelimiterMissing(env, v, after, r.pos);
      assert t[r.pos..r.pos] == [];
      Unit(TreeText(v) + after);
    }
  }

  lemma {:induction false} ObjectBreaks(env: Env, r: Run) returns (h: Hole)
    requires Ready(env, r) && See(env, r) == LBRACE && ParseObject(env, r).result.Error?
    ensures Breaks(env, ValuePart, [], r, ParseObject(env, r), h)
    decreases |env.text| - r.pos, 0
  {
    hide Fault, Completed, ParseMembers, SkipSpace, AllSpace, IsSpace, Stopped, Emit;
    h := Hole(ValueDue, r.pos, []);
    var t := env.text;
    BracketStops(env, r, Take(r), StartObject, r.pos + 1);
    var r1 := Emit(env, Take(r), StartObject, r.pos + 1);
    if r1.result.NoError? {
      var r2 := Skip(env, r1);
      if See(env, r2) == RBRACE {
        BracketStops(env, r2, Take(r2), EndObject(0), r2.pos + 1);
      } else {
        h := MembersBreaks(env, r2, 0);
        if !ParseMembers(env, r2, 0).result.code.Termination? {
          Unit(t[r2.pos..h.at]);
          OpenObject(env, t[r1.pos..r2.pos], t[r2.pos..h.at], h);
          assert [] + t[r.pos..h.at] == [LBRACE] + t[r1.pos..r2.pos] + t[r2.pos..h.at];
        }
      }
    }
  }

  /** A name that is not there or not a string, or a colon that is not there. */
  lemma NameBreaks(env: Env, r: Run) returns (h: Hole)
    requires Ready(env, r) && !IsSpace(See(env, r)) && ParseName(env, r).result.Error?
    ensures Breaks(env, MembersPart, [], r, ParseName(env, r), h)
  {
    hide Completed, SkipSpace, AllSpace, IsSpace, ScanString, StoppedAt;
    hide NoValue, NoFraction, NoExponent, TooBig, BrokenString;
    var t := env.text;
    h := Hole(NameDue, r.pos, []);
    NameMissing(env, r.pos);
    assert t[r.pos..r.pos] == [];
    Unit<byte>([]);
    if See(env, r) == QUOTE {
      var r1 := ParseKey(env, r);
      if r1.result.NoError? {
        var r2 := Skip(env, r1);
        h := Hole(ColonDue, r2.pos, []);
        var pieces := KeySound(env, r);
        ColonMissing(env, pieces, t[r1.pos..r2.pos], r2.pos);
        assert [] + t[r.pos..r2.pos] == StringText(pieces) + t[r1.pos..r2.pos];
      } else if ScanString(t, r.pos, true).Bad? {
        KeyBreaks(env, r.pos);
      } else {
        KeyStops(env, r);
      }
    }
  }

  lemma KeySound(env: Env, r: Run) returns (pieces: seq<Piece>)
    requires Ready(env, r) && See(env, r) == QUOTE && ParseKey(env, r).result.NoError?
    ensures LegalPieces(pieces) && r.pos <= ParseKey(env, r).pos <= |env.text|
    ensures env.text[r.pos..ParseKey(env, r).pos] == StringText(pieces)
  {
    hide ScanBody, PiecesText, PiecesValue, LegalPieces;
    var t, end := env.text, ParseKey(env, r).pos;
    pieces := BodySound(t, r.pos + 1, []);
    assert t[r.pos..end] == [QUOTE] + t[r.pos + 1..end];
  }

  lemma KeyStops(env: Env, r: Run)
    requires Ready(env, r) && See(env, r) == QUOTE && ScanString(env.text, r.pos, true).Token?
    ensures ParseKey(env, r).result.Error? ==> Stopped(env, ParseKey(env, r))
  {
    hide ScanBody, PiecesText, PiecesValue, LegalPieces;
    var t, end := env.text, ScanString(env.text, r.pos, true).end;
    var pieces := BodySound(t, r.pos + 1, []);
    assert t[r.pos..end] == [QUOTE] + t[r.pos + 1..end];
    assert [] + PiecesValue(pieces) == PiecesValue(pieces);
    assert EndsWith(t, end, StringText(pieces));
    assert StringEnds(t, end, PiecesValue(pieces));
  }

  lemma KeyBreaks(env: Env, q: nat)
    requires q < |env.text| && env.text[q] == QUOTE && ScanString(env.text, q, true).Bad?
    ensures var r := ScanString(env.text, q, true); !r.code.Termination? && Fault(env, Hole(NameDue, q, []), r.code, r.offset)
  {
    hide BrokenString, ScanBody;
    StringBreaks(env.text, q);
  }

  lemma {:induction false} MembersBreaks(env: Env, r: Run, n: nat) returns (h: Hole)
    requires Ready(env, r) && !IsSpace(See(env, r)) && ParseMembers(env, r, n).result.Error?
    ensures Breaks(env, MembersPart, [], r, ParseMembers(env, r, n), h)
    decreases |env.text| - r.pos, 2
  {
    hide Breaks, ParseName, ParseValue, AfterMember, SkipSpace, AllSpace, IsSpace, TreeText, Legal, NameText, LegalName;
    var t := env.text;
    var r0 := ParseName(env, r);
    if r0.result.Error? {
      h := NameBreaks(env, r);
    } else {
      var name := NameSound(env, r);
      var r1 := ParseValue(env, r0);
      if r1.result.Error? {
        h := ValueBreaks(env, r0);
        h := MemberValueBreaks(env, r, r0, name, r1, h);
      } else {
        var v := ValueSound(env, r0);
        var r2 := Skip(env, r1);
        var after := t[r1.pos..r2.pos];
        h := AfterMemberBreaks(env, r2, Inc(n), name, v, after);
        ThreeSlices(t, r.pos, r0.pos, r1.pos, r2.pos);
        Further(env, MembersPart, r, r2, AfterMember(env, r2, Inc(n)), h);
      }
    }
  }

  lemma MemberValueBreaks(env: Env, r: Run, r0: Run, name: Name, r1: Run, inner: Hole) returns (h: Hole)
    requires r.pos <= r0.pos <= |env.text| && LegalName(name) && Between(env, r, r0) == NameText(name)
    requires Breaks(env, ValuePart, [], r0, r1, inner)
    ensures Breaks(env, MembersPart, [], r, r1, h)
  {
    hide Fault, Completed, NameText, LegalName;
    h := inner.(closers := inner.closers + [RBRACE]);
    if !r1.result.code.Termination? {
      var t := env.text;
      Unit(t[r0.pos..h.at]);
      FirstMember(env, name, t[r0.pos..h.at], inner);
      SameFault(env, inner, h.closers, r1.result.code, r1.result.offset);
      assert [] + t[r.pos..h.at] == NameText(name) + t[r0.pos..h.at];
    }
  }

  /** What was read before a run that breaks off belongs to the text before the hole. */
  lemma Further(env: Env, part: Part, r: Run, r1: Run, r': Run, h: Hole)
    requires r.pos <= r1.pos <= |env.text| && Breaks(env, part, env.text[r.pos..r1.pos], r1, r', h)
    ensures Breaks(env, part, [], r, r', h)
  {
    hide Fault, Completed;
    var t := env.text;
    if !r'.result.code.Termination? {
      assert [] + t[r.pos..h.at] == t[r.pos..r1.pos] + t[r1.pos..h.at];
    }
  }

  lemma {:induction false} AfterMemberBreaks(env: Env, r: Run, n: nat, name: Name, v: Tree, after: Text) returns (h: Hole)
    requires Ready(env, r) && !IsSpace(See(env, r)) && AfterMember(env, r, n).result.Error?
    requires LegalName(name) && Legal(env, v) && AllSpace(after)
    ensures Breaks(env, MembersPart, NameText(name) + TreeText(v) + after, r, AfterMember(env, r, n), h)
    decreases |env.text| - r.pos, 0
  {
    hide Completed, ParseMembers, SkipSpace, AllSpace, IsSpace, TreeText, Legal, NameText, LegalName, Stopped, Emit;
    hide NoValue, NoFraction, NoExponent, TooBig, BrokenString;
    var t := env.text;
    var head := NameText(name) + TreeText(v) + after;
    h := Hole(MemberDelimiterDue, r.pos, []);
    if See(env, r) == COMMA {
      var r1 := Skip(env, Take(r));
      if env.trailingCommas && See(env, r1) == RBRACE {
        BracketStops(env, r1, r1, EndObject(n), r1.pos);
      } else {
        h := MembersBreaks(env, r1, n);
        if !ParseMembers(env, r1, n).result.code.Termination? {
          Unit(t[r1.pos..h.at]);
          MemberBefore(env, name, v, after, t[r.pos + 1..r1.pos], t[r1.pos..h.at], h);
          CommaFirst(t, r.pos, r1.pos, h.at);
          Associate3(head, [COMMA] + t[r.pos + 1..r1.pos], t[r1.pos..h.at]);
        }
      }
    } else if See(env, r) == RBRACE {
      BracketStops(env, r, Take(r), EndObject(n), r.pos + 1);
    } else {
      MemberDelimiterMissing(env, name, v, after, r.pos);
      assert t[r.pos..r.pos] == [];
      Unit(head);
    }
  }

  // ---------------------------------------------------------------- whole texts

  /**
    What the error of a parse tells. The document is empty when there is only white space; something follows the root
    when the text up to the offset is a JSON text and other than white space comes next; the handler refused the last
    event sent; or the text breaks off at a place where the code names what is due.
   */
  ghost predicate Explained(env: Env, r: Run) {
    var t := env.text;
    && r.result.Error?
    && var o := r.result.offset;
       match r.result.code
       case DocumentEmpty => o <= |t| && AllSpace(t[..o]) && Peek(t, o) == NUL
       case DocumentRootNotSingular =>
         o < |t| && !IsSpace(t[o]) && t[o] != NUL && !env.stopWhenDone && exists c :: IsJsonText(env, t[..o], c)
       case Termination => Stopped(env, r)
       case _ =>
         exists h: Hole ::
           h.at <= |t| && Fault(env, h, r.result.code, o) && Completed(env, ValuePart, t[..h.at], h)
  }

  /** Every error of a parse is explained. */
  lemma ErrorsExplained(env: Env)
    requires Parse(env).result.Error?
    ensures Explained(env, Parse(env))
  {
    hide ParseValue, SkipSpace, Fault, Completed, AllSpace, IsSpace, TreeText, Legal;
    var t := env.text;
    var r := Skip(env, START);
    assert t[0..r.pos] == t[..r.pos];
    if See(env, r) != NUL {
      var r1 := ParseValue(env, r);
      if r1.result.Error? {
        var h := ValueBreaks(env, r);
        if !r1.result.code.Termination? {
          RootBreaks(env, r, r1, h);
        }
      } else {
        var c := ValueSound(env, r);
        var r2 := Skip(env, r1);
        assert t[..r2.pos] == t[..r.pos] + TreeText(c) + t[r1.pos..r2.pos];
        assert IsJsonText(env, t[..r2.pos], c);
      }
    }
  }

  lemma RootBreaks(env: Env, r: Run, r1: Run, h: Hole)
    requires Ready(env, r) && AllSpace(env.text[..r.pos]) && Breaks(env, ValuePart, [], r, r1, h)
    requires !r1.result.code.Termination?
    ensures h.at <= |env.text| && Completed(env, ValuePart, env.text[..h.at], h)
    ensures !r1.result.code.DocumentEmpty? && !r1.result.code.DocumentRootNotSingular?
  {
    hide Completed, AllSpace;
    var t := env.text;
    Unit(t[r.pos..h.at]);
    SpaceBefore(env, t[..r.pos], t[r.pos..h.at], h);
    assert t[..h.at] == t[..r.pos] + t[r.pos..h.at];
  }

  lemma SpaceBefore(env: Env, before: Text, s: Text, h: Hole)
    requires AllSpace(before) && Completed(env, ValuePart, s, h)
    ensures Completed(env, ValuePart, before + s, h)
  {
    hide *;
    forall t | Whole(env, ValuePart, t) ensures Whole(env, ValuePart, before + t + []) {
      var g, c := ValueWhole(env, t);
      SpaceMore(before, g);
      WholeValue(env, before + g, c);
      Associate3(before, g, TreeText(c));
      Unit(before + t);
    }
    Lifted(env, ValuePart, s, h, ValuePart, before, []);
    Unit(h.closers);
  }

  // ---------------------------------------------------------------- the handler's answers

  /** The handler has taken every event but perhaps the last one, which then has stopped the parse. */
  ghost predicate Answered(env: Env, r: Run) {
    && (forall k | 0 < k < |r.log| :: env.handler(r.log[..k]))
    && (r.log != [] && !env.handler(r.log) ==> r.result.Error? && r.result.code.Termination?)
  }

  lemma EventAnswered(env: Env, r: Run, e: Event, offset: nat)
    requires Answered(env, r) && r.result.NoError?
    ensures Answered(env, Emit(env, r, e, offset))
  {
    var log := r.log + [e];
    forall k | 0 < k < |log| ensures env.handler(log[..k]) {
      if k < |r.log| {
        assert log[..k] == r.log[..k];
      } else {
        assert log[..k] == r.log;
      }
    }
  }

  lemma ScalarAnswered(env: Env, r: Run, token: Lexeme<Event>)
    requires Ready(env, r) && Answered(env, r) && (token.Token? ==> r.pos < token.end <= |env.text|)
    ensures Answered(env, Scalar(env, r, token))
  {
    hide Answered;
    if token.Token? {
      var e := token.value;
      MovedAnswered(env, r, token.end);
      EventAnswered(env, r.(pos := token.end), e,
                    if e.Int? || e.Uint? || e.Int64? || e.Uint64? || e.Double? then r.pos else token.end);
    } else {
      FailedAnswered(env, r, token.code, token.offset);
    }
  }

  lemma MovedAnswered(env: Env, r: Run, pos: nat)
    ensures Answered(env, r.(pos := pos)) <==> Answered(env, r)
  {
  }

  lemma FailedAnswered(env: Env, r: Run, code: ErrorCode, offset: nat)
    requires Answered(env, r) && r.result.NoError?
    ensures Answered(env, Fail(r, code, offset))
  {
  }

  lemma {:induction false} ValueAnswered(env: Env, r: Run)
    requires Ready(env, r) && Answered(env, r)
    ensures Answered(env, ParseValue(env, r))
    decreases |env.text| - r.pos, 1
  {
    hide Answered, ParseArray, ParseObject, Scalar;
    if See(env, r) == LBRACKET {
      ArrayAnswered(env, r);
    } else if See(env, r) == LBRACE {
      ObjectAnswered(env, r);
    } else {
      ScalarAnswered(env, r, ScanScalar(env, r.pos));
    }
  }

  lemma {:induction false} ArrayAnswered(env: Env, r: Run)
    requires Ready(env, r) && Answered(env, r) && See(env, r) == LBRACKET
    ensures Answered(env, ParseArray(env, r))
    decreases |env.text| - r.pos, 0
  {
    hide Answered, ParseElements, SkipSpace;
    MovedAnswered(env, r, r.pos + 1);
    EventAnswered(env, Take(r), StartArray, r.pos + 1);
    var r1 := Emit(env, Take(r), StartArray, r.pos + 1);
    if r1.result.NoError? {
      var r2 := Skip(env, r1);
      MovedAnswered(env, r1, r2.pos);
      if See(env, r2) == RBRACKET {
        MovedAnswered(env, r2, r2.pos + 1);
        EventAnswered(env, Take(r2), EndArray(0), r2.pos + 1);
      } else {
        ElementsAnswered(env, r2, 0);
      }
    }
  }

  lemma {:induction false} ElementsAnswered(env: Env, r: Run, n: nat)
    requires Ready(env, r) && Answered(env, r)
    ensures Answered(env, ParseElements(env, r, n))
    decreases |env.text| - r.pos, 2
  {
    hide Answered, ParseValue, AfterElement, SkipSpace;
    ValueAnswered(env, r);
    var r1 := ParseValue(env, r);
    if r1.result.NoError? {
      var r2 := Skip(env, r1);
      MovedAnswered(env, r1, r2.pos);
      AfterElementAnswered(env, r2, Inc(n));
    }
  }

  lemma {:induction false} AfterElementAnswered(env: Env, r: Run, n: nat)
    requires Ready(env, r) && Answered(env, r)
    ensures Answered(env, AfterElement(env, r, n))
    decreases |env.text| - r.pos, 0
  {
    hide Answered, ParseElements, SkipSpace;
    MovedAnswered(env, r, r.pos + 1);
    if See(env, r) == COMMA {
      var r1 := Skip(env, Take(r));
      MovedAnswered(env, r, r1.pos);
      if env.trailingCommas && See(env, r1) == RBRACKET {
        EarlyAnswered(env, r1, EndArray(n));
      } else {
        ElementsAnswered(env, r1, n);
      }
    } else if See(env, r) == RBRACKET {
      EventAnswered(env, Take(r), EndArray(n), r.pos + 1);
    } else {
      FailedAnswered(env, r, ArrayMissCommaOrSquareBracket, r.pos);
    }
  }

  lemma EarlyAnswered(env: Env, r: Run, e: Event)
    requires Ready(env, r) && r.pos < |env.text| && Answered(env, r)
    ensures Answered(env, EarlyClose(env, r, e))
  {
    hide Answered;
    EventAnswered(env, r, e, r.pos);
    MovedAnswered(env, Emit(env, r, e, r.pos), r.pos + 1);
  }

  lemma {:induction false} ObjectAnswered(env: Env, r: Run)
    requires Ready(env, r) && Answered(env, r) && See(env, r) == LBRACE
    ensures Answered(env, ParseObject(env, r))
    decreases |env.text| - r.pos, 0
  {
    hide Answered, ParseMembers, SkipSpace;
    MovedAnswered(env, r, r.pos + 1);
    EventAnswered(env, Take(r), StartObject, r.pos + 1);
    var r1 := Emit(env, Take(r), StartObject, r.pos + 1);
    if r1.result.NoError? {
      var r2 := Skip(env, r1);
      MovedAnswered(env, r1, r2.pos);
      if See(env, r2) == RBRACE {
        MovedAnswered(env, r2, r2.pos + 1);
        EventAnswered(env, Take(r2), EndObject(0), r2.pos + 1);
      } else {
        MembersAnswered(env, r2, 0);
      }
    }
  }

  lemma NameAnswered(env: Env, r: Run)
    requires Ready(env, r) && Answered(env, r)
    ensures Answered(env, ParseName(env, r))
  {
    hide Answered, SkipSpace, Scalar, ScanString;
    if See(env, r) != QUOTE {
      FailedAnswered(env, r, ObjectMissName, r.pos);
    } else {
      ScalarAnswered(env, r, ScanString(env.text, r.pos, true));
      var r1 := ParseKey(env, r);
      if r1.result.NoError? {
        var r2 := Skip(env, r1);
        MovedAnswered(env, r1, r2.pos);
        if See(env, r2) != COLON {
          FailedAnswered(env, r2, ObjectMissColon, r2.pos);
        } else {
          MovedAnswered(env, r2, Skip(env, Take(r2)).pos);
        }
      }
    }
  }

  lemma {:induction false} MembersAnswered(env: Env, r: Run, n: nat)
    requires Ready(env, r) && Answered(env, r)
    ensures Answered(env, ParseMembers(env, r, n))
    decreases |env.text| - r.pos, 2
  {
    hide Answered, ParseName, ParseValue, AfterMember, SkipSpace;
    NameAnswered(env, r);
    var r0 := ParseName(env, r);
    if r0.result.NoError? {
      ValueAnswered(env, r0);
      var r1 := ParseValue(env, r0);
      if r1.result.NoError? {
        var r2 := Skip(env, r1);
        MovedAnswered(env, r1, r2.pos);
        AfterMemberAnswered(env, r2, Inc(n));
      }
    }
  }

  lemma {:induction false} AfterMemberAnswered(env: Env, r: Run, n: nat)
    requires Ready(env, r) && Answered(env, r)
    ensures Answered(env, AfterMember(env, r, n))
    decreases |env.text| - r.pos, 0
  {
    hide Answered, ParseMembers, SkipSpace;
    MovedAnswered(env, r, r.pos + 1);
    if See(env, r) == COMMA {
      var r1 := Skip(env, Take(r));
      MovedAnswered(env, r, r1.pos);
      if env.trailingCommas && See(env, r1) == RBRACE {
        EarlyAnswered(env, r1, EndObject(n));
      } else {
        MembersAnswered(env, r1, n);
      }
    } else if See(env, r) == RBRACE {
      EventAnswered(env, Take(r), EndObject(n), r.pos + 1);
    } else {
      FailedAnswered(env, r, ObjectMissCommaOrCurlyBracket, r.pos);
    }
  }

  /** Every event is put to the handler, and the parse goes on exactly as long as it takes them. */
  lemma HandlerAsked(env: Env)
    ensures var r := Parse(env);
            && (forall k | 0 < k < |r.log| :: env.handler(r.log[..k]))
            && (r.log != [] ==> (r.result.Error? && r.result.code.Termination? <==> !env.handler(r.log)))
  {
    hide ParseValue, SkipSpace, Explained;
    var r := Skip(env, START);
    if See(env, r) != NUL {
      ValueAnswered(env, r);
    }
    if Parse(env).result.Error? && Parse(env).result.code.Termination? {
      ErrorsExplained(env);
      TerminationMeans(env, Parse(env));
    }
  }

  lemma TerminationMeans(env: Env, r: Run)
    requires Explained(env, r) && r.result.code.Termination?
    ensures !env.handler(r.log)
  {
    hide Fault, Completed, StoppedAt;
  }
}
