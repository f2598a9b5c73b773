/**
  The reader as an object: stream position, events sent, parse result, explicit stack and iterative state are
  fields that every method updates in place. Each method is proved to do what the parser functions say.
 */
module Reader {
  import opened Bytes
  import opened Encodings
  import opened Strings
  import opened Events
  import opened Numbers
  import opened RecursiveParser
  import opened IterativeParser

  class GenericReader {
    const env: Env
    var pos: nat
    var log: seq<Event>
    var result: ParseResult
    var stack: seq<Frame>
    var state: State

    constructor (env: Env)
      ensures this.env == env && Now() == START && stack == [] && state == Start
    {
      this.env := env;
      pos, log, result := 0, [], NoError;
      stack, state := [], Start;
    }

    function Now(): Run
      reads this
    {
      Run(pos, log, result)
    }

    function Snapshot(): Machine
      reads this
    {
      Machine(state, stack, Now())
    }

    predicate IsReady()
      reads this
    {
      Ready(env, Now())
    }

    /** The outcome r was reached; where the stream stands after an error is not observed. */
    predicate Reached(r: Run)
      reads this
    {
      pos <= |env.text| && log == r.log && result == r.result && (result.NoError? ==> pos == r.pos)
    }

    function Look(): byte
      reads this
    {
      Peek(env.text, pos)
    }

    // -------------------------------------------------------------- stream and handler

    method SkipWhitespace()
      requires IsReady()
      modifies this`pos
      ensures Now() == Skip(env, old(Now()))
    {
      ghost var start := pos;
      while IsSpace(Look())
        invariant start <= pos <= |env.text|
        invariant SkipSpace(env.text, pos) == SkipSpace(env.text, start)
        decreases |env.text| - pos
      {
        pos := pos + 1;
      }
    }

    method Consume(wanted: byte) returns (taken: bool)
      requires wanted != NUL
      modifies this`pos
      ensures taken == (old(Look()) == wanted)
      ensures pos == if taken then old(pos) + 1 else old(pos)
    {
      taken := Look() == wanted;
      if taken {
        pos := pos + 1;
      }
    }

    method SetError(code: ErrorCode, offset: nat)
      requires result.NoError?
      modifies this`result
      ensures result == Error(code, offset)
    {
      result := Error(code, offset);
    }

    /** Call the handler with one event. */
    method Send(e: Event, offset: nat)
      requires result.NoError?
      modifies this`log, this`result
      ensures Now() == Emit(env, old(Now()), e, offset)
    {
      log := log + [e];
      if !env.handler(log) {
        SetError(Termination, offset);
      }
    }

    // -------------------------------------------------------------- strings

    method ParseHex4(escapeOffset: nat) returns (codepoint: nat)
      requires IsReady()
      modifies this`pos, this`result
      ensures FourHex(env.text, old(pos)) ==>
                codepoint == HexQuad(env.text, old(pos)) && pos == old(pos) + 4 && result.NoError?
      ensures !FourHex(env.text, old(pos)) ==> result == Error(StringUnicodeEscapeInvalidHex, escapeOffset)
      ensures pos <= |env.text|
    {
      ghost var start := pos;
      codepoint := 0;
      for i := 0 to 4
        invariant pos == start + i <= |env.text| && result.NoError?
        invariant AllHex(env.text, start, i) && codepoint == HexRun(env.text, start, i)
      {
        var c := Look();
        codepoint := codepoint * 16 + c;
        if 0x30 <= c <= 0x39 {
          codepoint := codepoint - 0x30;
        } else if 0x41 <= c <= 0x46 {
          codepoint := codepoint - (0x41 - 10);
        } else if 0x61 <= c <= 0x66 {
          codepoint := codepoint - (0x61 - 10);
        } else {
          HexFails(env.text, start, i, 4);
          FourIsQuad(env.text, start);
          SetError(StringUnicodeEscapeInvalidHex, escapeOffset);
          return;
        }
        pos := pos + 1;
      }
      FourIsQuad(env.text, start);
    }

    /** The escape at the backslash; `os` is what it denotes. */
    method ParseEscape() returns (os: Text)
      requires IsReady() && Look() == BACKSLASH
      modifies this`pos, this`result
      ensures pos <= |env.text|
      ensures match ScanEscape(env.text, old(pos))
              case Token(end, bytes) => pos == end && os == bytes && result.NoError?
              case Bad(code, offset) => result == Error(code, offset)
    {
      hide HexQuad, FourHex, Encode;
      var escapeOffset := pos;
      os := [];
      pos := pos + 1;
      var e := Look();
      if Unescape(e) != 0 {
        pos := pos + 1;
        os := [Unescape(e)];
      } else if e == LOWER_U {
        pos := pos + 1;
        var codepoint := ParseHex4(escapeOffset);
        if result.Error? { return; }
        if 0xD800 <= codepoint <= 0xDFFF {
          if codepoint <= 0xDBFF {
            var first := Consume(BACKSLASH);
            var second := false;
            if first { second := Consume(LOWER_U); }
            if !second {
              SetError(StringUnicodeSurrogateInvalid, escapeOffset);
              return;
            }
            var codepoint2 := ParseHex4(escapeOffset);
            if result.Error? { return; }
            if codepoint2 < 0xDC00 || codepoint2 > 0xDFFF {
              SetError(StringUnicodeSurrogateInvalid, escapeOffset);
              return;
            }
            codepoint := (codepoint - 0xD800) * 0x400 + (codepoint2 - 0xDC00) + 0x1_0000;
          } else {
            SetError(StringUnicodeSurrogateInvalid, escapeOffset);
            return;
          }
        }
        os := Encode(codepoint);
      } else {
        SetError(StringEscapeInvalid, escapeOffset);
      }
    }

    method ParseStringToStream() returns (os: Text)
      requires IsReady()
      modifies this`pos, this`result
      ensures pos <= |env.text|
      ensures match ScanBody(env.text, old(pos), [])
              case Token(end, s) => pos == end && os == s && result.NoError?
              case Bad(code, offset) => result == Error(code, offset)
    {
      ghost var whole := ScanBody(env.text, pos, []);
      os := [];
      while true
        invariant pos <= |env.text| && result.NoError?
        invariant ScanBody(env.text, pos, os) == whole
        decreases |env.text| - pos
      {
        var c := Look();
        if c == BACKSLASH {
          var bytes := ParseEscape();
          if result.Error? { return; }
          os := os + bytes;
        } else if c == QUOTE {
          pos := pos + 1;
          return;
        } else if c < 0x20 {
          SetError(if c == NUL then StringMissQuotationMark else StringInvalidEncoding, pos);
          return;
        } else {
          os := os + [c];
          pos := pos + 1;
        }
      }
    }

    method ParseString(isKey: bool)
      requires IsReady() && Look() == QUOTE
      modifies this`pos, this`log, this`result
      ensures Reached(Scalar(env, old(Now()), ScanString(env.text, old(pos), isKey)))
    {
      pos := pos + 1;
      var s := ParseStringToStream();
      if result.NoError? {
        Send(if isKey then Key(s) else String(s), pos);
      }
    }

    // -------------------------------------------------------------- literals

    method ParseLiteral(s: Text, e: Event)
      requires IsReady() && |s| > 0 && NUL !in s && Look() == s[0]
      requires e.Null? || e.Bool?
      modifies this`pos, this`log, this`result
      ensures Reached(Scalar(env, old(Now()), ScanLiteral(env.text, old(pos), s, e)))
    {
      ghost var start := pos;
      pos := pos + 1;
      for k := 1 to |s|
        invariant pos == start + k <= |env.text| && result.NoError? && log == old(log)
        invariant Matching(env.text, start, s, k) == Matching(env.text, start, s, 0)
      {
        var taken := Consume(s[k]);
        if !taken {
          assert Matching(env.text, start, s, k) == k;
          SetError(ValueInvalid, pos);
          return;
        }
      }
      Send(e, pos);
    }

    // -------------------------------------------------------------- numbers

    /**
      One of the four integer loops: take digits while the value stays within `limit * 10 + last`, the largest
      value of the word being filled. `stopped` says that the next digit would pass it.
     */
    method TakeDigits(ghost i0: nat, v0: nat, limit: nat, last: byte) returns (v: nat, taken: nat, stopped: bool)
      requires i0 < pos <= |env.text| && IsDigit(last)
      requires AllDigits(env.text[i0..pos]) && v0 == Value(env.text[i0..pos]) <= limit * 10 + (last - 0x30)
      modifies this`pos
      ensures pos == old(pos) + taken
      ensures old(pos) <= pos <= DigitsEnd(env.text, old(pos)) == DigitsEnd(env.text, pos)
      ensures AllDigits(env.text[i0..pos]) && v == Value(env.text[i0..pos]) <= limit * 10 + (last - 0x30)
      ensures stopped ==> v >= limit && IsDigit(Look()) && v * 10 + (Look() - 0x30) > limit * 10 + (last - 0x30)
      ensures !stopped ==> pos == DigitsEnd(env.text, pos)
    {
      hide Value, DigitsEnd;
      v, taken, stopped := v0, 0, false;
      while IsDigit(Look())
        invariant pos == old(pos) + taken
        invariant old(pos) <= pos <= DigitsEnd(env.text, old(pos)) == DigitsEnd(env.text, pos) <= |env.text|
        invariant AllDigits(env.text[i0..pos]) && v == Value(env.text[i0..pos]) <= limit * 10 + (last - 0x30)
        decreases |env.text| - pos
      {
        if v >= limit && (v != limit || Look() > last) {
          stopped := true;
          return;
        }
        ValueStep(env.text, i0, pos);
        FirstOfRun(env.text, pos);
        v := v * 10 + (Look() - 0x30);
        pos := pos + 1;
        taken := taken + 1;
      }
      EndOfRun(env.text, pos);
    }

    /**
      The integer part: its value, whether 64 bits hold it, and `significandDigit`. With `use64` the value left
      the 32-bit word; with `useDouble` it left the 64-bit word and the digits behind are read as a double.
     */
    method ParseInt(minus: bool) returns (i64: nat, use64: bool, useDouble: bool, significandDigit: nat)
      requires IsReady()
      modifies this`pos, this`result
      ensures pos <= |env.text|
      ensures match ScanInt(env.text, old(pos))
              case Bad(code, offset) => result == Error(code, offset)
              case Token(end, ds) =>
                && result.NoError? && pos == end
                && (useDouble <==> Value(ds) > (if minus then 0x8000_0000_0000_0000 else 0xFFFF_FFFF_FFFF_FFFF))
                && (!useDouble ==> i64 == Value(ds) && significandDigit == |ds| - 1)
                && (use64 <==> Value(ds) > (if minus then 0x8000_0000 else 0xFFFF_FFFF))
                && (useDouble ==> significandDigit >= 17)
    {
      hide Value, DigitsEnd;
      i64, use64, useDouble, significandDigit := 0, false, false, 0;
      ghost var i0 := pos;
      if Look() == ZERO {
        OneDigit(env.text, i0);
        pos := pos + 1;
      } else if 0x31 <= Look() <= 0x39 {
        i64, use64, useDouble, significandDigit := ParseDigits(minus);
      } else {
        SetError(ValueInvalid, pos);
      }
    }

    /** An integer part that starts with a digit other than zero. */
    method ParseDigits(minus: bool) returns (i64: nat, use64: bool, useDouble: bool, significandDigit: nat)
      requires IsReady() && IsDigit(Look())
      modifies this`pos
      ensures pos == DigitsEnd(env.text, old(pos)) && AllDigits(env.text[old(pos)..pos])
      ensures var v := Value(env.text[old(pos)..pos]);
              && (useDouble <==> v > (if minus then 0x8000_0000_0000_0000 else 0xFFFF_FFFF_FFFF_FFFF))
              && (!useDouble ==> i64 == v && significandDigit == pos - old(pos) - 1)
              && (use64 <==> v > (if minus then 0x8000_0000 else 0xFFFF_FFFF))
              && (useDouble ==> significandDigit >= 17)
    {
      hide Value, DigitsEnd;
      ghost var i0, end := pos, DigitsEnd(env.text, pos);
      OneDigit(env.text, i0);
      FirstOfRun(env.text, i0);
      useDouble := false;
      i64 := Look() - 0x30;
      pos := pos + 1;
      var last: byte := if minus then 0x38 else 0x35;
      i64, significandDigit, use64 := TakeDigits(i0, i64, if minus then 214748364 else 429496729, last);
      if use64 {
        RunPasses(env.text, i0, pos, end, if minus then 0x8000_0000 else 0xFFFF_FFFF);
        var more;
        i64, more, useDouble := TakeDigits(i0, i64, if minus then 0x0CCC_CCCC_CCCC_CCCC else 0x1999_9999_9999_9999, last);
        significandDigit := significandDigit + more;
        if useDouble {
          LongValue(env.text[i0..pos]);
          RunPasses(env.text, i0, pos, end, if minus then 0x8000_0000_0000_0000 else 0xFFFF_FFFF_FFFF_FFFF);
          SkipDigits();
        }
      }
    }

    /** The rest of a digit run whose value is not kept. */
    method SkipDigits()
      requires pos <= |env.text|
      modifies this`pos
      ensures pos == DigitsEnd(env.text, old(pos))
    {
      while IsDigit(Look())
        invariant old(pos) <= pos <= |env.text| && DigitsEnd(env.text, pos) == DigitsEnd(env.text, old(pos))
        decreases |env.text| - pos
      {
        pos := pos + 1;
      }
    }

    /** The fraction, if there is one; afterwards the number is a double and `expFrac` is its decimal shift. */
    method ParseFrac(i64: nat, digits: nat, isDouble: bool) returns (useDouble: bool, expFrac: int)
      requires IsReady() && (isDouble ==> digits >= 17)
      modifies this`pos, this`result
      ensures pos <= |env.text| && expFrac <= 0
      ensures match ScanFrac(env.text, old(pos))
              case Bad(code, offset) => result == Error(code, offset)
              case Token(end, None) => result.NoError? && pos == end && useDouble == isDouble && expFrac == 0
              case Token(end, Some(ds)) =>
                && result.NoError? && pos == end && useDouble
                && expFrac == if isDouble then 0 else TakeFraction(ds, Significand(i64, digits, 0)).expFrac
    {
      useDouble, expFrac := isDouble, 0;
      var dot := Consume(DOT);
      if dot {
        if !IsDigit(Look()) {
          SetError(NumberMissFraction, pos);
          return;
        }
        ghost var p0, end := pos, DigitsEnd(env.text, pos);
        var s := Significand(i64, digits, 0);
        if isDouble {
          SlowIdle(env.text[p0..end], s);
        } else {
          s := FastDigits(s);
          useDouble := true;
        }
        s := SlowDigits(s);
        expFrac := s.expFrac;
        FractionShift(env.text[p0..end], Significand(i64, digits, 0));
      }
    }

    /** Fraction digits go into the 64-bit significand while it is below 2^53. */
    method FastDigits(s0: Significand) returns (s: Significand)
      requires pos <= |env.text|
      modifies this`pos
      ensures old(pos) <= pos <= |env.text| && pos <= DigitsEnd(env.text, pos) == DigitsEnd(env.text, old(pos))
      ensures AllDigits(env.text[old(pos)..DigitsEnd(env.text, pos)]) && AllDigits(env.text[pos..DigitsEnd(env.text, pos)])
      ensures TakeFraction(env.text[old(pos)..DigitsEnd(env.text, pos)], s0) == Slow(env.text[pos..DigitsEnd(env.text, pos)], s)
    {
      hide DigitsEnd, TakeFraction, Slow, FastStep;
      s := s0;
      ghost var end := DigitsEnd(env.text, pos);
      while IsDigit(Look()) && s.i64 <= FAST_LIMIT
        invariant old(pos) <= pos <= end && DigitsEnd(env.text, pos) == end && AllDigits(env.text[pos..end])
        invariant TakeFraction(env.text[pos..end], s) == TakeFraction(env.text[old(pos)..end], s0)
        decreases end - pos
      {
        FirstOfRun(env.text, pos);
        TakeFractionStep(env.text[pos..end], s);
        assert env.text[pos..end][1..] == env.text[pos + 1..end];
        s := FastStep(s, Look());
        pos := pos + 1;
      }
      TakeFractionStep(env.text[pos..end], s);
    }

    /** The rest of the fraction; digits behind the 17th significant one are dropped. */
    method SlowDigits(s0: Significand) returns (s: Significand)
      requires pos <= |env.text|
      modifies this`pos
      ensures pos == DigitsEnd(env.text, old(pos)) && s == Slow(env.text[old(pos)..pos], s0)
    {
      s := s0;
      ghost var end := DigitsEnd(env.text, pos);
      while IsDigit(Look())
        invariant old(pos) <= pos <= end && DigitsEnd(env.text, pos) == end && AllDigits(env.text[pos..end])
        invariant Slow(env.text[pos..end], s) == Slow(env.text[old(pos)..end], s0)
        decreases end - pos
      {
        assert env.text[pos..end][1..] == env.text[pos + 1..end];
        s := SlowStep(s, Look());
        pos := pos + 1;
      }
    }

    /** The exponent, if there is one; a positive one must not pass `308 - expFrac`. */
    method ParseExp(expFrac: int, startOffset: nat) returns (exp: int)
      requires IsReady() && expFrac <= 0
      modifies this`pos, this`result
      ensures pos <= |env.text|
      ensures match ScanExp(env.text, old(pos))
              case Bad(code, offset) => result == Error(code, offset)
              case Token(end, None) => result.NoError? && pos == end && exp == 0
              case Token(end, Some(x)) =>
                if x.sign == [MINUS] then
                  && result.NoError? && pos == end
                  && exp == 0 - CappedExponent(x.digits[1..], x.digits[0] - 0x30, MaxNegative(expFrac))
                else if Value(x.digits) > 308 - expFrac then result == Error(NumberTooBig, startOffset)
                else result.NoError? && pos == end && exp == Value(x.digits)
    {
      hide Value, DigitsEnd, CappedExponent, LegalExponent, SomeDigits, MaxNegative, SignAt;
      exp := 0;
      if IsE(Look()) {
        ghost var p0 := pos;
        pos := pos + 1;
        var expMinus := TakeSign();
        if !IsDigit(Look()) {
          SetError(NumberMissExponent, pos);
          return;
        }
        hide ScanExp;
        ExponentAt(env.text, p0);
        exp := ReadExponent(expMinus, expFrac, startOffset);
      }
    }

    method TakeSign() returns (expMinus: bool)
      requires pos <= |env.text|
      modifies this`pos
      ensures pos == old(pos) + |SignAt(env.text, old(pos))| <= |env.text|
      ensures expMinus <==> SignAt(env.text, old(pos)) == [MINUS]
    {
      expMinus := false;
      var plus := Consume(PLUS);
      if !plus {
        expMinus := Consume(MINUS);
      }
    }

    method ReadExponent(expMinus: bool, expFrac: int, startOffset: nat) returns (exp: int)
      requires IsReady() && expFrac <= 0 && IsDigit(Look())
      modifies this`pos, this`result
      ensures pos <= |env.text|
      ensures var end := DigitsEnd(env.text, old(pos)); var ds := env.text[old(pos)..end];
              && SomeDigits(ds)
              && if expMinus then
                   && result.NoError? && pos == end
                   && exp == 0 - CappedExponent(ds[1..], ds[0] - 0x30, MaxNegative(expFrac))
                 else if Value(ds) > 308 - expFrac then result == Error(NumberTooBig, startOffset)
                 else result.NoError? && pos == end && exp == Value(ds)
    {
      hide Value, DigitsEnd, CappedExponent, MaxNegative;
      ghost var e0 := pos;
      OneDigit(env.text, e0);
      FirstOfRun(env.text, e0);
      exp := Look() - 0x30;
      pos := pos + 1;
      if expMinus {
        exp := ReadNegative(exp, MaxNegative(expFrac));
        exp := -exp;
      } else {
        exp := ReadPositive(e0, exp, 308 - expFrac, startOffset);
      }
    }

    /** The digits of a negative exponent; once it passes `maxExp` the rest is skipped. */
    method ReadNegative(first: nat, maxExp: int) returns (exp: int)
      requires pos <= |env.text|
      modifies this`pos
      ensures pos == DigitsEnd(env.text, old(pos))
      ensures exp == CappedExponent(env.text[old(pos)..pos], first, maxExp)
    {
      hide DigitsEnd;
      exp := first;
      ghost var p0, end := pos, DigitsEnd(env.text, pos);
      while IsDigit(Look())
        invariant p0 <= pos <= end && DigitsEnd(env.text, pos) == end && exp >= 0
        invariant AllDigits(env.text[pos..end])
        invariant CappedExponent(env.text[p0..end], first, maxExp) ==
                  if exp > maxExp && pos > p0 then exp else CappedExponent(env.text[pos..end], exp, maxExp)
        invariant exp > maxExp && pos > p0 ==> pos == end
        decreases end - pos
      {
        FirstOfRun(env.text, pos);
        exp := exp * 10 + (Look() - 0x30);
        pos := pos + 1;
        if exp > maxExp {
          SkipDigits();
          EndOfRun(env.text, pos);
        }
      }
      EndOfRun(env.text, pos);
    }

    /** The digits of a positive exponent; passing `maxExp` is an error. */
    method ReadPositive(ghost e0: nat, first: nat, maxExp: int, startOffset: nat) returns (exp: int)
      requires IsReady() && e0 < pos && AllDigits(env.text[e0..pos]) && first == Value(env.text[e0..pos]) <= maxExp
      modifies this`pos, this`result
      ensures pos <= |env.text|
      ensures var end := DigitsEnd(env.text, old(pos));
              && AllDigits(env.text[e0..end])
              && if Value(env.text[e0..end]) > maxExp then result == Error(NumberTooBig, startOffset)
                 else result.NoError? && pos == end && exp == Value(env.text[e0..end])
    {
      hide DigitsEnd, Value;
      exp := first;
      ghost var end := DigitsEnd(env.text, pos);
      assert env.text[e0..end] == env.text[e0..pos] + env.text[pos..end];
      while IsDigit(Look())
        invariant old(pos) <= pos <= end && DigitsEnd(env.text, pos) == end && result.NoError?
        invariant AllDigits(env.text[e0..pos]) && exp == Value(env.text[e0..pos]) <= maxExp
        decreases end - pos
      {
        ValueStep(env.text, e0, pos);
        FirstOfRun(env.text, pos);
        if Value(env.text[e0..pos + 1]) > maxExp {
          RunPasses(env.text, e0, pos, end, maxExp);
        }
        exp := exp * 10 + (Look() - 0x30);
        pos := pos + 1;
        if exp > maxExp {
          SetError(NumberTooBig, startOffset);
          return;
        }
      }
      EndOfRun(env.text, pos);
    }

    /** The token of a number: its sign, its integer value if it has one, and its exponent. */
    method ParseNumeral() returns (minus: bool, i64: nat, use64: bool, useDouble: bool, exp: int)
      requires IsReady()
      modifies this`pos, this`result
      ensures pos <= |env.text|
      ensures match ScanNumeral(env.text, old(pos))
              case Bad(code, offset) => result == Error(code, offset)
              case Token(end, n) =>
                if ExponentTooBig(n) then result == Error(NumberTooBig, old(pos))
                else
                  && result.NoError? && pos == end && minus == n.minus && exp == ExponentOf(n)
                  && (useDouble <==> n.frac.Some? || n.exp.Some? || !FitsInteger(n))
                  && (use64 <==> Value(n.digits) > (if minus then 0x8000_0000 else 0xFFFF_FFFF))
                  && (!useDouble ==> i64 == Value(n.digits))
    {
      hide Value, ScanInt, ScanFrac, ScanExp, TakeFraction, CappedExponent, AllDigits;
      var startOffset := pos;
      exp, useDouble := 0, false;
      minus := Consume(MINUS);
      ghost var i0 := pos;
      var digits;
      var isDouble;
      i64, use64, isDouble, digits := ParseInt(minus);
      if result.Error? { return; }
      ghost var i1 := pos;
      var expFrac;
      useDouble, expFrac := ParseFrac(i64, digits, isDouble);
      if result.Error? { return; }
      ghost var f1 := pos;
      useDouble := useDouble || IsE(Look());
      exp := ParseExp(expFrac, startOffset);
      ghost var x := ScanExp(env.text, f1);
      if x.Token? {
        ghost var n := Numeral(minus, ScanInt(env.text, i0).value, ScanFrac(env.text, i1).value, x.value);
        assert ScanNumeral(env.text, startOffset) == Lexeme.Token(x.end, n);
        ExpPresent(env.text, f1);
        assert expFrac == AfterFraction(n).expFrac;
      }
    }

    method ParseNumber()
      requires IsReady() && Look() !in {QUOTE, LBRACE, LBRACKET}
      modifies this`pos, this`log, this`result
      ensures Reached(Scalar(env, old(Now()), ScanNumber(env, old(pos))))
    {
      hide ScanNumeral, AfterFraction, NumeralText, Value;
      var startOffset := pos;
      var minus, i64, use64, useDouble, exp := ParseNumeral();
      if result.Error? { return; }
      ScanNumeralSound(env.text, startOffset);
      if useDouble {
        if env.overflows(env.text[startOffset..pos]) {
          SetError(NumberTooBig, startOffset);
          return;
        }
        Send(Double(env.text[startOffset..pos]), startOffset);
      } else {
        var value: int := if minus then -(i64 as int) else i64;
        if use64 {
          Send(if minus then Int64(value) else Uint64(value), startOffset);
        } else {
          Send(if minus then Int(value) else Uint(value), startOffset);
        }
      }
    }

    // -------------------------------------------------------------- recursive descent

    method ParseValue()
      requires IsReady()
      modifies this`pos, this`log, this`result
      ensures Reached(RecursiveParser.ParseValue(env, old(Now())))
      decreases |env.text| - pos, 1
    {
      hide RecursiveParser.ParseObject, RecursiveParser.ParseArray, ScanLiteral, ScanString, ScanNumber, Scalar;
      match Look()
      case 0x6E => ParseLiteral(NULL_TEXT, Event.Null);
      case 0x74 => ParseLiteral(TRUE_TEXT, Bool(true));
      case 0x66 => ParseLiteral(FALSE_TEXT, Bool(false));
      case 0x22 => ParseString(false);
      case 0x7B => ParseObject();
      case 0x5B => ParseArray();
      case _ => ParseNumber();
    }

    method ParseArray()
      requires IsReady() && Look() == LBRACKET
      modifies this`pos, this`log, this`result
      ensures Reached(RecursiveParser.ParseArray(env, old(Now())))
      decreases |env.text| - pos, 0
    {
      hide RecursiveParser.ParseValue, AfterElement, SkipSpace;
      ghost var whole := RecursiveParser.ParseArray(env, Now());
      pos := pos + 1;
      Send(StartArray, pos);
      if result.Error? { return; }
      SkipWhitespace();
      var empty := Consume(RBRACKET);
      if empty {
        Send(EndArray(0), pos);
        return;
      }
      var elementCount := 0;
      while true
        invariant IsReady() && old(pos) < pos && ParseElements(env, Now(), elementCount) == whole
        decreases |env.text| - pos
      {
        ParseValue();
        if result.Error? { return; }
        elementCount := Inc(elementCount);
        SkipWhitespace();
        var more := NextElement(elementCount);
        if !more { return; }
      }
    }

    /** The end of the loop body of `ParseArray`: go on behind a comma, or close the array. */
    method NextElement(elementCount: nat) returns (more: bool)
      requires IsReady()
      modifies this`pos, this`log, this`result
      ensures more ==> IsReady() && pos > old(pos)
      ensures more ==> ParseElements(env, Now(), elementCount) == AfterElement(env, old(Now()), elementCount)
      ensures !more ==> Reached(AfterElement(env, old(Now()), elementCount))
    {
      hide ParseElements, SkipSpace;
      more := false;
      var comma := Consume(COMMA);
      if comma {
        SkipWhitespace();
      } else {
        var close := Consume(RBRACKET);
        if close {
          Send(EndArray(elementCount), pos);
        } else {
          SetError(ArrayMissCommaOrSquareBracket, pos);
        }
        return;
      }
      if env.trailingCommas && Look() == RBRACKET {
        Send(EndArray(elementCount), pos);
        if result.NoError? {
          pos := pos + 1;
        }
      } else {
        more := true;
      }
    }

    /** The name of a member, its colon, and the white space around it. */
    method ParseName()
      requires IsReady()
      modifies this`pos, this`log, this`result
      ensures Reached(RecursiveParser.ParseName(env, old(Now())))
    {
      hide ScanString, SkipSpace;
      if Look() != QUOTE {
        SetError(ObjectMissName, pos);
        return;
      }
      ParseString(true);
      if result.Error? { return; }
      SkipWhitespace();
      var colon := Consume(COLON);
      if !colon {
        SetError(ObjectMissColon, pos);
        return;
      }
      SkipWhitespace();
    }

    method ParseObject()
      requires IsReady() && Look() == LBRACE
      modifies this`pos, this`log, this`result
      ensures Reached(RecursiveParser.ParseObject(env, old(Now())))
      decreases |env.text| - pos, 0
    {
      hide RecursiveParser.ParseValue, RecursiveParser.ParseName, AfterMember, SkipSpace;
      ghost var whole := RecursiveParser.ParseObject(env, Now());
      pos := pos + 1;
      Send(StartObject, pos);
      if result.Error? { return; }
      SkipWhitespace();
      var empty := Consume(RBRACE);
      if empty {
        Send(EndObject(0), pos);
        return;
      }
      var memberCount := 0;
      while true
        invariant IsReady() && old(pos) < pos && ParseMembers(env, Now(), memberCount) == whole
        decreases |env.text| - pos
      {
        ParseName();
        if result.Error? { return; }
        ParseValue();
        if result.Error? { return; }
        SkipWhitespace();
        memberCount := Inc(memberCount);
        var more := NextMember(memberCount);
        if !more { return; }
      }
    }

    /** The end of the loop body of `ParseObject`: go on behind a comma, or close the object. */
    method NextMember(memberCount: nat) returns (more: bool)
      requires IsReady()
      modifies this`pos, this`log, this`result
      ensures more ==> IsReady() && pos > old(pos)
      ensures more ==> ParseMembers(env, Now(), memberCount) == AfterMember(env, old(Now()), memberCount)
      ensures !more ==> Reached(AfterMember(env, old(Now()), memberCount))
    {
      hide ParseMembers, SkipSpace;
      more := false;
      match Look() {
        case 0x2C =>
          pos := pos + 1;
          SkipWhitespace();
        case 0x7D =>
          pos := pos + 1;
          Send(EndObject(memberCount), pos);
          return;
        case _ =>
          SetError(ObjectMissCommaOrCurlyBracket, pos);
          return;
      }
      if env.trailingCommas && Look() == RBRACE {
        Send(EndObject(memberCount), pos);
        if result.NoError? {
          pos := pos + 1;
        }
      } else {
        more := true;
      }
    }

    method Parse()
      requires Now() == START
      modifies this
      ensures Reached(RecursiveParser.Parse(env)) && stack == []
    {
      hide RecursiveParser.ParseValue, SkipSpace;
      SkipWhitespace();
      if Look() == NUL {
        SetError(DocumentEmpty, pos);
      } else {
        ParseValue();
        if result.NoError? && !env.stopWhenDone {
          SkipWhitespace();
          if Look() != NUL {
            SetError(DocumentRootNotSingular, pos);
          }
        }
      }
      stack := [];
    }

    // -------------------------------------------------------------- table-driven parsing

    /** After a transition from machine m: the state it leads to, and, unless that is the error state, everything else. */
    predicate Moved(m: Machine, d: State)
      reads this
    {
      && pos <= |env.text| && d == m.state && log == m.run.log && result == m.run.result
      && (result.NoError? ==> Now() == m.run) && (!d.ErrorState? ==> stack == m.stack)
    }

    method Transit(dst: State) returns (d: State)
      requires Sane(env, Snapshot()) && dst == Predicted(env, Snapshot())
      modifies this`pos, this`log, this`result, this`stack
      ensures Moved(IterativeParser.Transit(env, old(Snapshot()), dst), d)
    {
      hide IterativeParser.Open, IterativeParser.Close, RecursiveParser.ParseValue;
      d := dst;
      if dst.ErrorState? {
        return;
      } else if dst.ObjectInitial? || dst.ArrayInitial? {
        d := Open(dst);
      } else if dst.MemberKey? {
        ParseString(true);
        if result.Error? { d := ErrorState; }
      } else if dst.KeyValueDelimiter? {
        pos := pos + 1;
      } else if dst.MemberDelimiter? || dst.ElementDelimiter? {
        CountItem();
      } else if dst.ObjectFinish? || dst.ArrayFinish? {
        if !env.trailingCommas && state == (if dst.ObjectFinish? then MemberDelimiter else ElementDelimiter) {
          SetError(if dst.ObjectFinish? then ObjectMissName else ValueInvalid, pos);
          d := ErrorState;
        } else {
          d := Close(dst);
        }
      } else {
        ParseValue();
        if result.Error? {
          d := ErrorState;
        } else if dst.ValueState? {
          d := Finish;
        }
      }
    }

    /** Push the state to resume and a count of zero. */
    method Open(dst: State) returns (d: State)
      requires Sane(env, Snapshot()) && ExpectsValue(state) && (dst.ObjectInitial? || dst.ArrayInitial?)
      requires pos < |env.text|
      modifies this`pos, this`log, this`result, this`stack
      ensures Moved(IterativeParser.Open(env, old(Snapshot()), dst), d)
    {
      var n := state;
      if state.ArrayInitial? || state.ElementDelimiter? {
        n := Element;
      } else if state.KeyValueDelimiter? {
        n := MemberValue;
      }
      stack := stack + [Frame(n, 0)];
      Send(if dst.ObjectInitial? then StartObject else StartArray, pos);
      if result.Error? { return ErrorState; }
      pos := pos + 1;
      d := dst;
    }

    /** Pop the count and the state to resume, and close the container. */
    method Close(dst: State) returns (d: State)
      requires Sane(env, Snapshot()) && stack != [] && pos < |env.text|
      modifies this`pos, this`log, this`result, this`stack
      ensures Moved(IterativeParser.Close(env, old(Snapshot()), dst), d)
    {
      var top := stack[|stack| - 1];
      stack := stack[..|stack| - 1];
      var c := top.count;
      if state.MemberValue? || state.Element? {
        c := Inc(c);
      }
      var n := top.resume;
      if n.Start? {
        n := Finish;
      }
      Send(if dst.ObjectFinish? then EndObject(c) else EndArray(c), pos);
      if result.Error? { return ErrorState; }
      pos := pos + 1;
      d := n;
    }

    /** Take a comma and count the item before it. */
    method CountItem()
      requires stack != []
      modifies this`pos, this`stack
      ensures pos == old(pos) + 1 && stack == old(Snapshot()).Counted(state).stack
    {
      pos := pos + 1;
      var top := stack[|stack| - 1];
      stack := stack[|stack| - 1 := top.(count := Inc(top.count))];
    }

    /** Report the error of a state in which no transition was possible, unless one was reported already. */
    method HandleError(src: State)
      modifies this`result
      ensures Now() == IterativeParser.HandleError(Machine(src, stack, old(Now()))) && result.Error?
      ensures old(result).Error? ==> result == old(result)
    {
      if result.Error? { return; }
      match src
      case Start => SetError(DocumentEmpty, pos);
      case Finish => SetError(DocumentRootNotSingular, pos);
      case ObjectInitial => SetError(ObjectMissName, pos);
      case MemberDelimiter => SetError(ObjectMissName, pos);
      case MemberKey => SetError(ObjectMissColon, pos);
      case MemberValue => SetError(ObjectMissCommaOrCurlyBracket, pos);
      case KeyValueDelimiter => SetError(ValueInvalid, pos);
      case ArrayInitial => SetError(ValueInvalid, pos);
      case ElementDelimiter => SetError(ValueInvalid, pos);
      case _ => SetError(ArrayMissCommaOrSquareBracket, pos);
    }

    method IterativeParse()
      requires Now() == START && stack == [] && state.Start?
      modifies this
      ensures result == IterativeParser.IterativeParse(env).result && log == IterativeParser.IterativeParse(env).log
      ensures result.NoError? ==> pos == IterativeParser.IterativeParse(env).pos
      ensures stack == []
    {
      hide SkipSpace, RecursiveParser.ParseValue, IterativeParser.Transit, Predict, IterativeParser.HandleError;
      ghost var whole := IterativeParser.IterativeParse(env);
      SkipWhitespace();
      while Look() != NUL
        invariant Sane(env, Snapshot()) && RunLoop(env, Snapshot()) == whole
        decreases |env.text| - pos
      {
        ghost var m := Snapshot();
        var d := Transit(Predict(state, Tokenize(Look())));
        if d.ErrorState? {
          HandledAlike(m.(run := IterativeParser.Transit(env, m, Predicted(env, m)).run), Snapshot());
          HandleError(state);
          break;
        }
        state := d;
        if env.stopWhenDone && state.Finish? {
          break;
        }
        SkipWhitespace();
      }
      if !state.Finish? {
        HandledAlike(Snapshot(), Snapshot());
        HandleError(state);
      }
      stack := [];
    }

    method IterativeParseNext() returns (ok: bool)
      requires Sane(env, Snapshot())
      modifies this
      ensures var call := ParseNext(env, old(Snapshot()));
              && ok == call.ok && state == call.m.state && log == call.m.run.log && result == call.m.run.result
              && (ok ==> Snapshot() == call.m)
    {
      hide SkipSpace, RecursiveParser.ParseValue, IterativeParser.Transit, Predict, IterativeParser.HandleError;
      ghost var call := ParseNext(env, Snapshot());
      while Look() != NUL
        invariant Sane(env, Snapshot()) && ParseNext(env, Snapshot()) == call
        decreases |env.text| - pos
      {
        SkipWhitespace();
        ghost var m := Snapshot();
        var n := Predict(state, Tokenize(Look()));
        var d := Transit(n);
        if d.ErrorState? {
          HandledAlike(m.(run := IterativeParser.Transit(env, m, n).run), Snapshot());
          HandleError(state);
          return false;
        }
        state := d;
        if d.Finish? {
          if !env.stopWhenDone {
            SkipWhitespace();
            if Look() != NUL {
              HandleError(state);
              return false;
            }
          }
          return true;
        }
        if !IsDelimiter(n) {
          return true;
        }
      }
      ghost var m := Snapshot();
      stack := [];
      if !state.Finish? {
        HandledAlike(m, Snapshot());
        HandleError(state);
        return false;
      }
      return true;
    }
  }

  /** Which error is reported does not depend on the stack, nor on the position once there is one. */
  lemma HandledAlike(m: Machine, m': Machine)
    requires m.state == m'.state && m.run.log == m'.run.log && m.run.result == m'.run.result
    requires m.run.result.NoError? ==> m.run.pos == m'.run.pos
    ensures IterativeParser.HandleError(m).result == IterativeParser.HandleError(m').result
    ensures IterativeParser.HandleError(m).log == IterativeParser.HandleError(m').log
    ensures IterativeParser.HandleError(m).result.Error?
  {
  }
}
