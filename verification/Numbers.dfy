/** JSON numbers: the scan of `ParseNumber`, its integer ranges, and its exponent arithmetic. */
module Numbers {
  import opened Bytes
  import opened Strings
  import opened Events

  // ---------------------------------------------------------------- digits

  predicate AllDigits(ds: Text) {
    forall k | 0 <= k < |ds| :: IsDigit(ds[k])
  }

  /** The natural number a digit string denotes. */
  function Value(ds: Text): nat
    requires AllDigits(ds)
  {
    if ds == [] then 0 else Value(ds[..|ds| - 1]) * 10 + (ds[|ds| - 1] - 0x30)
  }

  /** The end of the run of digits at p. */
  function DigitsEnd(t: Text, p: nat): (q: nat)
    requires p <= |t|
    ensures p <= q <= |t| && !IsDigit(Peek(t, q)) && AllDigits(t[p..q])
    decreases |t| - p
  {
    if p < |t| && IsDigit(t[p]) then
      var q := DigitsEnd(t, p + 1);
      assert t[p..q] == [t[p]] + t[p + 1..q];
      q
    else p
  }

  lemma DigitsEndOver(t: Text, p: nat, ds: Text)
    requires At(t, p, ds) && AllDigits(ds) && !IsDigit(Peek(t, p + |ds|))
    ensures DigitsEnd(t, p) == p + |ds|
    decreases |ds|
  {
    if ds != [] {
      AtPeek(t, p, ds, 0);
      assert ds == ds[..1] + ds[1..];
      AtSplit(t, p, ds[..1], ds[1..]);
      DigitsEndOver(t, p + 1, ds[1..]);
    }
  }

  lemma ValueStep(t: Text, p: nat, q: nat)
    requires p <= q < |t| && AllDigits(t[p..q]) && IsDigit(t[q])
    ensures AllDigits(t[p..q + 1]) && Value(t[p..q + 1]) == Value(t[p..q]) * 10 + (t[q] - 0x30)
  {
    assert t[p..q + 1][..q - p] == t[p..q];
  }

  function Pow10(n: nat): (r: nat)
    ensures r > 0
  {
    if n == 0 then 1 else 10 * Pow10(n - 1)
  }

  lemma {:induction false} ValueBound(ds: Text)
    requires AllDigits(ds)
    ensures Value(ds) < Pow10(|ds|)
  {
    if ds != [] {
      ValueBound(ds[..|ds| - 1]);
    }
  }

  lemma {:induction false} Pow10Monotone(m: nat, n: nat)
    requires m <= n
    ensures Pow10(m) <= Pow10(n)
  {
    if m < n {
      Pow10Monotone(m, n - 1);
    }
  }

  /** A value of 10^17 or more has at least 18 digits. */
  lemma LongValue(ds: Text)
    requires AllDigits(ds) && Value(ds) >= 100000000000000000
    ensures |ds| >= 18
  {
    ValueBound(ds);
    PowSeventeen();
    if |ds| <= 17 {
      Pow10Monotone(|ds|, 17);
    }
  }

  lemma PowSeventeen()
    ensures Pow10(17) == 100000000000000000
  {
    Pow10Sum(2, 2);
    Pow10Sum(4, 4);
    Pow10Sum(8, 8);
    Pow10Sum(16, 1);
  }

  lemma {:induction false} Pow10Sum(a: nat, b: nat)
    ensures Pow10(a + b) == Pow10(a) * Pow10(b)
  {
    if a > 0 {
      Pow10Sum(a - 1, b);
    }
  }

  lemma OneDigit(t: Text, p: nat)
    requires IsDigit(Peek(t, p))
    ensures p < |t| && AllDigits(t[p..p + 1]) && Value(t[p..p + 1]) == Peek(t, p) - 0x30
  {
    assert t[p..p + 1] == [t[p]];
    assert [t[p]][..0] == [];
  }

  lemma FirstOfRun(t: Text, p: nat)
    requires IsDigit(Peek(t, p))
    ensures p < |t| && DigitsEnd(t, p) == DigitsEnd(t, p + 1) > p
    ensures t[p..DigitsEnd(t, p)][0] == t[p] && t[p..DigitsEnd(t, p)][1..] == t[p + 1..DigitsEnd(t, p)]
  {
  }

  lemma EndOfRun(t: Text, p: nat)
    requires p <= |t| && !IsDigit(Peek(t, p))
    ensures DigitsEnd(t, p) == p
  {
  }

  /** A digit that would pass the bound makes the whole run pass it. */
  lemma RunPasses(t: Text, i0: nat, p: nat, end: nat, bound: nat)
    requires i0 <= p < end <= |t| && AllDigits(t[i0..end])
    requires AllDigits(t[i0..p]) && IsDigit(t[p]) && Value(t[i0..p]) * 10 + (t[p] - 0x30) > bound
    ensures Value(t[i0..end]) > bound
  {
    ValueStep(t, i0, p);
    assert t[i0..end] == t[i0..p + 1] + t[p + 1..end];
    ValueMonotone(t[i0..p + 1], t[p + 1..end]);
  }

  lemma {:induction false} ValueMonotone(a: Text, b: Text)
    requires AllDigits(a + b) && AllDigits(a) && AllDigits(b)
    ensures Value(a + b) == Value(a) * Pow10(|b|) + Value(b)
    ensures Value(a) <= Value(a + b)
  {
    if b == [] {
      assert a + b == a;
    } else {
      hide Value, Pow10;
      var m := |b| - 1;
      ValueMonotone(a, b[..m]);
      LastDigit(b);
      LastDigit(a + b);
      assert (a + b)[..|a + b| - 1] == a + b[..m];
      PowStep(m);
      Shifted(Value(a), Pow10(m), Value(b[..m]), b[m] - 0x30);
    }
  }

  lemma LastDigit(ds: Text)
    requires AllDigits(ds) && ds != []
    ensures Value(ds) == Value(ds[..|ds| - 1]) * 10 + (ds[|ds| - 1] - 0x30)
  {
  }

  lemma PowStep(m: nat)
    ensures Pow10(m + 1) == 10 * Pow10(m)
  {
  }

  lemma Shifted(a: nat, p: nat, v: nat, d: nat)
    ensures (a * p + v) * 10 + d == a * (10 * p) + (v * 10 + d)
    ensures a <= a * p + v ==> a <= (a * p + v) * 10 + d
  {
  }

  // ---------------------------------------------------------------- tokens

  datatype Exponent = Exponent(e: byte, sign: Text, digits: Text)

  /** number of section 6 of RFC 8259: [ minus ] int [ frac ] [ exp ]. */
  datatype Numeral = Numeral(minus: bool, digits: Text, frac: Option<Text>, exp: Option<Exponent>)

  predicate LegalSign(s: Text) {
    s == [] || s == [PLUS] || s == [MINUS]
  }

  predicate SomeDigits(ds: Text) {
    ds != [] && AllDigits(ds)
  }

  predicate IsE(b: byte) {
    b == 0x65 || b == 0x45
  }

  predicate LegalNumeral(n: Numeral) {
    && SomeDigits(n.digits) && (n.digits[0] == ZERO ==> |n.digits| == 1)
    && (n.frac.Some? ==> SomeDigits(n.frac.value))
    && (n.exp.Some? ==> LegalExponent(n.exp.value))
  }

  predicate LegalExponent(x: Exponent) {
    IsE(x.e) && LegalSign(x.sign) && SomeDigits(x.digits)
  }

  function FracText(n: Numeral): Text {
    match n.frac case None => [] case Some(ds) => [DOT] + ds
  }

  function ExpText(n: Numeral): Text {
    match n.exp case None => [] case Some(x) => [x.e] + x.sign + x.digits
  }

  function MinusText(n: Numeral): Text {
    if n.minus then [MINUS] else []
  }

  function NumeralText(n: Numeral): Text {
    MinusText(n) + n.digits + FracText(n) + ExpText(n)
  }

  /** The event for an accepted numeral: an integer event exactly when the value is a 64-bit integer. */
  function NumeralEvent(n: Numeral): Event
    requires LegalNumeral(n)
  {
    var m: int := Value(n.digits);
    if n.frac.Some? || n.exp.Some? then Double(NumeralText(n))
    else if n.minus then
      if m <= 0x8000_0000 then Int(-m)
      else if m <= 0x8000_0000_0000_0000 then Int64(-m)
      else Double(NumeralText(n))
    else
      if m < 0x1_0000_0000 then Uint(m)
      else if m < 0x1_0000_0000_0000_0000 then Uint64(m)
      else Double(NumeralText(n))
  }

  predicate FitsInteger(n: Numeral)
    requires LegalNumeral(n)
  {
    Value(n.digits) < 0x1_0000_0000_0000_0000 && (n.minus ==> Value(n.digits) <= 0x8000_0000_0000_0000)
  }

  // ---------------------------------------------------------------- the decimal exponent

  const FAST_LIMIT: nat := 0x1F_FFFF_FFFF_FFFF

  /** The 64-bit significand while fraction digits are read. */
  datatype Significand = Significand(i64: nat, digits: int, expFrac: int)

  function FastStep(s: Significand, d: byte): Significand
    requires IsDigit(d)
  {
    var i := s.i64 * 10 + (d - 0x30);
    Significand(i, if i != 0 then s.digits + 1 else s.digits, s.expFrac - 1)
  }

  /** How many of the fraction digits the fast loop takes, and the significand it leaves. */
  function Fast(ds: Text, s: Significand): (nat, Significand)
    requires AllDigits(ds)
  {
    if ds == [] || s.i64 > FAST_LIMIT then (0, s)
    else
      var (k, r) := Fast(ds[1..], FastStep(s, ds[0]));
      (k + 1, r)
  }

  /** The slow loop: digits count until 17 are significant; d is positive once a nonzero digit was read. */
  function SlowStep(s: Significand, d: byte): Significand
    requires IsDigit(d)
  {
    if s.digits < 17 then FastStep(s, d) else s
  }

  function Slow(ds: Text, s: Significand): Significand
    requires AllDigits(ds)
  {
    if ds == [] then s else Slow(ds[1..], SlowStep(s, ds[0]))
  }

  lemma FastWithin(ds: Text, s: Significand)
    requires AllDigits(ds)
    ensures Fast(ds, s).0 <= |ds|
  {
  }

  /** The fast loop, then the slow loop. */
  function TakeFraction(ds: Text, s: Significand): Significand
    requires AllDigits(ds)
  {
    FastWithin(ds, s);
    var (k, r) := Fast(ds, s);
    Slow(ds[k..], r)
  }

  lemma TakeFractionStep(ds: Text, s: Significand)
    requires AllDigits(ds)
    ensures ds != [] && s.i64 <= FAST_LIMIT ==> TakeFraction(ds, s) == TakeFraction(ds[1..], FastStep(s, ds[0]))
    ensures ds == [] || s.i64 > FAST_LIMIT ==> TakeFraction(ds, s) == Slow(ds, s)
  {
    if ds != [] && s.i64 <= FAST_LIMIT {
      FastWithin(ds[1..], FastStep(s, ds[0]));
      var k := Fast(ds[1..], FastStep(s, ds[0])).0;
      assert ds[k + 1..] == ds[1..][k..];
    } else {
      assert ds[0..] == ds;
    }
  }

  /** Every fraction digit taken lowers the decimal shift by one. */
  lemma FractionShift(ds: Text, s: Significand)
    requires AllDigits(ds)
    ensures s.expFrac - |ds| <= TakeFraction(ds, s).expFrac <= s.expFrac
    decreases |ds|
  {
    TakeFractionStep(ds, s);
    if ds != [] && s.i64 <= FAST_LIMIT {
      FractionShift(ds[1..], FastStep(s, ds[0]));
    } else {
      SlowShift(ds, s);
    }
  }

  lemma SlowShift(ds: Text, s: Significand)
    requires AllDigits(ds)
    ensures s.expFrac - |ds| <= Slow(ds, s).expFrac <= s.expFrac
  {
  }

  lemma SlowIdle(ds: Text, s: Significand)
    requires AllDigits(ds) && s.digits >= 17
    ensures Slow(ds, s) == s
  {
  }

  /** The significand after the fraction; an integer part beyond 64 bits leaves no room for fraction digits. */
  function AfterFraction(n: Numeral): Significand
    requires LegalNumeral(n)
  {
    var start := Significand(Value(n.digits), |n.digits| - 1, 0);
    if n.frac.None? || !FitsInteger(n) then start else TakeFraction(n.frac.value, start)
  }

  /** A negative exponent is read until it passes `maxExp`; the digits behind are skipped. */
  function CappedExponent(ds: Text, exp: nat, maxExp: int): nat
    requires AllDigits(ds)
  {
    if ds == [] then exp
    else
      var e := exp * 10 + (ds[0] - 0x30);
      if e > maxExp then e else CappedExponent(ds[1..], e, maxExp)
  }

  /** `maxExp` for a negative exponent; the quotient truncates towards zero, so it is only meant for a sum >= 0. */
  function MaxNegative(expFrac: int): int {
    if expFrac + 2147483639 >= 0 then (expFrac + 2147483639) / 10 else -((-(expFrac + 2147483639)) / 10)
  }

  /** The signed exponent `ParseNumber` arrives at when it does not refuse the numeral. */
  function ExponentOf(n: Numeral): int
    requires LegalNumeral(n)
  {
    if n.exp.None? then 0
    else
      var ds := n.exp.value.digits;
      if PositiveExponent(n) then Value(ds)
      else 0 - CappedExponent(ds[1..], ds[0] - 0x30, MaxNegative(AfterFraction(n).expFrac))
  }

  predicate PositiveExponent(n: Numeral) {
    n.exp.Some? && n.exp.value.sign != [MINUS]
  }

  predicate ExponentTooBig(n: Numeral)
    requires LegalNumeral(n)
  {
    PositiveExponent(n) && Value(n.exp.value.digits) > 308 - AfterFraction(n).expFrac
  }

  /** A positive exponent beyond `308 - expFrac`, or a value the conversion finds too big. */
  predicate Refused(env: Env, n: Numeral)
    requires LegalNumeral(n)
  {
    || ExponentTooBig(n)
    || (NumeralEvent(n).Double? && env.overflows(NumeralText(n)))
  }

  // ---------------------------------------------------------------- scanning

  /** int: a zero, or digits that do not start with one. */
  function ScanInt(t: Text, p: nat): (r: Lexeme<Text>)
    requires p <= |t|
    ensures r.Token? ==> p < r.end <= |t| && r.value == t[p..r.end] && SomeDigits(r.value)
    ensures r.Token? ==> r.value[0] == ZERO ==> |r.value| == 1
  {
    if Peek(t, p) == ZERO then Token(p + 1, t[p..p + 1])
    else if IsDigit(Peek(t, p)) then Token(DigitsEnd(t, p), t[p..DigitsEnd(t, p)])
    else Bad(ValueInvalid, p)
  }

  function ScanFrac(t: Text, p: nat): (r: Lexeme<Option<Text>>)
    requires p <= |t|
    ensures r.Token? ==> p <= r.end <= |t|
    ensures r.Token? && r.value.Some? ==> SomeDigits(r.value.value)
  {
    if Peek(t, p) != DOT then Token(p, None)
    else if !IsDigit(Peek(t, p + 1)) then Bad(NumberMissFraction, p + 1)
    else
      var q := DigitsEnd(t, p + 1);
      Token(q, Some(t[p + 1..q]))
  }

  function ScanExp(t: Text, p: nat): (r: Lexeme<Option<Exponent>>)
    requires p <= |t|
    ensures r.Token? ==> p <= r.end <= |t|
    ensures r.Token? && r.value.Some? ==> LegalExponent(r.value.value)
  {
    if !IsE(Peek(t, p)) then Token(p, None)
    else
      var sign := SignAt(t, p + 1);
      var e0 := p + 1 + |sign|;
      if !IsDigit(Peek(t, e0)) then Bad(NumberMissExponent, e0)
      else
        var e1 := DigitsEnd(t, e0);
        Token(e1, Some(Exponent(t[p], sign, t[e0..e1])))
  }

  /** The sign between the e and the digits of an exponent. */
  function SignAt(t: Text, p: nat): (sign: Text)
    ensures |sign| <= 1 && LegalSign(sign)
  {
    if Peek(t, p) == PLUS then [PLUS] else if Peek(t, p) == MINUS then [MINUS] else []
  }

  function ScanNumeral(t: Text, p: nat): (r: Lexeme<Numeral>)
    requires p <= |t|
    ensures r.Token? ==> p < r.end <= |t| && LegalNumeral(r.value)
  {
    var minus := Peek(t, p) == MINUS;
    match ScanInt(t, if minus then p + 1 else p)
    case Bad(code, offset) => Bad(code, offset)
    case Token(i1, digits) =>
      match ScanFrac(t, i1)
      case Bad(code, offset) => Bad(code, offset)
      case Token(f1, frac) =>
        match ScanExp(t, f1)
        case Bad(code, offset) => Bad(code, offset)
        case Token(end, exp) => Token(end, Numeral(minus, digits, frac, exp))
  }

  /** `ParseNumber` up to the handler call. */
  function ScanNumber(env: Env, p: nat): (r: Lexeme<Event>)
    requires p <= |env.text|
    ensures r.Token? ==> p < r.end <= |env.text|
  {
    match ScanNumeral(env.text, p)
    case Bad(code, offset) => Bad(code, offset)
    case Token(end, n) => if Refused(env, n) then Bad(NumberTooBig, p) else Token(end, NumeralEvent(n))
  }

  lemma ExponentAt(t: Text, p: nat)
    requires p <= |t| && IsE(Peek(t, p)) && IsDigit(Peek(t, p + 1 + |SignAt(t, p + 1)|))
    ensures var sign := SignAt(t, p + 1); var e0 := p + 1 + |sign|; var end := DigitsEnd(t, e0);
            && e0 < end == DigitsEnd(t, e0 + 1)
            && ScanExp(t, p) == Token(end, Some(Exponent(t[p], sign, t[e0..end])))
            && t[e0..end][0] == t[e0] && t[e0..end][1..] == t[e0 + 1..end]
  {
    FirstOfRun(t, p + 1 + |SignAt(t, p + 1)|);
  }

  lemma ScanExpSound(t: Text, p: nat, n: Numeral)
    requires p <= |t| && ScanExp(t, p).Token? && n.exp == ScanExp(t, p).value
    ensures t[p..ScanExp(t, p).end] == ExpText(n)
  {
    if n.exp.Some? {
      var e0 := p + 1 + |n.exp.value.sign|;
      assert t[p..ScanExp(t, p).end] == [t[p]] + t[p + 1..e0] + t[e0..ScanExp(t, p).end];
    }
  }

  lemma ScanFracSound(t: Text, p: nat, n: Numeral)
    requires p <= |t| && ScanFrac(t, p).Token? && n.frac == ScanFrac(t, p).value
    ensures t[p..ScanFrac(t, p).end] == FracText(n)
  {
    if n.frac.Some? {
      assert t[p..ScanFrac(t, p).end] == [t[p]] + t[p + 1..ScanFrac(t, p).end];
    }
  }

  /** Whatever is scanned as a numeral has the text of that numeral. */
  lemma ScanNumeralSound(t: Text, p: nat)
    requires p <= |t| && ScanNumeral(t, p).Token?
    ensures t[p..ScanNumeral(t, p).end] == NumeralText(ScanNumeral(t, p).value)
  {
    var n := ScanNumeral(t, p).value;
    var i0 := if n.minus then p + 1 else p;
    var i1 := ScanInt(t, i0).end;
    var f1 := ScanFrac(t, i1).end;
    var end := ScanExp(t, f1).end;
    assert t[p..i0] == MinusText(n);
    ScanFracSound(t, i1, n);
    ScanExpSound(t, f1, n);
    FourSlices(t, p, i0, i1, f1, end);
  }

  lemma FourSlices(t: Text, p: nat, a: nat, b: nat, c: nat, d: nat)
    requires p <= a <= b <= c <= d <= |t|
    ensures t[p..d] == t[p..a] + t[a..b] + t[b..c] + t[c..d]
  {
    assert t[p..b] == t[p..a] + t[a..b];
    assert t[p..c] == t[p..b] + t[b..c];
    assert t[p..d] == t[p..c] + t[c..d];
  }

  /** The bytes at which the scan of a numeral ends; a leading zero ends its integer part by itself. */
  predicate MayFollow(n: Numeral, b: byte)
    requires LegalNumeral(n)
  {
    if n.exp.Some? then !IsDigit(b)
    else if n.frac.Some? then !IsDigit(b) && !IsE(b)
    else (n.digits[0] == ZERO || !IsDigit(b)) && b != DOT && !IsE(b)
  }

  lemma NumeralParts(t: Text, p: nat, n: Numeral)
    requires LegalNumeral(n) && At(t, p, NumeralText(n))
    ensures var i0 := p + |MinusText(n)|;
            && At(t, p, MinusText(n))
            && At(t, i0, n.digits)
            && At(t, i0 + |n.digits|, FracText(n))
            && At(t, i0 + |n.digits| + |FracText(n)|, ExpText(n))
  {
    var m := MinusText(n);
    AtSplit(t, p, m + n.digits + FracText(n), ExpText(n));
    AtSplit(t, p, m + n.digits, FracText(n));
    AtSplit(t, p, m, n.digits);
  }

  /** The sign between the e and the digits is read as it stands. */
  lemma SignRead(t: Text, p: nat, sign: Text, digits: Text)
    requires LegalSign(sign) && At(t, p, sign) && At(t, p + |sign|, digits) && SomeDigits(digits)
    ensures SignAt(t, p) == sign && IsDigit(Peek(t, p + |sign|))
  {
    AtPeek(t, p + |sign|, digits, 0);
    if sign != [] {
      AtPeek(t, p, sign, 0);
    }
  }

  lemma ExpSplit(t: Text, p: nat, x: Exponent)
    requires At(t, p, [x.e] + x.sign + x.digits)
    ensures p < |t| && t[p] == x.e && At(t, p + 1, x.sign) && At(t, p + 1 + |x.sign|, x.digits)
  {
    AtSplit(t, p, [x.e] + x.sign, x.digits);
    AtSplit(t, p, [x.e], x.sign);
    AtPeek(t, p, [x.e], 0);
  }

  /** The three parts of an exponent, scanned where they stand. */
  lemma ExponentOver(t: Text, p: nat, x: Exponent)
    requires LegalExponent(x) && At(t, p, [x.e] + x.sign + x.digits)
    requires var end := p + 1 + |x.sign| + |x.digits|; !IsDigit(Peek(t, end))
    ensures ScanExp(t, p) == Token(p + 1 + |x.sign| + |x.digits|, Some(x)) && IsE(Peek(t, p))
  {
    ExpSplit(t, p, x);
    SignRead(t, p + 1, x.sign, x.digits);
    var e0 := p + 1 + |x.sign|;
    DigitsEndOver(t, e0, x.digits);
    ExponentTaken(t, p, x, e0, e0 + |x.digits|);
  }

  lemma ExponentTaken(t: Text, p: nat, x: Exponent, e0: nat, e1: nat)
    requires p < |t| && t[p] == x.e && IsE(x.e) && SignAt(t, p + 1) == x.sign && e0 == p + 1 + |x.sign|
    requires IsDigit(Peek(t, e0)) && DigitsEnd(t, e0) == e1 == e0 + |x.digits| && At(t, e0, x.digits)
    ensures ScanExp(t, p) == Token(e1, Some(x)) && IsE(Peek(t, p))
  {
    hide DigitsEnd, SignAt, IsDigit;
  }

  lemma ScanExpComplete(t: Text, p: nat, n: Numeral)
    requires LegalNumeral(n) && At(t, p, ExpText(n))
    requires if n.exp.Some? then !IsDigit(Peek(t, p + |ExpText(n)|)) else !IsE(Peek(t, p))
    ensures ScanExp(t, p) == Token(p + |ExpText(n)|, n.exp)
    ensures n.exp.Some? ==> IsE(Peek(t, p))
  {
    hide DigitsEnd, SignAt, At, Peek, IsDigit, IsE, AllDigits;
    if n.exp.Some? {
      ExponentOver(t, p, n.exp.value);
    } else {
      NoExponent(t, p);
    }
  }

  lemma NoExponent(t: Text, p: nat)
    requires At(t, p, []) && !IsE(Peek(t, p))
    ensures ScanExp(t, p) == Token(p, None)
  {
  }

  lemma ScanFracComplete(t: Text, p: nat, n: Numeral)
    requires LegalNumeral(n) && At(t, p, FracText(n))
    requires if n.frac.Some? then !IsDigit(Peek(t, p + |FracText(n)|)) else Peek(t, p) != DOT
    ensures ScanFrac(t, p) == Token(p + |FracText(n)|, n.frac)
    ensures n.frac.Some? ==> Peek(t, p) == DOT
  {
    if n.frac.Some? {
      AtSplit(t, p, [DOT], n.frac.value);
      AtPeek(t, p, [DOT], 0);
      AtPeek(t, p + 1, n.frac.value, 0);
      DigitsEndOver(t, p + 1, n.frac.value);
    }
  }

  lemma ScanIntComplete(t: Text, p: nat, ds: Text)
    requires SomeDigits(ds) && (ds[0] == ZERO ==> |ds| == 1) && At(t, p, ds)
    requires ds[0] == ZERO || !IsDigit(Peek(t, p + |ds|))
    ensures ScanInt(t, p) == Token(p + |ds|, ds) && IsDigit(Peek(t, p))
  {
    AtPeek(t, p, ds, 0);
    if ds[0] != ZERO {
      DigitsEndOver(t, p, ds);
    }
  }

  lemma ScanPartsComplete(t: Text, p: nat, n: Numeral, i1: nat, f1: nat)
    requires LegalNumeral(n) && At(t, p, NumeralText(n)) && MayFollow(n, Peek(t, p + |NumeralText(n)|))
    requires i1 == p + |MinusText(n)| + |n.digits| && f1 == i1 + |FracText(n)|
    ensures (Peek(t, p) == MINUS) == n.minus
    ensures ScanInt(t, p + |MinusText(n)|) == Token(i1, n.digits)
    ensures ScanFrac(t, i1) == Token(f1, n.frac)
    ensures ScanExp(t, f1) == Token(p + |NumeralText(n)|, n.exp)
  {
    hide ScanInt, ScanFrac, ScanExp, DigitsEnd, Value, LegalExponent, AllDigits;
    NumeralParts(t, p, n);
    assert f1 + |ExpText(n)| == p + |NumeralText(n)|;
    ScanExpComplete(t, f1, n);
    ScanFracComplete(t, i1, n);
    ScanIntComplete(t, p + |MinusText(n)|, n.digits);
    if n.minus { AtPeek(t, p, [MINUS], 0); }
  }

  /** A legal numeral is scanned whole exactly when what follows it does not continue it. */
  lemma ScanNumeralComplete(t: Text, p: nat, n: Numeral)
    requires LegalNumeral(n) && At(t, p, NumeralText(n)) && MayFollow(n, Peek(t, p + |NumeralText(n)|))
    ensures ScanNumeral(t, p) == Token(p + |NumeralText(n)|, n)
  {
    hide MayFollow, LegalNumeral, AllDigits, At, IsDigit, IsE, DigitsEnd, ScanInt, ScanFrac, ScanExp, ExpText, FracText;
    var i1 := p + |MinusText(n)| + |n.digits|;
    ScanPartsComplete(t, p, n, i1, i1 + |FracText(n)|);
  }

  lemma ScanNumeralEnds(t: Text, p: nat)
    requires p <= |t| && ScanNumeral(t, p).Token?
    ensures MayFollow(ScanNumeral(t, p).value, Peek(t, ScanNumeral(t, p).end))
  {
    var i0 := if Peek(t, p) == MINUS then p + 1 else p;
    var whole := ScanInt(t, i0);
    var frac := ScanFrac(t, whole.end);
    var exp := ScanExp(t, frac.end);
    assert whole.value[0] == ZERO || !IsDigit(Peek(t, whole.end));
    assert frac.value.Some? ==> !IsDigit(Peek(t, frac.end));
    assert exp.value.Some? ==> !IsDigit(Peek(t, exp.end));
  }

  lemma ExpPresent(t: Text, p: nat)
    requires p <= |t| && ScanExp(t, p).Token?
    ensures ScanExp(t, p).value.Some? <==> IsE(Peek(t, p))
  {
  }
}
