/**
  The exponent arithmetic of `ParseNumber`: which 32-bit operations it performs, when none of them overflows,
  and what rational number the significand and the decimal exponent denote.
 */
module NumberArithmetic {
  import opened Bytes
  import opened Events
  import opened Numbers

  // ---------------------------------------------------------------- 32-bit operations

  predicate FitsInt(v: int) {
    -0x8000_0000 <= v <= 0x7FFF_FFFF
  }

  predicate AllFit(vs: seq<int>) {
    forall k | 0 <= k < |vs| :: FitsInt(vs[k])
  }

  /** The values `significandDigit` takes for the digits behind the first, until the 64-bit word is full. */
  function IntegerOps(ds: Text, v: nat, digits: nat, limit: nat): seq<int>
    requires AllDigits(ds)
  {
    if ds == [] || v * 10 + (ds[0] - 0x30) > limit then []
    else [digits + 1] + IntegerOps(ds[1..], v * 10 + (ds[0] - 0x30), digits + 1, limit)
  }

  /** The largest magnitude of an integer with this sign. */
  function LimitOf(n: Numeral): nat {
    if n.minus then 0x8000_0000_0000_0000 else 0xFFFF_FFFF_FFFF_FFFF
  }

  /** The values `significandDigit` and `expFrac` take while the fraction is read. */
  function FractionOps(ds: Text, s: Significand): seq<int>
    requires AllDigits(ds)
  {
    if ds == [] then []
    else
      var s' := if s.i64 <= FAST_LIMIT then FastStep(s, ds[0]) else SlowStep(s, ds[0]);
      [s'.expFrac, s'.digits] + FractionOps(ds[1..], s')
  }

  /** The results of `exp * 10` and `exp * 10 + digit` for the digits behind the first, until the bound is passed. */
  function DigitOps(ds: Text, exp: nat, maxExp: int): seq<int>
    requires AllDigits(ds)
  {
    if ds == [] then []
    else
      var e := exp * 10 + (ds[0] - 0x30);
      [exp * 10, e] + (if e > maxExp then [] else DigitOps(ds[1..], e, maxExp))
  }

  /** Every result of an `int` operation on `significandDigit`, `expFrac`, `maxExp`, `exp` and `exp + expFrac`. */
  function IntOps(n: Numeral): seq<int>
    requires LegalNumeral(n)
  {
    var start := Significand(Value(n.digits), |n.digits| - 1, 0);
    var s := AfterFraction(n);
    IntegerOps(n.digits[1..], n.digits[0] - 0x30, 0, LimitOf(n))
    + (if n.frac.None? || !FitsInteger(n) then [] else FractionOps(n.frac.value, start))
    + (if n.exp.None? then []
       else
         var ds := n.exp.value.digits;
         if PositiveExponent(n) then [308 - s.expFrac] + DigitOps(ds[1..], ds[0] - 0x30, 308 - s.expFrac)
         else
           [s.expFrac + 2147483639, MaxNegative(s.expFrac)]
           + DigitOps(ds[1..], ds[0] - 0x30, MaxNegative(s.expFrac)) + [ExponentOf(n)])
    + (if ExponentTooBig(n) then [] else [ExponentOf(n) + s.expFrac])
  }

  /** The most fraction digits for which no exponent can overflow: `(INT_MAX - 9) / 10 - 308`. */
  const MAX_FRACTION: nat := 214748055

  /** 10^20 does not fit 64 bits, so at most 20 digits are counted. */
  lemma PowTwenty()
    ensures Pow10(20) > 0x1_0000_0000_0000_0000
  {
    PowSeventeen();
    Pow10Sum(17, 1);
    Pow10Sum(18, 1);
    Pow10Sum(19, 1);
  }

  lemma FewDigits(v: nat, digits: nat)
    requires Pow10(digits) <= v <= 0x1_0000_0000_0000_0000
    ensures digits < 20
  {
    PowTwenty();
    if digits >= 20 {
      Pow10Monotone(20, digits);
    }
  }

  lemma {:induction false} IntegerFits(ds: Text, v: nat, digits: nat, limit: nat)
    requires AllDigits(ds) && Pow10(digits) <= v && limit <= 0x1_0000_0000_0000_0000
    ensures AllFit(IntegerOps(ds, v, digits, limit))
  {
    if ds != [] {
      var w := v * 10 + (ds[0] - 0x30);
      if w <= limit {
        assert Pow10(digits + 1) <= w;
        FewDigits(w, digits + 1);
        IntegerFits(ds[1..], w, digits + 1, limit);
      }
    }
  }

  lemma {:induction false} LeadingDigit(ds: Text)
    requires SomeDigits(ds) && ds[0] != ZERO
    ensures Value(ds) >= Pow10(|ds| - 1)
  {
    if |ds| > 1 {
      LeadingDigit(ds[..|ds| - 1]);
    } else {
      assert Value(ds[..0]) == 0;
    }
  }

  lemma {:induction false} FractionFits(ds: Text, s: Significand)
    requires AllDigits(ds) && s.expFrac - |ds| >= -0x8000_0000 && s.expFrac <= 0
    requires 0 <= s.digits <= 0x7FFF_FFFF - |ds|
    ensures AllFit(FractionOps(ds, s))
  {
    if ds != [] {
      FractionFits(ds[1..], if s.i64 <= FAST_LIMIT then FastStep(s, ds[0]) else SlowStep(s, ds[0]));
    }
  }

  lemma {:induction false} DigitsFit(ds: Text, exp: nat, maxExp: int)
    requires AllDigits(ds) && exp * 10 + 9 <= 0x7FFF_FFFF && maxExp * 10 + 9 <= 0x7FFF_FFFF
    ensures AllFit(DigitOps(ds, exp, maxExp))
    ensures CappedExponent(ds, exp, maxExp) <= if exp > maxExp then exp * 10 + 9 else maxExp * 10 + 9
  {
    if ds != [] {
      var e := exp * 10 + (ds[0] - 0x30);
      if e <= maxExp {
        DigitsFit(ds[1..], e, maxExp);
      }
    }
  }

  lemma FractionBound(n: Numeral)
    requires LegalNumeral(n)
    ensures AfterFraction(n).expFrac <= 0
    ensures n.frac.Some? ==> -|n.frac.value| <= AfterFraction(n).expFrac
    ensures n.frac.None? ==> AfterFraction(n).expFrac == 0
  {
    if n.frac.Some? && FitsInteger(n) {
      FractionShift(n.frac.value, Significand(Value(n.digits), |n.digits| - 1, 0));
    }
  }

  lemma IntegerPartFits(n: Numeral)
    requires LegalNumeral(n)
    ensures AllFit(IntegerOps(n.digits[1..], n.digits[0] - 0x30, 0, LimitOf(n)))
    ensures FitsInteger(n) ==> |n.digits| <= 20
  {
    if n.digits[0] != ZERO {
      assert Pow10(0) == 1;
      IntegerFits(n.digits[1..], n.digits[0] - 0x30, 0, LimitOf(n));
      LeadingDigit(n.digits);
      if FitsInteger(n) {
        FewDigits(Value(n.digits), |n.digits| - 1);
      }
    }
  }

  /** With few enough fraction digits no operation overflows, whatever the runs of digits are. */
  lemma ShortFractionNeverOverflows(n: Numeral)
    requires LegalNumeral(n) && (n.frac.Some? ==> |n.frac.value| <= MAX_FRACTION)
    ensures AllFit(IntOps(n))
  {
    hide Value, IntegerOps, FractionOps, DigitOps, CappedExponent;
    FractionBound(n);
    var s := AfterFraction(n);
    IntegerPartFits(n);
    if n.frac.Some? && FitsInteger(n) {
      FractionFits(n.frac.value, Significand(Value(n.digits), |n.digits| - 1, 0));
    }
    if n.exp.Some? {
      var ds := n.exp.value.digits;
      if PositiveExponent(n) {
        DigitsFit(ds[1..], ds[0] - 0x30, 308 - s.expFrac);
      } else {
        DigitsFit(ds[1..], ds[0] - 0x30, MaxNegative(s.expFrac));
      }
    }
  }

  /** Number tokens shorter than 200 million characters never overflow an `int`. */
  lemma ShortTokenNeverOverflows(n: Numeral)
    requires LegalNumeral(n) && |NumeralText(n)| < 200_000_000
    ensures AllFit(IntOps(n))
  {
    ShortFractionNeverOverflows(n);
  }

  function Zeros(k: nat): Text {
    seq(k, i => ZERO)
  }

  lemma {:induction false} ZeroFraction(k: nat, s: Significand)
    requires s.i64 == 0
    ensures AllDigits(Zeros(k)) && TakeFraction(Zeros(k), s) == s.(expFrac := s.expFrac - k)
  {
    var ds := Zeros(k);
    TakeFractionStep(ds, s);
    if k == 0 {
      assert Slow([], s) == s;
    } else {
      assert ds[1..] == Zeros(k - 1);
      ZeroFraction(k - 1, FastStep(s, ds[0]));
    }
  }

  /** Digits that stay within the bound up to some place, and pass INT_MAX at the next, overflow. */
  lemma {:induction false} PrefixOverflows(ds: Text, done: Text, k: nat, maxExp: int)
    requires AllDigits(ds) && AllDigits(done) && k < |ds|
    requires Value(done + ds[..k]) <= maxExp && Value(done + ds[..k + 1]) > 0x7FFF_FFFF
    ensures !AllFit(DigitOps(ds, Value(done), maxExp))
  {
    hide Value, AllFit;
    DigitAppended(done, ds[0]);
    var next := done + [ds[0]];
    var e := Value(next);
    if k == 0 {
      assert done + ds[..1] == next;
      var later := if e > maxExp then [] else DigitOps(ds[1..], e, maxExp);
      OverflowsAt([Value(done) * 10], e, later);
      assert [Value(done) * 10] + [e] + later == DigitOps(ds, Value(done), maxExp);
    } else {
      hide DigitOps;
      assert done + ds[..k] == next + ds[1..][..k - 1];
      assert done + ds[..k + 1] == next + ds[1..][..k];
      ValueMonotone(next, ds[1..][..k - 1]);
      PrefixOverflows(ds[1..], next, k - 1, maxExp);
      DigitOpsStep(ds, Value(done), maxExp);
      OverflowsLater([Value(done) * 10, e], DigitOps(ds[1..], e, maxExp));
    }
  }

  lemma DigitOpsStep(ds: Text, exp: nat, maxExp: int)
    requires AllDigits(ds) && ds != [] && exp * 10 + (ds[0] - 0x30) <= maxExp
    ensures var e := exp * 10 + (ds[0] - 0x30);
            DigitOps(ds, exp, maxExp) == [exp * 10, e] + DigitOps(ds[1..], e, maxExp)
  {
  }

  lemma OverflowsAt(a: seq<int>, v: int, b: seq<int>)
    requires !FitsInt(v)
    ensures !AllFit(a + [v] + b)
  {
    assert (a + [v] + b)[|a|] == v;
  }

  lemma OverflowsLater(a: seq<int>, b: seq<int>)
    requires !AllFit(b)
    ensures !AllFit(a + b)
  {
    var k :| 0 <= k < |b| && !FitsInt(b[k]);
    assert (a + b)[|a| + k] == b[k];
  }

  lemma DigitAppended(whole: Text, d: byte)
    requires AllDigits(whole) && IsDigit(d)
    ensures AllDigits(whole + [d]) && Value(whole + [d]) == Value(whole) * 10 + (d - 0x30)
  {
    assert (whole + [d])[..|whole|] == whole;
  }

  /** 214748364, and one digit more. */
  const LARGE: Text := [0x32, 0x31, 0x34, 0x37, 0x34, 0x38, 0x33, 0x36, 0x34]

  lemma LargeValue()
    ensures AllDigits(LARGE) && Value(LARGE) == 214748364
    ensures AllDigits(LARGE + [0x38]) && Value(LARGE + [0x38]) == 2147483648
  {
    hide Value;
    NoDigits();
    var d1 := [] + [0x32];
    DigitAppended([], 0x32);
    var d2 := d1 + [0x31];
    DigitAppended(d1, 0x31);
    var d3 := d2 + [0x34];
    DigitAppended(d2, 0x34);
    var d4 := d3 + [0x37];
    DigitAppended(d3, 0x37);
    var d5 := d4 + [0x34];
    DigitAppended(d4, 0x34);
    var d6 := d5 + [0x38];
    DigitAppended(d5, 0x38);
    var d7 := d6 + [0x33];
    DigitAppended(d6, 0x33);
    var d8 := d7 + [0x36];
    DigitAppended(d7, 0x36);
    DigitAppended(d8, 0x34);
    assert d8 + [0x34] == LARGE;
    DigitAppended(LARGE, 0x38);
  }

  lemma NoDigits()
    ensures Value([]) == 0
  {
  }

  /** `0.00…0e2147483648` with f fraction digits. */
  function LongFraction(f: nat): Numeral {
    Numeral(false, [ZERO], Some(Zeros(f)), Some(Exponent(0x65, [], LARGE + [0x38])))
  }

  lemma LongFractionOverflows(f: nat)
    requires f > MAX_FRACTION
    ensures LegalNumeral(LongFraction(f)) && !AllFit(IntOps(LongFraction(f)))
  {
    hide Value, FractionOps, DigitOps, TakeFraction;
    var n := LongFraction(f);
    LargeValue();
    NoDigits();
    DigitAppended([], ZERO);
    ZeroFraction(f, Significand(0, 0, 0));
    DigitAppended([], LARGE[0]);
    var ds := LARGE + [0x38];
    assert [] + [LARGE[0]] == ds[..1];
    assert [] + [ZERO] == [ZERO];
    assert ds[..1] + ds[1..][..8] == LARGE && ds[..1] + ds[1..][..9] == ds;
    PrefixOverflows(ds[1..], ds[..1], 8, 308 + f);
    var ops := DigitOps(ds[1..], 2, 308 + f);
    var k :| 0 <= k < |ops| && !FitsInt(ops[k]);
    var before := FractionOps(n.frac.value, Significand(0, 0, 0));
    assert IntegerOps(n.digits[1..], 0, 0, LimitOf(n)) == [];
    assert IntOps(n)[|before| + 1 + k] == ops[k];
  }

  /** The bound is exact: with one more fraction digit some exponent makes `exp * 10 + digit` pass INT_MAX. */
  lemma FractionBoundIsExact(f: nat)
    requires f > 0
    ensures f <= MAX_FRACTION <==>
              forall n | LegalNumeral(n) && n.frac.Some? && |n.frac.value| == f :: AllFit(IntOps(n))
  {
    if f <= MAX_FRACTION {
      forall n | LegalNumeral(n) && n.frac.Some? && |n.frac.value| == f ensures AllFit(IntOps(n)) {
        ShortFractionNeverOverflows(n);
      }
    } else {
      LongFractionOverflows(f);
    }
  }

  // ---------------------------------------------------------------- the value denoted

  /** 10 to any integer power. */
  function TenTo(e: int): (r: real)
    ensures r > 0.0
    decreases if e < 0 then -e else e
  {
    if e == 0 then 1.0 else if e > 0 then 10.0 * TenTo(e - 1) else TenTo(e + 1) / 10.0
  }

  lemma TenToStep(e: int)
    ensures TenTo(e + 1) == 10.0 * TenTo(e)
  {
  }

  lemma {:induction false} TenToSum(a: int, b: int)
    ensures TenTo(a + b) == TenTo(a) * TenTo(b)
    decreases if b < 0 then -b else b
  {
    hide TenTo;
    if b == 0 {
      TenToZero();
    } else if b > 0 {
      TenToSum(a, b - 1);
      TenToStep(a + (b - 1));
      TenToStep(b - 1);
      TenTimes(TenTo(a), TenTo(b - 1));
    } else {
      TenToSum(a, b + 1);
      TenToStep(a + b);
      TenToStep(b);
      TenTimes(TenTo(a), TenTo(b));
    }
  }

  lemma TenTimes(x: real, y: real)
    ensures x * (10.0 * y) == 10.0 * (x * y)
  {
  }

  lemma {:induction false} TenToNat(n: nat)
    ensures TenTo(n) == Pow10(n) as real
  {
    if n > 0 {
      TenToNat(n - 1);
    }
  }

  /** The exponent as written. */
  function WrittenExponent(n: Numeral): int
    requires LegalNumeral(n)
  {
    if n.exp.None? then 0
    else if PositiveExponent(n) then Value(n.exp.value.digits)
    else 0 - Value(n.exp.value.digits)
  }

  /** The magnitude of a numeral, read as section 6 of RFC 8259 does. */
  function Magnitude(n: Numeral): real
    requires LegalNumeral(n)
  {
    (Value(n.digits) as real
     + (if n.frac.None? then 0.0 else Value(n.frac.value) as real * TenTo(-|n.frac.value|)))
    * TenTo(WrittenExponent(n))
  }

  /** All fraction digits went into the 64-bit significand, and a negative exponent stayed below its bound. */
  predicate NothingCutOff(n: Numeral)
    requires LegalNumeral(n)
  {
    && FitsInteger(n)
    && (n.frac.Some? ==> Fast(n.frac.value, Significand(Value(n.digits), |n.digits| - 1, 0)).0 == |n.frac.value|)
    && (n.exp.Some? && !PositiveExponent(n) ==> Value(n.exp.value.digits) <= MaxNegative(AfterFraction(n).expFrac))
  }

  /** The digits taken are a prefix of the fraction: the significand is their value, and -expFrac their number. */
  lemma {:induction false} TakesPrefix(whole: Text, ds: Text, s: Significand)
    requires AllDigits(whole) && AllDigits(ds) && s.i64 == Value(whole)
    ensures var r := TakeFraction(ds, s); var k := s.expFrac - r.expFrac;
            && 0 <= k <= |ds| && r.i64 == Value(whole + ds[..k])
            && (k < |ds| ==> r.digits >= 17)
    decreases |ds|
  {
    hide Value, TakeFraction;
    TakeFractionStep(ds, s);
    if ds != [] && s.i64 <= FAST_LIMIT {
      DigitAppended(whole, ds[0]);
      var s' := FastStep(s, ds[0]);
      TakesPrefix(whole + [ds[0]], ds[1..], s');
      var k := s'.expFrac - TakeFraction(ds[1..], s').expFrac;
      assert whole + ds[..k + 1] == whole + [ds[0]] + ds[1..][..k];
    } else {
      SlowTakesPrefix(whole, ds, s);
    }
  }

  lemma {:induction false} SlowTakesPrefix(whole: Text, ds: Text, s: Significand)
    requires AllDigits(whole) && AllDigits(ds) && s.i64 == Value(whole)
    ensures var r := Slow(ds, s); var k := s.expFrac - r.expFrac;
            && 0 <= k <= |ds| && r.i64 == Value(whole + ds[..k])
            && (k < |ds| ==> r.digits >= 17)
    decreases |ds|
  {
    hide Value;
    if ds == [] || s.digits >= 17 {
      if ds != [] {
        SlowIdle(ds, s);
      }
      assert whole + ds[..0] == whole;
    } else {
      DigitAppended(whole, ds[0]);
      var s' := FastStep(s, ds[0]);
      assert Slow(ds, s) == Slow(ds[1..], s');
      hide Slow;
      SlowTakesPrefix(whole + [ds[0]], ds[1..], s');
      var k := s'.expFrac - Slow(ds[1..], s').expFrac;
      assert whole + ds[..k + 1] == whole + [ds[0]] + ds[1..][..k];
    }
  }

  /** The fast loop takes digits as long as the significand is below 2^53, where a double holds every integer. */
  lemma {:induction false} FastStopsAt53Bits(ds: Text, s: Significand)
    requires AllDigits(ds)
    ensures var (k, r) := Fast(ds, s);
            && (k < |ds| ==> r.i64 >= 0x20_0000_0000_0000)
            && (k > 0 ==> r.i64 / 10 < 0x20_0000_0000_0000)
    decreases |ds|
  {
    if ds != [] && s.i64 <= FAST_LIMIT {
      FastStopsAt53Bits(ds[1..], FastStep(s, ds[0]));
      OneDigitMore(s.i64, ds[0] - 0x30);
      if Fast(ds[1..], FastStep(s, ds[0])).0 == 0 {
        FastNothing(ds[1..], FastStep(s, ds[0]));
      }
    }
  }

  lemma FastNothing(ds: Text, s: Significand)
    requires AllDigits(ds) && Fast(ds, s).0 == 0
    ensures Fast(ds, s).1 == s
  {
  }

  lemma OneDigitMore(v: nat, d: nat)
    requires d < 10
    ensures (v * 10 + d) / 10 == v
  {
  }

  /** While 64 bits hold the integer part, the significand never leaves 64 bits on the fast path. */
  lemma {:induction false} FastStays64(ds: Text, s: Significand)
    requires AllDigits(ds) && s.i64 < 0x1_0000_0000_0000_0000
    ensures Fast(ds, s).1.i64 < 0x1_0000_0000_0000_0000
  {
    if ds != [] && s.i64 <= FAST_LIMIT {
      FastStays64(ds[1..], FastStep(s, ds[0]));
    }
  }

  lemma {:induction false} FastTakesAll(ds: Text, s: Significand)
    requires AllDigits(ds) && Fast(ds, s).0 == |ds|
    ensures TakeFraction(ds, s) == Fast(ds, s).1 && TakeFraction(ds, s).expFrac == s.expFrac - |ds|
    decreases |ds|
  {
    TakeFractionStep(ds, s);
    if ds != [] {
      FastTakesAll(ds[1..], FastStep(s, ds[0]));
    }
  }

  lemma {:induction false} UncappedExponent(ds: Text, done: Text, maxExp: int)
    requires AllDigits(ds) && AllDigits(done) && Value(done + ds) <= maxExp
    ensures CappedExponent(ds, Value(done), maxExp) == Value(done + ds)
    decreases |ds|
  {
    if ds == [] {
      assert done + ds == done;
    } else {
      DigitAppended(done, ds[0]);
      assert done + ds == done + [ds[0]] + ds[1..];
      ValueMonotone(done + [ds[0]], ds[1..]);
      UncappedExponent(ds[1..], done + [ds[0]], maxExp);
    }
  }

  /** An exponent that is not cut off is the one that was written. */
  /** `maxExp` is the largest exponent to which one more digit, a nine, may be added without leaving `int`. */
  lemma MaxNegativeIsExact(expFrac: int, e: int)
    requires expFrac + 2147483639 >= 0
    ensures e <= MaxNegative(expFrac) <==> FitsInt(0 - (e * 10 + 9) + expFrac) || 0 - (e * 10 + 9) + expFrac >= 0x8000_0000
  {
  }

  /** The first k digits are taken: all of them, or as many as it takes to pass `maxExp`, but one at least. */
  ghost predicate CutBehind(ds: Text, maxExp: int, taken: nat, k: nat)
    requires AllDigits(ds)
  {
    && 1 <= k <= |ds| && taken == Value(ds[..k])
    && (k < |ds| ==> k > 1 && Value(ds[..k]) > maxExp)
    && forall j | 1 < j < k :: Value(ds[..j]) <= maxExp
  }

  lemma {:induction false} ExponentCut(ds: Text, p: nat, maxExp: int) returns (k: nat)
    requires AllDigits(ds) && 1 <= p <= |ds| && forall j | 1 < j <= p :: Value(ds[..j]) <= maxExp
    ensures k >= p && CutBehind(ds, maxExp, CappedExponent(ds[p..], Value(ds[..p]), maxExp), k)
    decreases |ds| - p
  {
    hide Value;
    if p == |ds| {
      k := p;
    } else {
      NextDigit(ds, p);
      assert ds[p..][0] == ds[p] && ds[p..][1..] == ds[p + 1..];
      if Value(ds[..p + 1]) > maxExp {
        k := p + 1;
      } else {
        k := ExponentCut(ds, p + 1, maxExp);
      }
    }
  }

  lemma NextDigit(ds: Text, p: nat)
    requires AllDigits(ds) && p < |ds|
    ensures Value(ds[..p + 1]) == Value(ds[..p]) * 10 + (ds[p] - 0x30)
  {
    assert ds[..p + 1][..p] == ds[..p];
  }

  /** A negative exponent is that of all its digits, or of the shortest run of two or more that passes `maxExp`. */
  lemma NegativeExponentTaken(n: Numeral) returns (k: nat)
    requires LegalNumeral(n) && n.exp.Some? && !PositiveExponent(n)
    ensures ExponentOf(n) <= 0
    ensures CutBehind(n.exp.value.digits, MaxNegative(AfterFraction(n).expFrac), -ExponentOf(n), k)
  {
    hide AfterFraction, CutBehind, MaxNegative, CappedExponent;
    var ds := n.exp.value.digits;
    assert ds[..1] == [ds[0]] && [ds[0]][..0] == [];
    k := ExponentCut(ds, 1, MaxNegative(AfterFraction(n).expFrac));
  }

  lemma ExponentAsWritten(n: Numeral)
    requires LegalNumeral(n) && NothingCutOff(n)
    ensures ExponentOf(n) == WrittenExponent(n)
  {
    if n.exp.Some? && !PositiveExponent(n) {
      var ds := n.exp.value.digits;
      assert ds[..1] + ds[1..] == ds;
      assert ds[..1][..0] == [];
      UncappedExponent(ds[1..], ds[..1], MaxNegative(AfterFraction(n).expFrac));
    }
  }

  /** (integer part + fraction) as one digit string, scaled. */
  lemma DigitsJoined(whole: Text, frac: Text)
    requires AllDigits(whole) && AllDigits(frac)
    ensures Value(whole) as real + Value(frac) as real * TenTo(-|frac|) == Value(whole + frac) as real * TenTo(-|frac|)
  {
    hide Value, TenTo, Pow10;
    var n := |frac|;
    ValueMonotone(whole, frac);
    TenToNat(n);
    TenToSum(n, -n);
    TenToZero();
    RealProduct(Value(whole), Pow10(n));
    Rescale(Value(whole) as real, Value(frac) as real, Pow10(n) as real, TenTo(-n));
  }

  lemma TenToZero()
    ensures TenTo(0) == 1.0
  {
  }

  lemma {:induction false} RealProduct(x: nat, y: nat)
    ensures (x * y) as real == x as real * y as real
  {
    if y > 0 {
      RealProduct(x, y - 1);
      assert x * y == x * (y - 1) + x;
      assert x as real * y as real == x as real * (y - 1) as real + x as real;
    }
  }

  lemma Rescale(w: real, f: real, p: real, q: real)
    requires p * q == 1.0
    ensures w + f * q == (w * p + f) * q
  {
    assert (w * p + f) * q == w * (p * q) + f * q;
  }

  /**
    On the 64-bit path with nothing cut off, the significand and the decimal exponent denote exactly the
    number that was written, and the significand fits its 64-bit word.
   */
  lemma ExactlyTheNumberWritten(n: Numeral)
    requires LegalNumeral(n) && NothingCutOff(n)
    ensures AfterFraction(n).i64 < 0x1_0000_0000_0000_0000
    ensures Magnitude(n) == AfterFraction(n).i64 as real * TenTo(ExponentOf(n) + AfterFraction(n).expFrac)
  {
    hide Value, CappedExponent, Fast, TakeFraction, TenTo, MaxNegative;
    ExponentAsWritten(n);
    var s, e := AfterFraction(n), ExponentOf(n);
    var start := Significand(Value(n.digits), |n.digits| - 1, 0);
    if n.frac.Some? {
      var ds := n.frac.value;
      FastTakesAll(ds, start);
      FastStays64(ds, start);
      TakesPrefix(n.digits, ds, start);
      assert ds[..|ds|] == ds;
      DigitsJoined(n.digits, ds);
      TenToSum(e, -|ds|);
      Regroup(s.i64 as real, TenTo(-|ds|), TenTo(e));
    }
  }

  lemma Regroup(a: real, b: real, c: real)
    ensures a * b * c == a * (c * b)
  {
  }

  /**
    Digits that are cut off only lower the value, by less than one unit of the last digit taken. The significand is
    exact here; behind 53 bits the code keeps it in a double, so this is a statement about the digits taken, and the
    rounding of that double comes on top.
   */
  lemma FractionTruncates(n: Numeral)
    requires LegalNumeral(n) && n.frac.Some? && FitsInteger(n)
    ensures var k := -AfterFraction(n).expFrac;
            && 0 <= k <= |n.frac.value| && AfterFraction(n).i64 == Value(n.digits + n.frac.value[..k])
            && (k < |n.frac.value| ==> AfterFraction(n).digits >= 17)
    ensures var s := AfterFraction(n); var rest := Pow10(|n.frac.value| + s.expFrac);
            s.i64 * rest <= Value(n.digits + n.frac.value) < (s.i64 + 1) * rest
  {
    hide TakeFraction, Pow10;
    var ds := n.frac.value;
    TakesPrefix(n.digits, ds, Significand(Value(n.digits), |n.digits| - 1, 0));
    var k := -AfterFraction(n).expFrac;
    assert n.digits + ds == (n.digits + ds[..k]) + ds[k..];
    ValueMonotone(n.digits + ds[..k], ds[k..]);
    ValueBound(ds[k..]);
    Distribute(AfterFraction(n).i64, Pow10(|ds| - k));
  }

  /** The significand has as many decimal digits as are counted, and one more if it began with a nonzero one. */
  predicate InDecimal(s: Significand, extra: nat) {
    && s.digits >= 0 && extra <= 1
    && if s.i64 == 0 then s.digits == extra == 0
       else s.digits + extra > 0 && Pow10(s.digits + extra - 1) <= s.i64 < Pow10(s.digits + extra)
  }

  lemma DigitCounted(s: Significand, extra: nat, d: byte)
    requires InDecimal(s, extra) && IsDigit(d)
    ensures InDecimal(FastStep(s, d), extra)
    ensures FastStep(s, d).digits <= s.digits + 1
  {
    if s.i64 > 0 {
      assert Pow10(s.digits + 1 + extra) == 10 * Pow10(s.digits + extra);
      assert Pow10(s.digits + extra) == 10 * Pow10(s.digits + extra - 1);
    }
  }

  /** Below 2^53 are at most 16 digits. */
  lemma FastIsShort(s: Significand, extra: nat)
    requires InDecimal(s, extra) && s.i64 <= FAST_LIMIT
    ensures s.digits <= 16
  {
    if s.digits > 16 {
      PowSeventeen();
      assert Pow10(17) == 10 * Pow10(16);
      Pow10Monotone(16, s.digits + extra - 1);
    }
  }

  lemma {:induction false} KeptUntil17(ds: Text, s: Significand, extra: nat)
    requires AllDigits(ds) && InDecimal(s, extra)
    ensures var r := TakeFraction(ds, s);
            && InDecimal(r, extra) && s.digits <= r.digits && (r.digits <= 17 || r == s)
            && (r.expFrac > s.expFrac - |ds| ==> r.digits >= 17)
    decreases |ds|
  {
    hide Pow10, Slow, Fast, InDecimal, TakeFraction;
    TakeFractionStep(ds, s);
    if ds != [] && s.i64 <= FAST_LIMIT {
      FastIsShort(s, extra);
      DigitCounted(s, extra, ds[0]);
      KeptUntil17(ds[1..], FastStep(s, ds[0]), extra);
    } else {
      SlowKeptUntil17(ds, s, extra);
    }
  }

  lemma {:induction false} SlowKeptUntil17(ds: Text, s: Significand, extra: nat)
    requires AllDigits(ds) && InDecimal(s, extra)
    ensures var r := Slow(ds, s);
            && InDecimal(r, extra) && s.digits <= r.digits && (r.digits <= 17 || r == s)
            && (r.expFrac > s.expFrac - |ds| ==> r.digits >= 17)
    decreases |ds|
  {
    hide Pow10, InDecimal;
    if ds != [] {
      if s.digits < 17 {
        DigitCounted(s, extra, ds[0]);
        SlowKeptUntil17(ds[1..], FastStep(s, ds[0]), extra);
      } else {
        SlowIdle(ds, s);
      }
    }
  }

  /**
    Digits are cut off only behind 17 significant ones when the integer part is zero, and behind 18 when it is not; an
    integer part as long as that leaves room for no fraction digit at all.
   */
  lemma DigitsKept(n: Numeral)
    requires LegalNumeral(n) && n.frac.Some? && FitsInteger(n)
    requires -AfterFraction(n).expFrac < |n.frac.value|
    ensures var s := AfterFraction(n);
            if n.digits == [ZERO] then Pow10(16) <= s.i64 < Pow10(17)
            else if |n.digits| >= 18 then s.expFrac == 0
            else |n.digits| - s.expFrac == 18
  {
    hide Pow10, TakeFraction;
    var start := Significand(Value(n.digits), |n.digits| - 1, 0);
    var extra := if n.digits == [ZERO] then 0 else 1;
    StartsDecimal(n);
    KeptUntil17(n.frac.value, start, extra);
    var s := AfterFraction(n);
    FractionTruncates(n);
    if n.digits != [ZERO] {
      DigitsOf(n.digits + n.frac.value[..-s.expFrac]);
      SameLength(s.i64, s.digits + 1, |n.digits| - s.expFrac);
    }
  }

  lemma StartsDecimal(n: Numeral)
    requires LegalNumeral(n)
    ensures var start := Significand(Value(n.digits), |n.digits| - 1, 0);
            InDecimal(start, if n.digits == [ZERO] then 0 else 1)
  {
    if n.digits == [ZERO] {
      assert [ZERO][..0] == [];
    } else {
      DigitsOf(n.digits);
    }
  }

  /** A digit string that begins with a nonzero digit has as many digits as its value. */
  lemma {:induction false} DigitsOf(ds: Text)
    requires SomeDigits(ds) && ds[0] != ZERO
    ensures Value(ds) > 0 && Pow10(|ds| - 1) <= Value(ds) < Pow10(|ds|)
    decreases |ds|
  {
    if |ds| == 1 {
      assert ds[..0] == [];
    } else {
      DigitsOf(ds[..|ds| - 1]);
    }
  }

  lemma SameLength(v: nat, a: nat, b: nat)
    requires a > 0 && b > 0 && Pow10(a - 1) <= v < Pow10(a) && Pow10(b - 1) <= v < Pow10(b)
    ensures a == b
  {
    hide Pow10;
    if a < b {
      Pow10Monotone(a, b - 1);
    } else if b < a {
      Pow10Monotone(b, a - 1);
    }
  }

  lemma Distribute(a: int, p: int)
    ensures (a + 1) * p == a * p + p
  {
  }

  // ---------------------------------------------------------------- zero with a large exponent

  lemma {:induction false} ZerosAreZero(k: nat)
    ensures AllDigits(Zeros(k)) && Value(Zeros(k)) == 0
  {
    if k > 0 {
      ZerosAreZero(k - 1);
      assert Zeros(k)[..k - 1] == Zeros(k - 1);
    }
  }

  /** Zero, written with or without a fraction and an exponent. */
  predicate IsZero(n: Numeral) {
    n.digits == Zeros(1) && (n.frac.Some? ==> n.frac.value == Zeros(|n.frac.value|))
  }

  /**
    Zero is refused whatever the floating-point conversion says if and only if its exponent is positive and beyond
    308 plus the number of fraction digits; the value denoted is 0 all the same.
   */
  lemma ZeroRefused(n: Numeral)
    requires LegalNumeral(n) && IsZero(n)
    ensures Magnitude(n) == 0.0
    ensures (forall env :: Refused(env, n)) <==>
              PositiveExponent(n)
              && Value(n.exp.value.digits) > 308 + if n.frac.None? then 0 else |n.frac.value|
  {
    hide Value, TenTo, TakeFraction;
    ZerosAreZero(1);
    if n.frac.Some? {
      ZerosAreZero(|n.frac.value|);
      ZeroFraction(|n.frac.value|, Significand(0, 0, 0));
    }
    var calm := Env([], false, false, _ => true, _ => false);
    assert Refused(calm, n) <==> ExponentTooBig(n);
  }

  // ---------------------------------------------------------------- what the exponent guard refuses

  lemma {:induction false} OnlyZeros(ds: Text)
    requires AllDigits(ds) && Value(ds) == 0
    ensures ds == Zeros(|ds|)
  {
    if ds != [] {
      OnlyZeros(ds[..|ds| - 1]);
      assert ds == ds[..|ds| - 1] + [ds[|ds| - 1]];
    }
  }

  /** A significand that is still zero has counted no digit, so the slow loop goes on. */
  lemma {:induction false} ZeroCountsNothing(ds: Text, s: Significand)
    requires AllDigits(ds) && (s.i64 == 0 ==> s.digits <= 0)
    ensures TakeFraction(ds, s).i64 == 0 ==> TakeFraction(ds, s).digits <= 0
    decreases |ds|
  {
    hide TakeFraction;
    TakeFractionStep(ds, s);
    if ds != [] && s.i64 <= FAST_LIMIT {
      ZeroCountsNothing(ds[1..], FastStep(s, ds[0]));
    } else {
      SlowCountsNothing(ds, s);
    }
  }

  lemma {:induction false} SlowCountsNothing(ds: Text, s: Significand)
    requires AllDigits(ds) && (s.i64 == 0 ==> s.digits <= 0)
    ensures Slow(ds, s).i64 == 0 ==> Slow(ds, s).digits <= 0
    decreases |ds|
  {
    if ds != [] {
      SlowCountsNothing(ds[1..], SlowStep(s, ds[0]));
    }
  }

  /** The significand of a numeral is zero only for a written zero. */
  lemma SignificandNotZero(n: Numeral)
    requires LegalNumeral(n) && !IsZero(n)
    ensures AfterFraction(n).i64 > 0
  {
    hide Value, TakeFraction;
    if AfterFraction(n).i64 == 0 {
      if n.frac.Some? && FitsInteger(n) {
        var ds, start := n.frac.value, Significand(Value(n.digits), |n.digits| - 1, 0);
        PositiveInteger(n.digits);
        ZeroCountsNothing(ds, start);
        TakesPrefix(n.digits, ds, start);
        assert ds[..|ds|] == ds;
        ValueMonotone(n.digits, ds);
        OnlyZeros(ds);
      }
      PositiveInteger(n.digits);
    }
  }

  lemma PositiveInteger(ds: Text)
    requires SomeDigits(ds) && (ds[0] == ZERO ==> |ds| == 1)
    ensures Value(ds) == 0 ==> ds == Zeros(1)
  {
    if ds[0] != ZERO {
      LeadingDigit(ds);
    }
  }

  lemma {:induction false} TenToMonotone(a: int, b: int)
    requires a <= b
    ensures TenTo(a) <= TenTo(b)
    decreases b - a
  {
    hide TenTo;
    if a < b {
      TenToMonotone(a, b - 1);
      TenToStep(b - 1);
    }
  }

  /** The magnitude is at least the significand, shifted by the fraction digits taken and by the exponent. */
  lemma AtLeastTaken(n: Numeral)
    requires LegalNumeral(n)
    ensures Magnitude(n) >= AfterFraction(n).i64 as real * TenTo(WrittenExponent(n) + AfterFraction(n).expFrac)
  {
    hide Value, TakeFraction, TenTo, Pow10, WrittenExponent, LegalExponent;
    var s, e := AfterFraction(n), WrittenExponent(n);
    if n.frac.Some? {
      var ds := n.frac.value;
      if FitsInteger(n) {
        FractionTruncates(n);
        DigitsJoined(n.digits, ds);
        ScaledTaken(s.i64, Value(n.digits + ds), |ds| + s.expFrac, |ds|, e);
      } else {
        Added(Value(n.digits) as real, Value(ds) as real, TenTo(-|ds|), TenTo(e));
      }
    }
  }

  lemma ScaledTaken(i: nat, v: nat, k: nat, l: int, e: int)
    requires i * Pow10(k) <= v
    ensures v as real * TenTo(-l) * TenTo(e) >= i as real * TenTo(e + (k - l))
  {
    hide *;
    TenToNat(k);
    RealProduct(i, Pow10(k));
    TenToSum(k, -l);
    TenToSum(k - l, e);
    Scaled(i as real, TenTo(k), v as real, TenTo(-l), TenTo(e));
  }

  lemma Scaled(a: real, p: real, v: real, q: real, e: real)
    requires a * p <= v && q > 0.0 && e > 0.0
    ensures a * ((p * q) * e) <= (v * q) * e
  {
    assert a * p * q <= v * q;
    assert (a * p * q) * e <= (v * q) * e;
    assert a * ((p * q) * e) == (a * p * q) * e;
  }

  lemma Added(w: real, f: real, q: real, e: real)
    requires f >= 0.0 && q > 0.0 && e > 0.0
    ensures (w + f * q) * e >= w * e
  {
    assert f * q >= 0.0;
  }

  lemma AtLeastPower(a: nat, x: real, y: real)
    requires a > 0 && x >= y > 0.0
    ensures a as real * x >= y
  {
  }

  /**
    What the exponent guard refuses is a written zero, or denotes at least 10^309, which no double reaches: a zero is
    the only numeral refused without being too big.
   */
  lemma GuardRefusesOnlyZeroAndHuge(n: Numeral)
    requires LegalNumeral(n) && ExponentTooBig(n)
    ensures if IsZero(n) then Magnitude(n) == 0.0 else Magnitude(n) >= TenTo(309)
  {
    hide Value, TenTo, TakeFraction, Magnitude;
    if IsZero(n) {
      ZeroRefused(n);
    } else {
      var s := AfterFraction(n);
      SignificandNotZero(n);
      AtLeastTaken(n);
      TenToMonotone(309, WrittenExponent(n) + s.expFrac);
      AtLeastPower(s.i64, TenTo(WrittenExponent(n) + s.expFrac), TenTo(309));
    }
  }

  /** 0e309 */
  lemma ZeroWithLargeExponent()
    ensures var n := Numeral(false, [ZERO], None, Some(Exponent(0x65, [], [0x33, 0x30, 0x39])));
            LegalNumeral(n) && Magnitude(n) == 0.0 && forall env :: Refused(env, n)
  {
    hide Value, TenTo;
    var n := Numeral(false, [ZERO], None, Some(Exponent(0x65, [], [0x33, 0x30, 0x39])));
    NoDigits();
    DigitAppended([], 0x33);
    DigitAppended([0x33], 0x30);
    DigitAppended([0x33, 0x30], 0x39);
    assert [] + [0x33] == [0x33] && [0x33] + [0x30] == [0x33, 0x30] && [0x33, 0x30] + [0x39] == [0x33, 0x30, 0x39];
    assert Zeros(1) == [ZERO];
    ZeroRefused(n);
  }
}
