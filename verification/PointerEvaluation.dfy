/**
  What a pointer means by section 4 of RFC 6901: which value of a document its reference tokens lead to, compared with
  what `Get` finds; and how the characters of its text are spelled.
 */
module PointerEvaluation {
  import opened Bytes
  import opened Encodings
  import opened Events
  import opened Values
  import opened PointerTrees
  import opened Pointers
  import Equality
  import Numbers
  import Strings

  // ---------------------------------------------------------------- characters

  /** unreserved of section 2.3 of RFC 3986. */
  predicate Unreserved(c: byte) {
    var ch := c as char;
    'A' <= ch <= 'Z' || 'a' <= ch <= 'z' || '0' <= ch <= '9' || ch in "-._~"
  }

  lemma UnreservedStaysBare(c: byte)
    ensures NeedPercentEncode(c) <==> !Unreserved(c)
    ensures [SHARP as char, SLASH as char, PERCENT as char, TILDE as char, ZERO as char, ONE as char] == "#/%~01"
    ensures DASH == ['-' as int]
  {
  }

  /** pct-encoded of section 2.1 of RFC 3986: the two digits of a byte, in either case, the high one first. */
  predicate Spells(s: Text, i: nat, b: byte) {
    && i + 3 <= |s| && s[i] as char == '%'
    && Strings.IsDigitFor(s[i + 1], b / 16) && Strings.IsDigitFor(s[i + 2], b % 16)
  }

  lemma TripletSpells(s: Text, i: nat)
    ensures IsTriplet(s, i) <==> exists b: byte :: Spells(s, i, b)
    ensures forall b: byte | Spells(s, i, b) :: IsTriplet(s, i) && Triplet(s, i) == b
  {
    hide Strings.IsHex, Strings.HexValue, Strings.IsDigitFor;
    if i + 3 <= |s| {
      Strings.DigitDenotes(s[i + 1]);
      Strings.DigitDenotes(s[i + 2]);
    }
    if IsTriplet(s, i) {
      Strings.HexIsDigit(s[i + 1]);
      Strings.HexIsDigit(s[i + 2]);
      Nibbles(Strings.HexValue(s[i + 1]), Strings.HexValue(s[i + 2]));
      assert Spells(s, i, Triplet(s, i));
    }
  }

  lemma Nibbles(high: nat, low: nat)
    requires high < 16 && low < 16
    ensures (high * 16 + low) / 16 == high && (high * 16 + low) % 16 == low
  {
  }

  /** Triplets are printed with upper-case digits, one for each byte. */
  lemma {:induction false} PercentPrinted(s: Text, k: nat)
    requires k < |s|
    ensures |Percent(s)| == 3 * |s|
    ensures Percent(s)[3 * k..3 * k + 3] == ['%' as int, Strings.UPPER_HEX[s[k] / 16], Strings.UPPER_HEX[s[k] % 16]]
  {
    hide Strings.UPPER_HEX, Strings.HexDigit;
    Strings.UpperDigit(s[0] / 16);
    Strings.UpperDigit(s[0] % 16);
    var head := [PERCENT, Strings.HexDigit(s[0] / 16), Strings.HexDigit(s[0] % 16)];
    assert Percent(s) == head + Percent(s[1..]);
    if |s| == 1 {
      assert s[1..] == [];
    } else if k == 0 {
      PercentPrinted(s[1..], 0);
    } else {
      PercentPrinted(s[1..], k - 1);
      assert Percent(s)[3 * k..3 * k + 3] == Percent(s[1..])[3 * (k - 1)..3 * (k - 1) + 3];
    }
  }

  /** How the first n bytes of a name are printed: one character, escaped by section 3 of RFC 6901, or as triplets. */
  ghost predicate PrintedAs(name: Text, uri: bool, text: Text, n: nat)
    requires name != []
  {
    var c := name[0];
    if c as char == '~' then n == 1 && text == ['~' as int, '0' as int]
    else if c as char == '/' then n == 1 && text == ['~' as int, '1' as int]
    else if !uri || Unreserved(c) then n == 1 && text == [c]
    else
      && n <= |name| && IsUtf8Char(name[..n]) && |text| == 3 * n
      && forall k | 0 <= k < n :: text[3 * k..3 * k + 3] == TripletOf(name[k])
  }

  function TripletOf(b: byte): Text {
    ['%' as int, Strings.UPPER_HEX[b / 16], Strings.UPPER_HEX[b % 16]]
  }

  lemma CharacterPrinted(name: Text, uri: bool, text: Text, n: nat)
    requires name != []
    ensures PrintedChar(name, uri) == Some((text, n)) <==> PrintedAs(name, uri, text, n)
  {
    hide Strings.UPPER_HEX, IsUtf8Char, Unreserved, NeedPercentEncode, Percent, Validate;
    var c := name[0];
    UnreservedStaysBare(c);
    if c != TILDE && c != SLASH && uri && NeedPercentEncode(c) {
      TripletsPrinted(name, text, n);
    }
  }

  lemma TripletsPrinted(name: Text, text: Text, n: nat)
    requires name != []
    ensures var v := Validate(name, 0);
            v.ok && text == Percent(v.out) && n == v.next <==>
              && n <= |name| && IsUtf8Char(name[..n]) && |text| == 3 * n
              && forall k | 0 <= k < n :: text[3 * k..3 * k + 3] == TripletOf(name[k])
  {
    hide Strings.UPPER_HEX, IsUtf8Char, Percent, Validate;
    FirstValidated(name, n);
    var v := Validate(name, 0);
    if n <= |name| {
      var u := name[..n];
      PercentIsTriplets(name, n);
      if IsUtf8Char(u) && |text| == 3 * n && forall k | 0 <= k < n :: text[3 * k..3 * k + 3] == TripletOf(name[k]) {
        forall k | 0 <= k < n ensures text[3 * k..3 * k + 3] == Percent(u)[3 * k..3 * k + 3] {
          assert text[3 * k..3 * k + 3] == TripletOf(name[k]);
        }
        SameTriplets(text, Percent(u), n);
      }
    }
  }

  lemma PercentIsTriplets(name: Text, n: nat)
    requires n <= |name|
    ensures |Percent(name[..n])| == 3 * n
    ensures forall k | 0 <= k < n :: Percent(name[..n])[3 * k..3 * k + 3] == TripletOf(name[k])
  {
    hide Percent, Strings.UPPER_HEX;
    if n == 0 {
      assert Percent([]) == [] by { PercentNothing(); }
    } else {
      PercentPrinted(name[..n], 0);
      forall k | 0 <= k < n ensures Percent(name[..n])[3 * k..3 * k + 3] == TripletOf(name[k]) {
        PercentPrinted(name[..n], k);
      }
    }
  }

  lemma PercentNothing()
    ensures Percent([]) == []
  {
  }

  /** The character validated is the one the name starts with. */
  lemma FirstValidated(name: Text, n: nat)
    requires name != []
    ensures var v := Validate(name, 0);
            v.ok && n == v.next <==> n <= |name| && IsUtf8Char(name[..n])
    ensures var v := Validate(name, 0); v.ok ==> 0 < v.next <= |name| && v.out == name[..v.next]
    ensures n <= |name| && IsUtf8Char(name[..n]) ==> n > 0
  {
    ValidateAgreesWithDecode(name, 0);
    ValidateByLead(name, 0);
    DecodeByLead(name, 0);
    if n <= |name| {
      Utf8CharByLead(name[..n]);
    }
    if Validate(name, 0).ok {
      DecodedIsEncoding(name, 0);
      EncodeIsWellFormed(Decode(name, 0).codepoint);
    }
  }

  lemma SameTriplets(a: Text, b: Text, n: nat)
    requires |a| == |b| == 3 * n && forall k | 0 <= k < n :: a[3 * k..3 * k + 3] == b[3 * k..3 * k + 3]
    ensures a == b
  {
    forall i | 0 <= i < |a| ensures a[i] == b[i] {
      var k := i / 3;
      assert a[i] == a[3 * k..3 * k + 3][i - 3 * k] && b[i] == b[3 * k..3 * k + 3][i - 3 * k];
    }
  }

  // ---------------------------------------------------------------- array indices

  /** array-index of section 4 of RFC 6901: a zero, or digits that do not begin with one. */
  predicate ArrayIndex(name: Text) {
    && name != [] && (forall k | 0 <= k < |name| :: name[k] as char in "0123456789")
    && (name == ['0' as int] || name[0] as char != '0')
  }

  /** Only an array-index is ever taken for an index. */
  lemma NumeralIsArrayIndex(name: Text)
    ensures IsNumeral(name) <==> ArrayIndex(name)
    ensures !ArrayIndex(name) ==> IndexOf(name) == INVALID
  {
  }

  /** The index is the value of the numeral, or none if that is too large; `IndexAsDocumented` tells when. */
  predicate Documented(name: Text)
    requires IsNumeral(name)
  {
    IndexOf(name) == if Numbers.Value(name) < INVALID then Numbers.Value(name) else INVALID
  }

  predicate AllDocumented(names: seq<Text>) {
    forall name | name in names :: IsNumeral(name) ==> Documented(name)
  }

  // ---------------------------------------------------------------- evaluation

  /** The k-th member is the first of that name. */
  predicate FirstNamed(ms: seq<Member>, name: Text, k: nat) {
    k < |ms| && ms[k].name == StringValue(name) && forall j | 0 <= j < k :: ms[j].name != StringValue(name)
  }

  /**
    Section 4: a reference token leads from an object to the member of that name, the first one here, and from an
    array to the element at the zero-based index that the token denotes; from any other value it leads nowhere.
   */
  ghost predicate Leads(v: Value, names: seq<Text>, w: Value)
    decreases |names|
  {
    if names == [] then w == v
    else
      match v
      case ObjectValue(ms) => exists k: nat :: FirstNamed(ms, names[0], k) && Leads(ms[k].value, names[1..], w)
      case ArrayValue(es) =>
        ArrayIndex(names[0]) && NumberAt(names[0]) < |es| && Leads(es[NumberAt(names[0])], names[1..], w)
      case _ => false
  }

  function NumberAt(name: Text): nat
    requires ArrayIndex(name)
  {
    NumeralIsArrayIndex(name);
    Numbers.Value(name)
  }

  function NamesOf(ts: seq<Token>): seq<Text> {
    seq(|ts|, k requires 0 <= k < |ts| => ts[k].name)
  }

  lemma NamesStep(ts: seq<Token>)
    requires ts != []
    ensures NamesOf(ts) != [] && NamesOf(ts)[0] == ts[0].name && NamesOf(ts)[1..] == NamesOf(ts[1..])
  {
  }

  /** One token leads to the child that `Resolve` finds. */
  lemma ResolveLeads(v: Value, t: Token)
    requires Valid(v) && t.index == IndexOf(t.name) && (IsNumeral(t.name) ==> Documented(t.name))
    ensures match v
            case ObjectValue(ms) => forall k: nat :: FirstNamed(ms, t.name, k) <==> Resolve(v, t) == Some(k)
            case ArrayValue(es) =>
              if ArrayIndex(t.name) && NumberAt(t.name) < |es| then Resolve(v, t) == Some(NumberAt(t.name))
              else Resolve(v, t).None?
            case _ => Resolve(v, t).None?
  {
    hide IndexOf, IsNumeral, ArrayIndex, Numbers.Value, Valid;
    NumeralIsArrayIndex(t.name);
    SizeOf(v);
    if v.ObjectValue? {
      var i := Equality.Find(v.members, StringValue(t.name));
      forall k: nat ensures FirstNamed(v.members, t.name, k) <==> Resolve(v, t) == Some(k) {
        if FirstNamed(v.members, t.name, k) && i < |v.members| {
          assert k == i;
        }
      }
    }
  }

  lemma SizeOf(v: Value)
    requires Valid(v)
    ensures v.ArrayValue? ==> |v.elements| <= INVALID
  {
  }

  lemma ChildIsValid(v: Value, k: nat)
    requires Valid(v) && HasChild(v, k)
    ensures Valid(Child(v, k))
  {
  }

  /** `Get` finds the value w. */
  predicate Finds(v: Value, ts: seq<Token>, w: Value) {
    Get(v, ts).Some? && IsPath(v, Get(v, ts).value) && NodeAt(v, Get(v, ts).value) == w
  }

  /** `Get` finds exactly the value that the reference tokens lead to, if all their indices are as documented. */
  lemma {:induction false} GetIsEvaluation(v: Value, ts: seq<Token>, w: Value)
    requires Valid(v) && Indexed(ts) && AllDocumented(NamesOf(ts))
    ensures Leads(v, NamesOf(ts), w) <==> Finds(v, ts, w)
    decreases |ts|
  {
    hide Valid, IndexOf, Documented, IsNumeral, Resolve, NamesOf, ArrayIndex;
    if ts == [] {
      assert NamesOf(ts) == [] by { NoNames(); }
    } else {
      NamesStep(ts);
      ResolveLeads(v, ts[0]);
      if Resolve(v, ts[0]).Some? {
        var k := Resolve(v, ts[0]).value;
        ResolvedChild(v, ts[0]);
        ChildIsValid(v, k);
        GetIsEvaluation(Child(v, k), ts[1..], w);
        GetStepDown(v, ts, k);
      }
    }
  }

  lemma NoNames()
    ensures NamesOf([]) == []
  {
  }

  lemma ResolvedChild(v: Value, t: Token)
    requires Resolve(v, t).Some?
    ensures HasChild(v, Resolve(v, t).value)
  {
  }

  lemma GetStepDown(v: Value, ts: seq<Token>, k: nat)
    requires ts != [] && Resolve(v, ts[0]) == Some(k)
    ensures HasChild(v, k) && Get(v, ts) == Below([k], Get(Child(v, k), ts[1..]))
    ensures Get(v, ts).Some? ==>
              var p := Get(Child(v, k), ts[1..]).value;
              && IsPath(Child(v, k), p) && IsPath(v, Get(v, ts).value)
              && NodeAt(v, Get(v, ts).value) == NodeAt(Child(v, k), p)
  {
    ResolvedChild(v, ts[0]);
    if Get(v, ts).Some? {
      var p := Get(Child(v, k), ts[1..]).value;
      GetIsPath(Child(v, k), ts[1..]);
      assert ([k] + p)[0] == k && ([k] + p)[1..] == p;
    }
  }

  /** An index that is not as documented is found in an array too short for the number written. */
  lemma UndocumentedFinds(name: Text)
    requires IsNumeral(name) && !Documented(name)
    ensures var v, t := ArrayValue(Nulls(IndexOf(name) + 1)), Token(name, IndexOf(name));
            Valid(v) && Finds(v, [t], NullValue) && forall w :: !Leads(v, [name], w)
  {
    hide IsNumeral, IndexOf, Numbers.Value, Drops;
    IndexIsWord(name);
    NumeralIsArrayIndex(name);
    var i := IndexOf(name);
    var v, t := ArrayValue(Nulls(i + 1)), Token(name, i);
    WordBelow(Numbers.Value(name));
    GetLast(v, [t]);
    assert Get(v, [t]) == Some([i]);
    assert [i][1..] == [];
    assert IsPath(Child(v, i), []) && NodeAt(Child(v, i), []) == NullValue;
  }

  lemma WordBelow(n: nat)
    ensures n < W32 ==> n % W32 == n
    ensures n % W32 < W32 && n % W32 <= n
  {
    var q, r := n / W32, n % W32;
    assert n == q * W32 + r && q >= 0;
    assert q > 0 ==> n >= W32;
  }

  /** A numeral is evaluated by section 4 in every document if and only if its index is as documented. */
  lemma EvaluationIffDocumented(name: Text)
    requires IsNumeral(name)
    ensures Documented(name) <==>
              forall v, w | Valid(v) :: Leads(v, [name], w) <==> Finds(v, [Token(name, IndexOf(name))], w)
  {
    hide IsNumeral, IndexOf, Documented, Leads, Finds, Valid;
    var ts := [Token(name, IndexOf(name))];
    assert NamesOf(ts) == [name];
    if Documented(name) {
      forall v, w | Valid(v) ensures Leads(v, [name], w) <==> Finds(v, ts, w) {
        GetIsEvaluation(v, ts, w);
      }
    } else {
      UndocumentedFinds(name);
      assert !Leads(ArrayValue(Nulls(IndexOf(name) + 1)), [name], NullValue);
    }
  }
}
