/**
  The text of JSON Pointers: `Parse` of the string and the URI fragment form, `Stringify`, and array indices.
  Names are byte strings; a reference token is the text between two solidi.
 */
module Pointers {
  import opened Bytes
  import opened Encodings
  import opened Events
  import opened PointerTrees
  import Numbers
  import Strings
  import Writers

  const SHARP: byte := 0x23       // #
  const PERCENT: byte := 0x25     // %
  const ONE: byte := 0x31         // 1
  const TILDE: byte := 0x7E       // ~
  const W32: int := 0x1_0000_0000

  datatype Fault = TokenMustBeginWithSolidus | InvalidEscape | InvalidPercentEncoding | CharacterMustPercentEncode

  datatype Parsed = Tokens(tokens: seq<Token>) | Failed(fault: Fault, offset: nat)

  // ---------------------------------------------------------------- array indices

  /** All digits, and no leading zero. */
  predicate IsNumeral(name: Text) {
    name != [] && Numbers.AllDigits(name) && (|name| > 1 ==> name[0] != ZERO)
  }

  /** The conversion loop: 32-bit arithmetic, given up where the number gets smaller. */
  function Converted(name: Text, j: nat, n: uint32): uint32
    requires j <= |name| && Numbers.AllDigits(name)
    decreases |name| - j
  {
    if j == |name| then n
    else
      var m := (n * 10 + (name[j] - ZERO)) % W32;
      if m < n then INVALID else Converted(name, j + 1, m)
  }

  function IndexOf(name: Text): uint32 {
    if IsNumeral(name) then Converted(name, 0, 0) else INVALID
  }

  /** The first k digits, as the 32-bit word the loop holds after them. */
  function WordAt(name: Text, k: nat): uint32
    requires k <= |name| && Numbers.AllDigits(name)
  {
    Numbers.Value(name[..k]) % W32
  }

  /** The word gets smaller at the digit k: the overflow the loop sees. */
  predicate DropsAt(name: Text, k: nat)
    requires k < |name| && Numbers.AllDigits(name)
  {
    WordAt(name, k + 1) < WordAt(name, k)
  }

  predicate Drops(name: Text)
    requires Numbers.AllDigits(name)
  {
    exists k | 0 <= k < |name| :: DropsAt(name, k)
  }

  lemma WordStep(name: Text, k: nat)
    requires k < |name| && Numbers.AllDigits(name)
    ensures WordAt(name, k + 1) == (WordAt(name, k) * 10 + (name[k] - ZERO)) % W32
  {
    assert name[..k + 1][..k] == name[..k];
    Modular(Numbers.Value(name[..k]), name[k] - ZERO);
  }

  lemma Modular(v: nat, d: nat)
    ensures (v * 10 + d) % W32 == (v % W32 * 10 + d) % W32
  {
    var q, r := v / W32, v % W32;
    assert v * 10 + d == r * 10 + d + W32 * (q * 10);
    Multiple(r * 10 + d, q * 10);
  }

  lemma {:induction false} Multiple(a: nat, q: nat)
    ensures (a + W32 * q) % W32 == a % W32
  {
    if q > 0 {
      Multiple(a, q - 1);
      assert (a + W32 * q) % W32 == (a + W32 * (q - 1)) % W32;
    }
  }

  lemma {:induction false} ConvertedIs(name: Text, j: nat)
    requires j <= |name| && Numbers.AllDigits(name) && forall k | 0 <= k < j :: !DropsAt(name, k)
    ensures Converted(name, j, WordAt(name, j)) == if Drops(name) then INVALID else WordAt(name, |name|)
    decreases |name| - j
  {
    if j < |name| {
      WordStep(name, j);
      if !DropsAt(name, j) {
        ConvertedIs(name, j + 1);
      }
    }
  }

  lemma {:induction false} PrefixIsSmaller(name: Text, k: nat)
    requires k <= |name| && Numbers.AllDigits(name)
    ensures Numbers.Value(name[..k]) <= Numbers.Value(name)
    decreases |name| - k
  {
    if k < |name| {
      assert name[..k + 1][..k] == name[..k];
      PrefixIsSmaller(name, k + 1);
    } else {
      assert name[..k] == name;
    }
  }

  /** The index of a numeral: its value modulo 2^32, unless some step of the conversion made the word smaller. */
  lemma IndexIsWord(name: Text)
    requires IsNumeral(name)
    ensures IndexOf(name) == if Drops(name) then INVALID else Numbers.Value(name) % W32
    ensures Numbers.Value(name) < W32 ==> !Drops(name)
  {
    hide DropsAt;
    assert name[..0] == [] && name[..|name|] == name;
    ConvertedIs(name, 0);
    if Numbers.Value(name) < W32 {
      forall k | 0 <= k < |name| ensures !DropsAt(name, k) {
        PrefixIsSmaller(name, k + 1);
        SmallPrefixKeeps(name, k);
      }
    }
  }

  lemma SmallPrefixKeeps(name: Text, k: nat)
    requires k < |name| && Numbers.AllDigits(name) && Numbers.Value(name[..k + 1]) < W32
    ensures !DropsAt(name, k)
  {
    assert name[..k + 1][..k] == name[..k];
    var v := Numbers.Value(name[..k]);
    assert Numbers.Value(name[..k + 1]) == v * 10 + (name[k] - ZERO);
    assert v <= v * 10 + (name[k] - ZERO);
    Small(v);
    Small(v * 10 + (name[k] - ZERO));
  }

  lemma Small(v: nat)
    ensures v < W32 ==> v % W32 == v
  {
  }

  /**
    The documented index (the value of the numeral, or none when it does not fit) is what comes out if and only if
    the number fits 32 bits, or some step of the conversion made the word smaller, or the word ends as the mark
    for "no index".
   */
  lemma IndexAsDocumented(name: Text)
    requires IsNumeral(name)
    ensures var v := Numbers.Value(name);
            IndexOf(name) == (if v < INVALID then v else INVALID) <==> v < W32 || Drops(name) || v % W32 == INVALID
  {
    IndexIsWord(name);
  }

  /** An overflow at the last digit that leaves the word as large as it was goes unseen. */
  lemma LateOverflow(name: Text)
    requires IsNumeral(name)
    requires var v := Numbers.Value(name[..|name| - 1]); v < W32 && v <= Numbers.Value(name) % W32
    ensures IndexOf(name) == Numbers.Value(name) % W32
  {
    hide IndexOf, Numbers.Value, DropsAt;
    var n := |name| - 1;
    var short := name[..n];
    IndexIsWord(name);
    forall k | 0 <= k < |name| ensures !DropsAt(name, k) {
      if k < n {
        PrefixIsSmaller(short, k + 1);
        assert short[..k + 1] == name[..k + 1];
        SmallPrefixKeeps(name, k);
      } else {
        LastKeeps(name);
      }
    }
  }

  lemma LastKeeps(name: Text)
    requires name != [] && Numbers.AllDigits(name)
    requires var v := Numbers.Value(name[..|name| - 1]); v < W32 && v <= Numbers.Value(name) % W32
    ensures !DropsAt(name, |name| - 1)
  {
    assert name[..|name|] == name;
    Small(Numbers.Value(name[..|name| - 1]));
  }

  /** Ten thousand million does not fit, and the overflow test misses it. */
  lemma OverflowMissed()
    ensures var name := Writers.Decimal(10_000_000_000);
            IsNumeral(name) && Numbers.Value(name) > INVALID && IndexOf(name) == 1_410_065_408
  {
    hide Writers.Decimal, IsNumeral, IndexOf, Numbers.Value;
    DecimalOf(1_000_000_000);
    DecimalOf(10_000_000_000);
    var short, name := Writers.Decimal(1_000_000_000), Writers.Decimal(10_000_000_000);
    assert name == short + [ZERO];
    assert name[..|name| - 1] == short;
    LateOverflow(name);
  }

  lemma {:induction false} DecimalOf(n: nat)
    ensures IsNumeral(Writers.Decimal(n)) && Numbers.Value(Writers.Decimal(n)) == n
    ensures Writers.Decimal(n)[0] == ZERO ==> n == 0
    ensures n >= 10 ==> Writers.Decimal(n) == Writers.Decimal(n / 10) + [ZERO + n % 10]
  {
    if n < 10 {
      assert Writers.Decimal(n)[..0] == [];
    } else {
      DecimalOf(n / 10);
      assert Writers.Decimal(n)[..|Writers.Decimal(n)| - 1] == Writers.Decimal(n / 10);
    }
  }

  /** The name `Append` prints for an index is parsed back to that index. */
  lemma IndexOfDecimal(i: uint32)
    ensures IndexOf(Writers.Decimal(i)) == i
  {
    DecimalOf(i);
    IndexIsWord(Writers.Decimal(i));
  }

  // ---------------------------------------------------------------- parsing

  predicate NeedPercentEncode(c: byte) {
    !(0x30 <= c <= 0x39 || 0x41 <= c <= 0x5A || 0x61 <= c <= 0x7A || c == MINUS || c == DOT || c == 0x5F || c == TILDE)
  }

  /** A "%XY" stands at i. */
  predicate IsTriplet(s: Text, i: nat) {
    i + 3 <= |s| && s[i] == PERCENT && Strings.IsHex(s[i + 1]) && Strings.IsHex(s[i + 2])
  }

  function Triplet(s: Text, i: nat): byte
    requires IsTriplet(s, i)
  {
    Strings.HexValue(s[i + 1]) * 16 + Strings.HexValue(s[i + 2])
  }

  /** What `PercentDecodeStream` yields from i on, as long as it stays valid. */
  function Units(s: Text, i: nat): Text
    decreases |s| - i
  {
    if IsTriplet(s, i) then [Triplet(s, i)] + Units(s, i + 3) else []
  }

  /** One character of a name: the bytes it adds, and where the next one starts. */
  datatype Step = Put(bytes: Text, next: nat) | Bad(fault: Fault, offset: nat)

  /** The character c has been consumed; "~" needs the one at j. */
  function Unescape(s: Text, c: byte, j: nat): Step
    requires j <= |s|
  {
    if c != TILDE then Put([c], j)
    else if j < |s| && s[j] == ZERO then Put([TILDE], j + 1)
    else if j < |s| && s[j] == ONE then Put([SLASH], j + 1)
    else Bad(InvalidEscape, j)
  }

  function CharStep(s: Text, i: nat, uri: bool): (r: Step)
    requires i < |s| && s[i] != SLASH
    ensures r.Put? ==> i < r.next <= |s|
  {
    if uri && s[i] == PERCENT then
      var v := Validate(Units(s, i), 0);
      if !v.ok || v.next > |Units(s, i)| then Bad(InvalidPercentEncoding, i)
      else
        UnitsLength(s, i);
        ValidateByLead(Units(s, i), 0);
        if |v.out| == 1 then Unescape(s, v.out[0], i + 3) else Put(v.out, i + 3 * v.next)
    else if uri && NeedPercentEncode(s[i]) then Bad(CharacterMustPercentEncode, i)
    else Unescape(s, s[i], i + 1)
  }

  lemma {:induction false} UnitsLength(s: Text, i: nat)
    ensures i <= |s| ==> i + 3 * |Units(s, i)| <= |s|
    decreases |s| - i
  {
    if IsTriplet(s, i) {
      UnitsLength(s, i + 3);
    }
  }

  datatype Scanned = Name(name: Text, end: nat) | NoName(fault: Fault, offset: nat)

  /** A name: up to the next solidus of the source or its end. */
  function ScanName(s: Text, i: nat, uri: bool): (r: Scanned)
    requires i <= |s|
    ensures r.Name? ==> i <= r.end <= |s| && (r.end == |s| || s[r.end] == SLASH)
    decreases |s| - i
  {
    if i == |s| || s[i] == SLASH then Name([], i)
    else
      match CharStep(s, i, uri)
      case Bad(fault, offset) => NoName(fault, offset)
      case Put(bytes, next) =>
        match ScanName(s, next, uri)
        case NoName(fault, offset) => NoName(fault, offset)
        case Name(rest, end) => Name(bytes + rest, end)
  }

  function ScanTokens(s: Text, i: nat, uri: bool): Parsed
    requires i <= |s| && (i == |s| || s[i] == SLASH)
    decreases |s| - i
  {
    if i == |s| then Tokens([])
    else
      match ScanName(s, i + 1, uri)
      case NoName(fault, offset) => Failed(fault, offset)
      case Name(name, end) =>
        match ScanTokens(s, end, uri)
        case Failed(fault, offset) => Failed(fault, offset)
        case Tokens(rest) => Tokens([Token(name, IndexOf(name))] + rest)
  }

  function Parse(s: Text): Parsed {
    var uri := Peek(s, 0) == SHARP;
    var i := if uri then 1 else 0;
    if i != |s| && s[i] != SLASH then Failed(TokenMustBeginWithSolidus, i) else ScanTokens(s, i, uri)
  }

  // ---------------------------------------------------------------- printing

  function Percent(s: Text): Text {
    if s == [] then []
    else [PERCENT, Strings.HexDigit(s[0] / 16), Strings.HexDigit(s[0] % 16)] + Percent(s[1..])
  }

  /** The first character of a name as `Stringify` prints it, with the number of bytes it takes. */
  function PrintedChar(name: Text, uri: bool): (r: Option<(Text, nat)>)
    requires name != []
    ensures r.Some? ==> 0 < r.value.1 <= |name|
  {
    var c := name[0];
    if c == TILDE then Some(([TILDE, ZERO], 1))
    else if c == SLASH then Some(([TILDE, ONE], 1))
    else if uri && NeedPercentEncode(c) then
      ValidateAgreesWithDecode(name, 0);
      ValidateByLead(name, 0);
      var v := Validate(name, 0);
      if v.ok then Some((Percent(v.out), v.next)) else None
    else Some(([c], 1))
  }

  function Printed(name: Text, uri: bool): Option<Text>
    decreases |name|
  {
    if name == [] then Some([])
    else
      match PrintedChar(name, uri)
      case None => None
      case Some(c) =>
        match Printed(name[c.1..], uri)
        case None => None
        case Some(rest) => Some(c.0 + rest)
  }

  function PrintedTokens(ts: seq<Token>, uri: bool): Option<Text> {
    if ts == [] then Some([])
    else
      match Printed(ts[0].name, uri)
      case None => None
      case Some(name) =>
        match PrintedTokens(ts[1..], uri)
        case None => None
        case Some(rest) => Some([SLASH] + name + rest)
  }

  /** None stands for the result false. */
  function Stringify(ts: seq<Token>, uri: bool): Option<Text> {
    match PrintedTokens(ts, uri)
    case None => None
    case Some(s) => Some(if uri then [SHARP] + s else s)
  }

  // ---------------------------------------------------------------- parsing undoes printing

  lemma {:induction false} UnitsOfPercent(s: Text, i: nat, u: Text)
    requires At(s, i, Percent(u))
    ensures |Percent(u)| == 3 * |u| && |u| <= |Units(s, i)| && Units(s, i)[..|u|] == u
    decreases |u|
  {
    if u != [] {
      var head := [PERCENT, Strings.HexDigit(u[0] / 16), Strings.HexDigit(u[0] % 16)];
      AtSplit(s, i, head, Percent(u[1..]));
      AtPeek(s, i, head, 0);
      AtPeek(s, i, head, 1);
      AtPeek(s, i, head, 2);
      UnitsOfPercent(s, i + 3, u[1..]);
    }
  }

  /** What was printed for one character is read as that character. */
  lemma CharReadsBack(s: Text, i: nat, name: Text, uri: bool)
    requires name != [] && PrintedChar(name, uri).Some? && At(s, i, PrintedChar(name, uri).value.0)
    ensures var (text, n) := PrintedChar(name, uri).value;
            i < |s| && s[i] != SLASH && CharStep(s, i, uri) == Put(name[..n], i + |text|)
  {
    var (text, n) := PrintedChar(name, uri).value;
    var c := name[0];
    if c != TILDE && c != SLASH && uri && NeedPercentEncode(c) {
      PercentReadsBack(s, i, name);
    } else {
      assert name[..1] == [c];
      AtPeek(s, i, text, 0);
      if |text| == 2 {
        AtPeek(s, i, text, 1);
      }
    }
  }

  lemma PercentReadsBack(s: Text, i: nat, name: Text)
    requires name != [] && NeedPercentEncode(name[0]) && name[0] != SLASH
    requires Validate(name, 0).ok && At(s, i, Percent(Validate(name, 0).out))
    ensures var v := Validate(name, 0);
            i < |s| && s[i] == PERCENT && CharStep(s, i, true) == Put(name[..v.next], i + |Percent(v.out)|)
  {
    var v := Validate(name, 0);
    ValidateAgreesWithDecode(name, 0);
    ValidateByLead(name, 0);
    UnitsOfPercent(s, i, v.out);
    var u := Units(s, i);
    AtPeek(s, i, Percent(v.out), 0);
    assert v.out == name[..v.next] == u[..v.next];
    SamePrefix(name, u, v.next);
    assert Validate(u, 0) == v;
  }

  /** Validation looks at no byte behind the character. */
  lemma SamePrefix(a: Text, b: Text, n: nat)
    requires Validate(a, 0).ok && Validate(a, 0).next == n <= |a| && n <= |b| && a[..n] == b[..n]
    ensures Validate(b, 0) == Validate(a, 0)
  {
    ValidateByLead(a, 0);
    ValidateByLead(b, 0);
    assert forall k | 0 <= k < n :: a[k] == a[..n][k] == b[..n][k] == b[k];
  }

  lemma NameStep(s: Text, i: nat, uri: bool, bytes: Text, next: nat, rest: Text, end: nat)
    requires i < |s| && s[i] != SLASH && CharStep(s, i, uri) == Put(bytes, next) && i < next <= |s|
    requires ScanName(s, next, uri) == Name(rest, end)
    ensures ScanName(s, i, uri) == Name(bytes + rest, end)
  {
    hide CharStep;
  }

  /** A printed name taken apart behind its first character. */
  lemma PrintedParts(name: Text, uri: bool, out: Text)
    returns (text: Text, head: Text, tail: Text, rest: Text)
    requires name != [] && Printed(name, uri) == Some(out)
    ensures PrintedChar(name, uri) == Some((text, |head|)) && |head| <= |name| && head == name[..|head|]
    ensures name == head + tail && |tail| < |name| && Printed(tail, uri) == Some(rest) && out == text + rest
  {
    hide PrintedChar;
    var n := PrintedChar(name, uri).value.1;
    text, head, tail := PrintedChar(name, uri).value.0, name[..n], name[n..];
    rest := Printed(tail, uri).value;
  }

  lemma CharAtReadsBack(s: Text, i: nat, name: Text, uri: bool, text: Text, head: Text)
    requires name != [] && PrintedChar(name, uri) == Some((text, |head|)) && At(s, i, text)
    requires |head| <= |name| && head == name[..|head|]
    ensures i < |s| && s[i] != SLASH && CharStep(s, i, uri) == Put(head, i + |text|)
  {
    hide *;
    CharReadsBack(s, i, name, uri);
  }

  lemma NothingReadsBack(s: Text, i: nat, name: Text, uri: bool, out: Text)
    requires name == [] && Printed(name, uri) == Some(out) && At(s, i, out)
    requires i + |out| == |s| || s[i + |out|] == SLASH
    ensures ScanName(s, i, uri) == Name(name, i + |out|)
  {
    hide CharStep, PrintedChar;
  }

  lemma {:induction false} NameReadsBack(s: Text, i: nat, name: Text, uri: bool, out: Text)
    requires Printed(name, uri) == Some(out) && At(s, i, out) && (i + |out| == |s| || s[i + |out|] == SLASH)
    ensures ScanName(s, i, uri) == Name(name, i + |out|)
    decreases |name|
  {
    hide *;
    if name == [] {
      NothingReadsBack(s, i, name, uri, out);
    } else {
      var text, head, tail, rest := PrintedParts(name, uri, out);
      AtSplit(s, i, text, rest);
      CharAtReadsBack(s, i, name, uri, text, head);
      NameReadsBack(s, i + |text|, tail, uri, rest);
      NameStep(s, i, uri, head, i + |text|, tail, i + |out|);
    }
  }

  /** The tokens as `Parse` leaves them: the index is the one of the name. */
  predicate Indexed(ts: seq<Token>) {
    forall t | t in ts :: t.index == IndexOf(t.name)
  }

  lemma TokenStep(s: Text, i: nat, uri: bool, name: Text, end: nat, rest: seq<Token>)
    requires i < |s| && s[i] == SLASH && ScanName(s, i + 1, uri) == Name(name, end)
    requires ScanTokens(s, end, uri) == Tokens(rest)
    ensures ScanTokens(s, i, uri) == Tokens([Token(name, IndexOf(name))] + rest)
  {
    hide ScanName, IndexOf;
  }

  lemma TokenPrints(ts: seq<Token>, uri: bool)
    requires ts != [] && PrintedTokens(ts, uri).Some?
    ensures Printed(ts[0].name, uri).Some? && PrintedTokens(ts[1..], uri).Some?
    ensures PrintedTokens(ts, uri).value == [SLASH] + (Printed(ts[0].name, uri).value + PrintedTokens(ts[1..], uri).value)
  {
    hide Printed;
  }

  lemma {:induction false} TokensReadBack(s: Text, i: nat, ts: seq<Token>, uri: bool)
    requires PrintedTokens(ts, uri).Some? && i <= |s| && s[i..] == PrintedTokens(ts, uri).value && Indexed(ts)
    ensures (i == |s| || s[i] == SLASH) && ScanTokens(s, i, uri) == Tokens(ts)
    decreases |ts|
  {
    hide ScanName, Printed, IndexOf;
    if ts != [] {
      hide ScanTokens, PrintedTokens;
      TokenPrints(ts, uri);
      var name, rest := Printed(ts[0].name, uri).value, PrintedTokens(ts[1..], uri).value;
      var end := i + 1 + |name|;
      Behind(s, i, name, rest);
      TokensReadBack(s, end, ts[1..], uri);
      NameReadsBack(s, i + 1, ts[0].name, uri, name);
      TokenStep(s, i, uri, ts[0].name, end, ts[1..]);
      assert ts == [Token(ts[0].name, IndexOf(ts[0].name))] + ts[1..];
    }
  }

  lemma Behind(s: Text, i: nat, name: Text, rest: Text)
    requires i <= |s| && s[i..] == [SLASH] + (name + rest)
    ensures i < |s| && s[i] == SLASH && At(s, i + 1, name)
    ensures i + 1 + |name| <= |s| && s[i + 1 + |name|..] == rest
  {
    assert s[i] == s[i..][0];
    assert s[i + 1..] == s[i..][1..] == name + rest;
    assert s[i + 1..i + 1 + |name|] == s[i + 1..][..|name|];
    assert s[i + 1 + |name|..] == s[i + 1..][|name|..];
  }

  /** `Parse` undoes `Stringify`, in both forms. */
  lemma ParseUndoesStringify(ts: seq<Token>, uri: bool)
    requires Indexed(ts) && Stringify(ts, uri).Some?
    ensures Parse(Stringify(ts, uri).value) == Tokens(ts)
  {
    var s := Stringify(ts, uri).value;
    var i := if uri then 1 else 0;
    assert s[i..] == PrintedTokens(ts, uri).value;
    TokensReadBack(s, i, ts, uri);
  }

  // ---------------------------------------------------------------- when printing succeeds

  lemma {:induction false} StringFormPrints(name: Text)
    ensures Printed(name, false).Some?
    decreases |name|
  {
    if name != [] {
      StringFormPrints(name[1..]);
    }
  }

  lemma {:induction false} UriFormPrints(name: Text)
    ensures Printed(name, true).Some? <==> WellFormed(name)
    decreases |name|
  {
    if name != [] {
      WellFormedStep(name);
      ValidateAgreesWithDecode(name, 0);
      DecodeByLead(name, 0);
      if Decode(name, 0).ok {
        UriFormPrints(name[Decode(name, 0).next..]);
      }
    }
  }

  lemma WellFormedStep(name: Text)
    requires name != []
    ensures WellFormed(name) <==>
              Decode(name, 0).ok && Decode(name, 0).next <= |name| && WellFormed(name[Decode(name, 0).next..])
  {
    assert name[0..] == name;
    if WellFormed(name) {
      var n := FirstChar(name, 0);
    }
    if Decode(name, 0).ok {
      var d := Decode(name, 0);
      DecodedIsEncoding(name, 0);
      EncodeIsWellFormed(d.codepoint);
      assert name[..d.next] == name[0..d.next];
    }
  }

  ghost predicate NamesWellFormed(ts: seq<Token>) {
    forall t | t in ts :: WellFormed(t.name)
  }

  /** The string form always prints, the URI form exactly when every name is well-formed UTF-8. */
  lemma {:induction false} StringifySucceeds(ts: seq<Token>)
    ensures Stringify(ts, false).Some?
    ensures Stringify(ts, true).Some? <==> NamesWellFormed(ts)
  {
    if ts != [] {
      StringFormPrints(ts[0].name);
      UriFormPrints(ts[0].name);
      StringifySucceeds(ts[1..]);
    }
  }

  lemma {:induction false} UriNameWellFormed(s: Text, i: nat)
    requires i <= |s| && ScanName(s, i, true).Name?
    ensures WellFormed(ScanName(s, i, true).name)
    decreases |s| - i
  {
    if i < |s| && s[i] != SLASH {
      var step := CharStep(s, i, true);
      UriNameWellFormed(s, step.next);
      StepIsChar(s, i);
      var rest := ScanName(s, step.next, true).name;
      var n := |step.bytes|;
      assert (step.bytes + rest)[..n] == step.bytes && (step.bytes + rest)[n..] == rest;
    }
  }

  lemma StepIsChar(s: Text, i: nat)
    requires i < |s| && s[i] != SLASH && CharStep(s, i, true).Put?
    ensures IsUtf8Char(CharStep(s, i, true).bytes)
  {
    if s[i] == PERCENT {
      var u := Units(s, i);
      var v := Validate(u, 0);
      ValidateByLead(u, 0);
      Utf8CharByLead(v.out);
    }
  }

  lemma TokenParts(s: Text, i: nat, uri: bool) returns (name: Text, end: nat, rest: seq<Token>)
    requires i < |s| && s[i] == SLASH && ScanTokens(s, i, uri).Tokens?
    ensures ScanName(s, i + 1, uri) == Name(name, end) && i < end <= |s| && (end == |s| || s[end] == SLASH)
    ensures ScanTokens(s, end, uri) == Tokens(rest)
    ensures ScanTokens(s, i, uri) == Tokens([Token(name, IndexOf(name))] + rest)
  {
    hide IndexOf;
    var r := ScanName(s, i + 1, uri);
    name, end, rest := r.name, r.end, ScanTokens(s, r.end, uri).tokens;
  }

  lemma {:induction false} ScannedTokens(s: Text, i: nat, uri: bool)
    requires i <= |s| && (i == |s| || s[i] == SLASH) && ScanTokens(s, i, uri).Tokens?
    ensures Indexed(ScanTokens(s, i, uri).tokens)
    ensures uri ==> NamesWellFormed(ScanTokens(s, i, uri).tokens)
    decreases |s| - i
  {
    hide ScanName, IndexOf, WellFormed;
    if i < |s| {
      hide ScanTokens;
      var name, end, rest := TokenParts(s, i, uri);
      ScannedTokens(s, end, uri);
      if uri {
        UriNameWellFormed(s, i + 1);
      }
    }
  }

  /**
    Every pointer that `Parse` produced survives both printed forms: the string form always, the fragment form if
    and only if its names are well-formed UTF-8, which they are when it was parsed from a fragment.
   */
  lemma ParsedSurvives(s: Text)
    requires Parse(s).Tokens?
    ensures var ts := Parse(s).tokens;
            && Stringify(ts, false).Some? && Parse(Stringify(ts, false).value) == Tokens(ts)
            && (Stringify(ts, true).Some? <==> NamesWellFormed(ts))
            && (Stringify(ts, true).Some? ==> Parse(Stringify(ts, true).value) == Tokens(ts))
            && (Peek(s, 0) == SHARP ==> Stringify(ts, true).Some?)
            && AllConsistent(ts)
  {
    var ts := Parse(s).tokens;
    ScannedTokens(s, if Peek(s, 0) == SHARP then 1 else 0, Peek(s, 0) == SHARP);
    StringifySucceeds(ts);
    ParseUndoesStringify(ts, false);
    if Stringify(ts, true).Some? {
      ParseUndoesStringify(ts, true);
    }
    assert !IsDigit(DASH[0]);
  }

  // ---------------------------------------------------------------- the string form is RFC 6901

  /** `reference-token = *( unescaped / escaped )` of section 3 of RFC 6901. */
  predicate ReferenceToken(t: Text) {
    || t == []
    || (t[0] != SLASH && t[0] != TILDE && ReferenceToken(t[1..]))
    || (t[0] == TILDE && |t| >= 2 && t[1] in {ZERO, ONE} && ReferenceToken(t[2..]))
  }

  /** All occurrences of "~d" replaced by r, from left to right. */
  function Replaced(t: Text, d: byte, r: byte): Text {
    if t == [] then []
    else if |t| >= 2 && t[0] == TILDE && t[1] == d then [r] + Replaced(t[2..], d, r)
    else [t[0]] + Replaced(t[1..], d, r)
  }

  /** Section 4 of RFC 6901: first "~1" is transformed to "/", and then "~0" to "~". */
  function Evaluated(t: Text): Text {
    Replaced(Replaced(t, ONE, SLASH), ZERO, TILDE)
  }

  /** `json-pointer` of section 3: every reference token with a solidus before it. */
  function Joined(tokens: seq<Text>): Text {
    if tokens == [] then [] else [SLASH] + tokens[0] + Joined(tokens[1..])
  }

  predicate AllReferenceTokens(tokens: seq<Text>) {
    forall t | t in tokens :: ReferenceToken(t)
  }

  /** The tokens a pointer with these reference tokens stands for. */
  function Meaning(tokens: seq<Text>): seq<Token> {
    seq(|tokens|, k requires 0 <= k < |tokens| => Token(Evaluated(tokens[k]), IndexOf(Evaluated(tokens[k]))))
  }

  /** Evaluation in two passes reads a token character by character. */
  lemma EvaluatedStep(t: Text)
    requires t != [] && ReferenceToken(t)
    ensures t[0] != TILDE ==> Evaluated(t) == [t[0]] + Evaluated(t[1..])
    ensures t[0] == TILDE ==> Evaluated(t) == [if t[1] == ONE then SLASH else TILDE] + Evaluated(t[2..])
  {
    var once := Replaced(t, ONE, SLASH);
    if t[0] != TILDE {
      assert once[1..] == Replaced(t[1..], ONE, SLASH);
    } else if t[1] == ONE {
      assert once[1..] == Replaced(t[2..], ONE, SLASH);
    } else {
      assert t[1..][1..] == t[2..];
      assert once == [TILDE] + ([ZERO] + Replaced(t[2..], ONE, SLASH));
      assert once[2..] == Replaced(t[2..], ONE, SLASH);
    }
  }

  /** A reference token is how the name it stands for is printed. */
  lemma {:induction false} TokenIsPrinted(t: Text)
    requires ReferenceToken(t)
    ensures Printed(Evaluated(t), false) == Some(t)
    decreases |t|
  {
    hide Evaluated;
    if t == [] {
      assert Evaluated(t) == [] by { EvaluatedEmpty(); }
    } else {
      var n := if t[0] == TILDE then 2 else 1;
      EvaluatedStep(t);
      TokenIsPrinted(t[n..]);
      assert Evaluated(t)[1..] == Evaluated(t[n..]);
      assert t == t[..n] + t[n..];
      PrintedStep(Evaluated(t), t[..n]);
    }
  }

  lemma EvaluatedEmpty()
    ensures Evaluated([]) == []
  {
  }

  lemma PrintedStep(name: Text, head: Text)
    requires name != [] && Printed(name[1..], false).Some?
    requires head == (if name[0] == TILDE then [TILDE, ZERO] else if name[0] == SLASH then [TILDE, ONE] else [name[0]])
    ensures Printed(name, false) == Some(head + Printed(name[1..], false).value)
  {
  }

  lemma {:induction false} ScannedIsReference(s: Text, i: nat)
    requires i <= |s| && ScanName(s, i, false).Name?
    ensures ReferenceToken(s[i..ScanName(s, i, false).end])
    decreases |s| - i
  {
    var end := ScanName(s, i, false).end;
    if i < end {
      var next := CharStep(s, i, false).next;
      ScannedIsReference(s, next);
      var t := s[i..end];
      assert t[next - i..] == s[next..end];
      assert t[0] == s[i];
    }
  }

  lemma {:induction false} MeaningPrints(tokens: seq<Text>)
    requires AllReferenceTokens(tokens)
    ensures PrintedTokens(Meaning(tokens), false) == Some(Joined(tokens))
  {
    if tokens != [] {
      TokenIsPrinted(tokens[0]);
      MeaningPrints(tokens[1..]);
      assert Meaning(tokens)[1..] == Meaning(tokens[1..]);
    }
  }

  /** Every pointer of the grammar is accepted, with the meaning of section 4. */
  lemma PointerAccepted(tokens: seq<Text>)
    requires AllReferenceTokens(tokens)
    ensures Parse(Joined(tokens)) == Tokens(Meaning(tokens))
  {
    MeaningPrints(tokens);
    ParseUndoesStringify(Meaning(tokens), false);
  }

  lemma {:induction false} AcceptedIsPointer(s: Text, i: nat) returns (tokens: seq<Text>)
    requires i <= |s| && (i == |s| || s[i] == SLASH) && ScanTokens(s, i, false).Tokens?
    ensures AllReferenceTokens(tokens) && s[i..] == Joined(tokens)
    decreases |s| - i
  {
    hide ScanName, ScanTokens, ReferenceToken, IndexOf;
    if i == |s| {
      tokens := [];
    } else {
      var name, end, more := TokenParts(s, i, false);
      ScannedIsReference(s, i + 1);
      var rest := AcceptedIsPointer(s, end);
      tokens := [s[i + 1..end]] + rest;
      assert tokens[1..] == rest;
      SolidusThen(s, i, end);
    }
  }

  lemma SolidusThen(s: Text, i: nat, end: nat)
    requires i < end <= |s| && s[i] == SLASH
    ensures s[i..] == [SLASH] + s[i + 1..end] + s[end..]
  {
  }

  /**
    A text that does not start with "#" is accepted if and only if it is a json-pointer of RFC 6901; its tokens are
    then the evaluated reference tokens, and printing them gives the text back.
   */
  lemma StringFormIsRfc6901(s: Text)
    requires Peek(s, 0) != SHARP
    ensures Parse(s).Tokens? <==> exists tokens :: AllReferenceTokens(tokens) && s == Joined(tokens)
    ensures forall tokens | AllReferenceTokens(tokens) && s == Joined(tokens) :: Parse(s) == Tokens(Meaning(tokens))
    ensures Parse(s).Tokens? ==> Stringify(Parse(s).tokens, false) == Some(s)
  {
    if Parse(s).Tokens? {
      var tokens := AcceptedIsPointer(s, 0);
      assert s[0..] == s;
      PointerAccepted(tokens);
      MeaningPrints(tokens);
    }
    forall tokens | AllReferenceTokens(tokens) && s == Joined(tokens) ensures Parse(s) == Tokens(Meaning(tokens)) {
      PointerAccepted(tokens);
    }
  }

  // ---------------------------------------------------------------- Append

  function AppendName(ts: seq<Token>, name: Text): seq<Token> {
    ts + [Token(name, INVALID)]
  }

  function AppendIndex(ts: seq<Token>, i: uint32): seq<Token> {
    ts + [Token(Writers.Decimal(i), i)]
  }

  /**
    Appending an index gives the pointer that parsing the longer text would give; appending a name does if and only
    if the name does not read as an index.
   */
  lemma AppendedReadsBack(ts: seq<Token>, name: Text, i: uint32)
    requires Indexed(ts)
    ensures var rs := AppendIndex(ts, i);
            Stringify(rs, false).Some? && Parse(Stringify(rs, false).value) == Tokens(rs)
    ensures var rs := AppendName(ts, name);
            && Stringify(rs, false).Some?
            && (Parse(Stringify(rs, false).value) == Tokens(rs) <==> IndexOf(name) == INVALID)
  {
    IndexOfDecimal(i);
    StringifySucceeds(AppendIndex(ts, i));
    ParseUndoesStringify(AppendIndex(ts, i), false);
    var rs := AppendName(ts, name);
    var canonical := ts + [Token(name, IndexOf(name))];
    StringifySucceeds(rs);
    StringifySucceeds(canonical);
    NamesPrint(rs, canonical);
    ParseUndoesStringify(canonical, false);
    assert rs[|ts|].index == INVALID && canonical[|ts|].index == IndexOf(name);
  }

  /** Printing looks at the names only. */
  lemma {:induction false} NamesPrint(ts: seq<Token>, us: seq<Token>)
    requires |ts| == |us| && forall k | 0 <= k < |ts| :: ts[k].name == us[k].name
    ensures PrintedTokens(ts, false) == PrintedTokens(us, false)
  {
    if ts != [] {
      NamesPrint(ts[1..], us[1..]);
    }
  }
}
