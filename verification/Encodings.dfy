/**
  UTF-8 and UTF-16 code units and code points. Bit masks and shifts are written as remainders and
  quotients by powers of two. A stream read past its last unit yields NUL, as at a terminator.
 */
module Encodings {
  import opened Bytes

  type unit16 = u: int | 0 <= u < 0x1_0000

  predicate IsScalar(c: int) {
    0 <= c <= 0xD7FF || 0xE000 <= c <= 0x10FFFF
  }

  // ---------------------------------------------------------------- UTF-8

  /** `Encode`; the code point guard of the source is the precondition. */
  function Encode(c: nat): (s: Text)
    requires c <= 0x10FFFF
    ensures 1 <= |s| <= 4
  {
    if c <= 0x7F then [c]
    else if c <= 0x7FF then [0xC0 + c / 0x40, Tail(c)]
    else if c <= 0xFFFF then [0xE0 + c / 0x1000, Tail(c / 0x40), Tail(c)]
    else [0xF0 + c / 0x4_0000, Tail(c / 0x1000), Tail(c / 0x40), Tail(c)]
  }

  function Tail(c: nat): byte {
    0x80 + c % 0x40
  }

  /** The DFA character classes; 0x10, 0x20 and 0x40 are the three ranges of tail bytes. */
  function GetRange(c: byte): nat {
    if c < 0x80 then 0
    else if c < 0x90 then 0x10
    else if c < 0xA0 then 0x40
    else if c < 0xC0 then 0x20
    else if c < 0xC2 then 8
    else if c < 0xE0 then 2
    else if c == 0xE0 then 10
    else if c == 0xED then 4
    else if c < 0xF0 then 3
    else if c == 0xF0 then 11
    else if c < 0xF4 then 6
    else if c == 0xF4 then 5
    else 8
  }

  /** `(GetRange(c) & mask) != 0`; only tail bytes have a bit in the masks used. */
  predicate InMask(c: byte, mask: nat) {
    match GetRange(c)
    case 0x10 => mask / 0x10 % 2 == 1
    case 0x20 => mask / 0x20 % 2 == 1
    case 0x40 => mask / 0x40 % 2 == 1
    case _ => false
  }

  /** Payload bits of a lead byte: `(0xFF >> type) & c`. */
  function LeadBits(kind: nat, c: byte): nat {
    if kind == 2 then c % 0x40
    else if kind == 3 then c % 0x20
    else if kind == 4 then c % 0x10
    else if kind == 5 then c % 8
    else if kind == 6 then c % 4
    else 0
  }

  datatype Decoded = Decoded(ok: bool, codepoint: nat, next: nat)

  /** COPY followed by TRANS(mask). */
  function Continue(t: Text, d: Decoded, mask: nat): Decoded {
    var c := Peek(t, d.next);
    Decoded(d.ok && InMask(c, mask), d.codepoint * 0x40 + c % 0x40, d.next + 1)
  }

  function Decode(t: Text, p: nat): Decoded {
    var c := Peek(t, p);
    if c < 0x80 then Decoded(true, c, p + 1)
    else
      var kind := GetRange(c);
      var d := Decoded(true, LeadBits(kind, c), p + 1);
      match kind
      case 2 => Continue(t, d, 0x70)
      case 3 => Continue(t, Continue(t, d, 0x70), 0x70)
      case 4 => Continue(t, Continue(t, d, 0x50), 0x70)
      case 5 => Continue(t, Continue(t, Continue(t, d, 0x10), 0x70), 0x70)
      case 6 => Continue(t, Continue(t, Continue(t, d, 0x70), 0x70), 0x70)
      case 10 => Continue(t, Continue(t, d, 0x20), 0x70)
      case 11 => Continue(t, Continue(t, Continue(t, d, 0x60), 0x70), 0x70)
      case _ => Decoded(false, d.codepoint, d.next)
  }

  datatype Validated = Validated(ok: bool, out: Text, next: nat)

  function Copy(t: Text, v: Validated, mask: nat): Validated {
    var c := Peek(t, v.next);
    Validated(v.ok && InMask(c, mask), v.out + [c], v.next + 1)
  }

  /** `Validate` copies the units it inspects to its output stream. */
  function Validate(t: Text, p: nat): Validated {
    var c := Peek(t, p);
    var v := Validated(true, [c], p + 1);
    if c < 0x80 then v
    else
      match GetRange(c)
      case 2 => Copy(t, v, 0x70)
      case 3 => Copy(t, Copy(t, v, 0x70), 0x70)
      case 4 => Copy(t, Copy(t, v, 0x50), 0x70)
      case 5 => Copy(t, Copy(t, Copy(t, v, 0x10), 0x70), 0x70)
      case 6 => Copy(t, Copy(t, Copy(t, v, 0x70), 0x70), 0x70)
      case 10 => Copy(t, Copy(t, v, 0x20), 0x70)
      case 11 => Copy(t, Copy(t, Copy(t, v, 0x60), 0x70), 0x70)
      case _ => Validated(false, v.out, v.next)
  }

  /** UTF8-char of section 4 of RFC 3629, clause by clause. */
  predicate IsUtf8Char(s: Text) {
    match |s|
    case 1 => s[0] <= 0x7F
    case 2 => 0xC2 <= s[0] <= 0xDF && IsTail(s[1])
    case 3 =>
      && IsTail(s[2])
      && (|| (s[0] == 0xE0 && 0xA0 <= s[1] <= 0xBF)
          || (0xE1 <= s[0] <= 0xEC && IsTail(s[1]))
          || (s[0] == 0xED && 0x80 <= s[1] <= 0x9F)
          || (0xEE <= s[0] <= 0xEF && IsTail(s[1])))
    case 4 =>
      && IsTail(s[2]) && IsTail(s[3])
      && (|| (s[0] == 0xF0 && 0x90 <= s[1] <= 0xBF)
          || (0xF1 <= s[0] <= 0xF3 && IsTail(s[1]))
          || (s[0] == 0xF4 && 0x80 <= s[1] <= 0x8F))
    case _ => false
  }

  predicate IsTail(b: byte) {
    0x80 <= b <= 0xBF
  }

  /** The second byte the grammar allows after lead byte a of a three- or four-byte character. */
  predicate SecondOf(a: byte, b: byte) {
    (if a == 0xE0 then 0xA0 else if a == 0xF0 then 0x90 else 0x80) <= b
    <= (if a == 0xED then 0x9F else if a == 0xF4 then 0x8F else 0xBF)
  }

  /** The number of bytes that lead byte a announces; 0 for a byte that leads nothing. */
  function LengthOf(a: byte): nat {
    if a < 0x80 then 1
    else if 0xC2 <= a <= 0xDF then 2
    else if 0xE0 <= a <= 0xEF then 3
    else if 0xF0 <= a <= 0xF4 then 4
    else 0
  }

  /** UTF8-char restated by lead byte, with the code point the character stands for. */
  predicate GoodTails(n: nat, a: byte, b: byte, c: byte, d: byte) {
    match n
    case 1 => true
    case 2 => IsTail(b)
    case 3 => SecondOf(a, b) && IsTail(c)
    case 4 => SecondOf(a, b) && IsTail(c) && IsTail(d)
    case _ => false
  }

  function PointOf(n: nat, a: byte, b: byte, c: byte, d: byte): int {
    match n
    case 1 => a
    case 2 => (a - 0xC0) * 0x40 + b % 0x40
    case 3 => ((a - 0xE0) * 0x40 + b % 0x40) * 0x40 + c % 0x40
    case 4 => (((a - 0xF0) * 0x40 + b % 0x40) * 0x40 + c % 0x40) * 0x40 + d % 0x40
    case _ => 0
  }

  lemma Utf8CharByLead(s: Text)
    ensures IsUtf8Char(s) <==>
              1 <= |s| <= 4 && LengthOf(s[0]) == |s| && GoodTails(|s|, s[0], Peek(s, 1), Peek(s, 2), Peek(s, 3))
  {
  }

  lemma DecodeByLead(t: Text, p: nat)
    ensures var a, b, c, d := Peek(t, p), Peek(t, p + 1), Peek(t, p + 2), Peek(t, p + 3);
            var n := LengthOf(a);
            Decode(t, p).ok == GoodTails(n, a, b, c, d)
            && (n > 0 ==> Decode(t, p).next == p + n && Decode(t, p).codepoint == PointOf(n, a, b, c, d))
  {
    var n := LengthOf(Peek(t, p));
    if n == 3 {
      DecodeThree(t, p);
    } else if n == 4 {
      DecodeFour(t, p);
    }
  }

  lemma DecodeThree(t: Text, p: nat)
    requires LengthOf(Peek(t, p)) == 3
    ensures var a, b, c := Peek(t, p), Peek(t, p + 1), Peek(t, p + 2);
            Decode(t, p) == Decoded(GoodTails(3, a, b, c, NUL), PointOf(3, a, b, c, NUL), p + 3)
  {
    var a, b := Peek(t, p), Peek(t, p + 1);
    var kind := GetRange(a);
    LeadBitsOf(a);
    SecondByMask(a, b);
    var lead: nat := a - 0xE0;
    var d1 := Continue(t, Decoded(true, lead, p + 1), SecondMask(kind));
    assert d1 == Decoded(SecondOf(a, b), lead * 0x40 + b % 0x40, p + 2);
    assert kind in {3, 4, 10};
    assert Decode(t, p) == Continue(t, d1, 0x70);
  }

  lemma DecodeFour(t: Text, p: nat)
    requires LengthOf(Peek(t, p)) == 4
    ensures var a, b, c, d := Peek(t, p), Peek(t, p + 1), Peek(t, p + 2), Peek(t, p + 3);
            Decode(t, p) == Decoded(GoodTails(4, a, b, c, d), PointOf(4, a, b, c, d), p + 4)
  {
    var a, b := Peek(t, p), Peek(t, p + 1);
    var kind := GetRange(a);
    LeadBitsOf(a);
    SecondByMask(a, b);
    var lead: nat := a - 0xF0;
    var d1 := Continue(t, Decoded(true, lead, p + 1), SecondMask(kind));
    assert d1 == Decoded(SecondOf(a, b), lead * 0x40 + b % 0x40, p + 2);
    assert kind in {5, 6, 11};
    assert Decode(t, p) == Continue(t, Continue(t, d1, 0x70), 0x70);
  }

  lemma LeadBitsOf(a: byte)
    ensures LengthOf(a) == 2 ==> LeadBits(GetRange(a), a) == a - 0xC0
    ensures LengthOf(a) == 3 ==> LeadBits(GetRange(a), a) == a - 0xE0
    ensures LengthOf(a) == 4 ==> LeadBits(GetRange(a), a) == a - 0xF0
  {
  }

  /** The mask each lead class applies to the second byte. */
  function SecondMask(kind: nat): nat {
    match kind
    case 4 => 0x50
    case 5 => 0x10
    case 10 => 0x20
    case 11 => 0x60
    case _ => 0x70
  }

  lemma SecondByMask(a: byte, b: byte)
    requires LengthOf(a) in {3, 4}
    ensures InMask(b, SecondMask(GetRange(a))) <==> SecondOf(a, b)
  {
  }

  lemma ValidateByLead(t: Text, p: nat)
    ensures var a, b, c, d := Peek(t, p), Peek(t, p + 1), Peek(t, p + 2), Peek(t, p + 3);
            var n := LengthOf(a);
            var v := Validate(t, p);
            v.ok == GoodTails(n, a, b, c, d)
            && (n > 0 ==> v.next == p + n && v.out == [a, b, c, d][..n])
            && p < v.next <= p + 4 && |v.out| == v.next - p
  {
  }

  lemma SixBits(c: nat)
    ensures c == c / 0x40 * 0x40 + c % 0x40
    ensures Tail(c) % 0x40 == c % 0x40 && IsTail(Tail(c))
    ensures c / 0x40 / 0x40 == c / 0x1000 && c / 0x1000 / 0x40 == c / 0x4_0000
  {
  }

  lemma TwoEncode(a: byte, b: byte)
    requires LengthOf(a) == 2 && IsTail(b)
    ensures var v := PointOf(2, a, b, NUL, NUL); IsScalar(v) && Encode(v) == [a, b]
  {
    TailBits(b);
    Quotient(a - 0xC0, b % 0x40);
  }

  lemma ThreeEncode(a: byte, b: byte, c: byte)
    requires LengthOf(a) == 3 && SecondOf(a, b) && IsTail(c)
    ensures var v := PointOf(3, a, b, c, NUL); IsScalar(v) && Encode(v) == [a, b, c]
  {
    TailBits(b);
    TailBits(c);
    Quotient(a - 0xE0, b % 0x40);
    Quotient((a - 0xE0) * 0x40 + b % 0x40, c % 0x40);
    SixBits(PointOf(3, a, b, c, NUL));
  }

  lemma FourEncode(a: byte, b: byte, c: byte, d: byte)
    requires LengthOf(a) == 4 && SecondOf(a, b) && IsTail(c) && IsTail(d)
    ensures var v := PointOf(4, a, b, c, d); IsScalar(v) && Encode(v) == [a, b, c, d]
  {
    TailBits(b);
    TailBits(c);
    TailBits(d);
    var u := (a - 0xF0) * 0x40 + b % 0x40;
    var v := PointOf(4, a, b, c, d);
    Quotient(a - 0xF0, b % 0x40);
    Quotient(u, c % 0x40);
    Quotient(u * 0x40 + c % 0x40, d % 0x40);
    SixBits(v);
    SixBits(v / 0x40);
  }

  /** Good bytes are the encoding of their code point, and it is a scalar value. */
  lemma PointEncodes(n: nat, a: byte, b: byte, c: byte, d: byte)
    requires n == LengthOf(a) && GoodTails(n, a, b, c, d)
    ensures IsScalar(PointOf(n, a, b, c, d)) && Encode(PointOf(n, a, b, c, d)) == [a, b, c, d][..n]
  {
    if n == 2 {
      TwoEncode(a, b);
    } else if n == 3 {
      ThreeEncode(a, b, c);
    } else if n == 4 {
      FourEncode(a, b, c, d);
    }
  }

  lemma Quotient(q: nat, r: nat)
    requires r < 0x40
    ensures (q * 0x40 + r) / 0x40 == q && (q * 0x40 + r) % 0x40 == r
  {
  }

  lemma TailBits(b: byte)
    ensures IsTail(b) ==> b == 0x80 + b % 0x40
  {
  }

  /** `Encode` writes a UTF8-char exactly for the scalar values. */
  lemma EncodeIsWellFormed(c: nat)
    requires c <= 0x10FFFF
    ensures IsUtf8Char(Encode(c)) <==> IsScalar(c)
  {
    SixBits(c);
    SixBits(c / 0x40);
    Utf8CharByLead(Encode(c));
  }

  /** The bytes of an encoding in terms of the six-bit groups of the code point. */
  lemma EncodePoint(v: nat)
    requires IsScalar(v)
    ensures var s := Encode(v); var n := |s|;
            n == LengthOf(s[0]) && GoodTails(n, s[0], Peek(s, 1), Peek(s, 2), Peek(s, 3))
            && PointOf(n, s[0], Peek(s, 1), Peek(s, 2), Peek(s, 3)) == v
  {
    hide Tail, LengthOf, GoodTails, PointOf;
    if v <= 0x7F {
      EncodeOne(v);
    } else if v <= 0x7FF {
      EncodeTwo(v);
    } else if v <= 0xFFFF {
      EncodeThree(v);
    } else {
      EncodeFour(v);
    }
  }

  lemma EncodeOne(v: nat)
    requires v <= 0x7F
    ensures LengthOf(v) == 1 && GoodTails(1, v, NUL, NUL, NUL) && PointOf(1, v, NUL, NUL, NUL) == v
  {
  }

  lemma EncodeTwo(v: nat)
    requires 0x7F < v <= 0x7FF
    ensures var a: byte, b := 0xC0 + v / 0x40, Tail(v);
            LengthOf(a) == 2 && GoodTails(2, a, b, NUL, NUL) && PointOf(2, a, b, NUL, NUL) == v
  {
    SixBits(v);
  }

  lemma EncodeThree(v: nat)
    requires 0x7FF < v <= 0xFFFF && IsScalar(v)
    ensures var a: byte, b, c := 0xE0 + v / 0x1000, Tail(v / 0x40), Tail(v);
            LengthOf(a) == 3 && GoodTails(3, a, b, c, NUL) && PointOf(3, a, b, c, NUL) == v
  {
    SixBits(v);
    SixBits(v / 0x40);
  }

  lemma EncodeFour(v: nat)
    requires 0xFFFF < v <= 0x10FFFF
    ensures var a: byte, b, c, d := 0xF0 + v / 0x4_0000, Tail(v / 0x1000), Tail(v / 0x40), Tail(v);
            LengthOf(a) == 4 && GoodTails(4, a, b, c, d) && PointOf(4, a, b, c, d) == v
  {
    SixBits(v);
    SixBits(v / 0x40);
    SixBits(v / 0x1000);
  }

  /** Where a well-formed character stands, reading past it plays no part. */
  lemma ByLeadAt(t: Text, p: nat, s: Text)
    requires At(t, p, s) && IsUtf8Char(s)
    ensures Decode(t, p).ok && Decode(t, p).next == p + |s|
    ensures Decode(t, p).codepoint == PointOf(|s|, s[0], Peek(s, 1), Peek(s, 2), Peek(s, 3))
  {
    Utf8CharByLead(s);
    DecodeByLead(t, p);
    AtPeek(t, p, s, 0);
    if |s| > 1 { AtPeek(t, p, s, 1); }
    if |s| > 2 { AtPeek(t, p, s, 2); }
    if |s| > 3 { AtPeek(t, p, s, 3); }
  }

  /** `Decode` inverts `Encode` on every scalar value, wherever the encoding stands. */
  lemma DecodeInvertsEncode(t: Text, p: nat, c: nat)
    requires IsScalar(c) && At(t, p, Encode(c))
    ensures Decode(t, p) == Decoded(true, c, p + |Encode(c)|)
  {
    EncodeIsWellFormed(c);
    EncodePoint(c);
    ByLeadAt(t, p, Encode(c));
  }

  /** Some UTF8-char stands at p. */
  ghost predicate CharAt(t: Text, p: nat) {
    exists n {:trigger t[p..n]} | p < n <= |t| :: IsUtf8Char(t[p..n])
  }

  /** An accepted character lies inside the text and is the encoding of a scalar value. */
  lemma DecodedIsEncoding(t: Text, p: nat)
    requires p < |t| && Decode(t, p).ok
    ensures var d := Decode(t, p);
            p < d.next <= |t| && IsScalar(d.codepoint) && t[p..d.next] == Encode(d.codepoint)
  {
    DecodeByLead(t, p);
    var a, b, c, d := Peek(t, p), Peek(t, p + 1), Peek(t, p + 2), Peek(t, p + 3);
    var n := LengthOf(a);
    PointEncodes(n, a, b, c, d);
    assert p + n <= |t|;
    assert t[p..p + n] == [a, b, c, d][..n];
  }

  /** `Decode` accepts exactly the well-formed characters. */
  lemma DecodeAcceptsWellFormed(t: Text, p: nat)
    requires p < |t|
    ensures Decode(t, p).ok <==> CharAt(t, p)
  {
    if Decode(t, p).ok {
      DecodedIsEncoding(t, p);
      EncodeIsWellFormed(Decode(t, p).codepoint);
      assert IsUtf8Char(t[p..Decode(t, p).next]);
    }
    if CharAt(t, p) {
      var n :| p < n <= |t| && IsUtf8Char(t[p..n]);
      ByLeadAt(t, p, t[p..n]);
    }
  }

  /** `Validate` gives the verdict of `Decode`, reads as far, and has copied exactly what it read. */
  lemma ValidateAgreesWithDecode(t: Text, p: nat)
    requires p < |t|
    ensures Validate(t, p).ok == Decode(t, p).ok
    ensures Validate(t, p).ok ==>
              Validate(t, p).next == Decode(t, p).next <= |t| && Validate(t, p).out == t[p..Validate(t, p).next]
  {
    ValidateByLead(t, p);
    DecodeByLead(t, p);
    if Decode(t, p).ok {
      DecodedIsEncoding(t, p);
      var n := LengthOf(Peek(t, p));
      assert t[p..p + n] == [Peek(t, p), Peek(t, p + 1), Peek(t, p + 2), Peek(t, p + 3)][..n];
    }
  }

  /** Section 3 of RFC 3629: the character number, from the bits of a lead byte and six from each byte behind it. */
  function NumberOf(s: Text): int {
    match |s|
    case 1 => s[0]
    case 2 => Weight(s[0], 0xC0, 0x40) + Weight(s[1], 0x80, 1)
    case 3 => Weight(s[0], 0xE0, 0x1000) + Weight(s[1], 0x80, 0x40) + Weight(s[2], 0x80, 1)
    case 4 =>
      Weight(s[0], 0xF0, 0x4_0000) + Weight(s[1], 0x80, 0x1000) + Weight(s[2], 0x80, 0x40) + Weight(s[3], 0x80, 1)
    case _ => -1
  }

  /** What a byte above its mark adds. */
  function Weight(b: int, mark: int, unit: int): int {
    (b - mark) * unit
  }

  /** `Encode` writes the one UTF8-char whose character number is the code point. */
  lemma EncodeDenotes(s: Text, c: nat)
    ensures IsUtf8Char(s) && NumberOf(s) == c <==> IsScalar(c) && s == Encode(c)
  {
    hide Encode, IsUtf8Char;
    if IsUtf8Char(s) {
      NumberIsPoint(s);
      Utf8CharByLead(s);
      PointEncodes(|s|, s[0], Peek(s, 1), Peek(s, 2), Peek(s, 3));
      assert [s[0], Peek(s, 1), Peek(s, 2), Peek(s, 3)][..|s|] == s;
    }
    if IsScalar(c) && s == Encode(c) {
      EncodeIsWellFormed(c);
      EncodePoint(c);
      NumberIsPoint(s);
    }
  }

  lemma NumberIsPoint(s: Text)
    requires IsUtf8Char(s)
    ensures NumberOf(s) == PointOf(|s|, s[0], Peek(s, 1), Peek(s, 2), Peek(s, 3))
  {
    assert forall k | 0 < k < |s| :: IsTail(s[k]);
    forall k | 0 < k < |s| ensures s[k] as int - 0x80 == s[k] % 0x40 {
      TailBits(s[k]);
    }
  }

  // ---------------------------------------------------------------- UTF-16

  function Encode16(c: nat): (s: seq<unit16>)
    requires IsScalar(c)
    ensures 1 <= |s| <= 2
  {
    if c <= 0xFFFF then [c]
    else
      var v := c - 0x1_0000;
      [0xD800 + v / 0x400, 0xDC00 + v % 0x400]
  }

  function Peek16(t: seq<unit16>, p: nat): unit16 {
    if p < |t| then t[p] else 0
  }

  function Decode16(t: seq<unit16>, p: nat): Decoded {
    var c := Peek16(t, p);
    if c < 0xD800 || c > 0xDFFF then Decoded(true, c, p + 1)
    else if c <= 0xDBFF then
      var d := Peek16(t, p + 1);
      Decoded(0xDC00 <= d <= 0xDFFF, c % 0x400 * 0x400 + d % 0x400 + 0x1_0000, p + 2)
    else Decoded(false, 0, p + 1)
  }

  lemma Decode16InvertsEncode16(t: seq<unit16>, p: nat, c: nat)
    requires IsScalar(c) && p + |Encode16(c)| <= |t| && t[p..p + |Encode16(c)|] == Encode16(c)
    ensures Decode16(t, p) == Decoded(true, c, p + |Encode16(c)|)
  {
    if c <= 0xFFFF {
      assert t[p..p + 1][0] == t[p];
    } else {
      var v: nat := c - 0x1_0000;
      Surrogates(v);
      assert t[p..p + 2][0] == t[p] == 0xD800 + v / 0x400 && t[p..p + 2][1] == t[p + 1] == 0xDC00 + v % 0x400;
    }
  }

  lemma Surrogates(v: nat)
    requires v < 0x10_0000
    ensures v / 0x400 < 0x400 && v / 0x400 * 0x400 + v % 0x400 == v
    ensures (0xD800 + v / 0x400) % 0x400 == v / 0x400 && (0xDC00 + v % 0x400) % 0x400 == v % 0x400
  {
  }

  /** Section 2.1 of RFC 2781: the character number a unit or a pair of units stands for. */
  predicate Denotes16(s: seq<unit16>, c: int) {
    || (|s| == 1 && c == s[0] && !(0xD800 <= s[0] <= 0xDFFF))
    || (|s| == 2 && 0xD800 <= s[0] <= 0xDBFF && 0xDC00 <= s[1] <= 0xDFFF
        && c == 0x1_0000 + Weight(s[0], 0xD800, 0x400) + Weight(s[1], 0xDC00, 1))
  }

  ghost predicate Stands16(t: seq<unit16>, p: nat, n: nat, c: int) {
    p + n <= |t| && Denotes16(t[p..p + n], c)
  }

  /** `Encode` writes the units that stand for a scalar value, and no other units stand for one. */
  lemma Encode16Denotes(s: seq<unit16>, c: int)
    ensures Denotes16(s, c) <==> IsScalar(c) && s == Encode16(c)
  {
    if |s| == 2 && Denotes16(s, c) {
      var high: int, low: int := s[0], s[1];
      Pair(high - 0xD800, low - 0xDC00);
    }
    if IsScalar(c) && c > 0xFFFF {
      Surrogates(c - 0x1_0000);
    }
  }

  lemma Pair(high: nat, low: nat)
    requires high < 0x400 && low < 0x400
    ensures (high * 0x400 + low) / 0x400 == high && (high * 0x400 + low) % 0x400 == low
    ensures high * 0x400 + low < 0x10_0000
  {
  }

  /** `Decode` succeeds exactly where such units stand, with the number they stand for. */
  lemma Decode16Denotes(t: seq<unit16>, p: nat)
    requires p < |t|
    ensures var d := Decode16(t, p);
            && (d.ok <==> exists n: nat, c :: Stands16(t, p, n, c))
            && (d.ok ==> p < d.next && Stands16(t, p, d.next - p, d.codepoint))
  {
    var d := Decode16(t, p);
    if d.ok {
      var n := d.next - p;
      if n == 2 {
        assert t[p..d.next] == [t[p], t[p + 1]];
      } else {
        assert t[p..d.next] == [t[p]];
      }
      assert Stands16(t, p, n, d.codepoint);
    }
    if n: nat, c :| Stands16(t, p, n, c) {
      assert n in {1, 2};
      assert t[p..p + n][0] == t[p] && (n == 2 ==> t[p..p + n][1] == t[p + 1]);
    }
  }

  // ---------------------------------------------------------------- whole strings

  /** Transcode unit by unit until the source is used up; None when a character is malformed. */
  function ToUtf16(t: Text, p: nat): Option<seq<unit16>>
    requires p <= |t|
    decreases |t| - p
  {
    if p == |t| then Some([])
    else
      var d := Decode(t, p);
      if !d.ok then None
      else
        DecodedIsEncoding(t, p);
        match ToUtf16(t, d.next)
        case None => None
        case Some(rest) => Some(Encode16(d.codepoint) + rest)
  }

  function ToUtf8(t: seq<unit16>, p: nat): Option<Text>
    requires p <= |t|
    decreases |t| - p
  {
    if p == |t| then Some([])
    else
      var d := Decode16(t, p);
      if !d.ok || d.next > |t| then None
      else
        match ToUtf8(t, d.next)
        case None => None
        case Some(rest) => Some(Encode(d.codepoint) + rest)
  }

  /** A text is well-formed UTF-8 when it is a concatenation of UTF8-chars. */
  ghost predicate WellFormed(t: Text) {
    t == [] || exists n | 1 <= n <= |t| :: IsUtf8Char(t[..n]) && WellFormed(t[n..])
  }

  // ---------------------------------------------------------------- how far the reads go

  /** The bytes taken for a character: as many as its first one announces, whether they continue it or not. */
  function Announced(a: byte): nat {
    if LengthOf(a) == 0 then 1 else LengthOf(a)
  }

  /** A malformed character is taken whole as well: nothing stops at the first byte that does not fit. */
  lemma ReadsAnnounced(t: Text, p: nat)
    ensures Decode(t, p).next == Validate(t, p).next == p + Announced(Peek(t, p))
  {
    DecodeByLead(t, p);
    ValidateByLead(t, p);
  }

  /** Where a loop that reads character by character has come to when it ends, or gives up at a malformed one. */
  function Reach(t: Text, p: nat): nat
    requires p <= |t|
    decreases |t| - p
  {
    if p == |t| then p
    else
      var d := Decode(t, p);
      if !d.ok then d.next
      else
        DecodedIsEncoding(t, p);
        Reach(t, d.next)
  }

  lemma ReachStep(t: Text, p: nat)
    requires p < |t|
    ensures Decode(t, p).ok ==> p < Decode(t, p).next <= |t| && Reach(t, p) == Reach(t, Decode(t, p).next)
    ensures !Decode(t, p).ok ==> Reach(t, p) == Decode(t, p).next
    ensures t[p] < 0x80 ==> Decode(t, p).ok && Decode(t, p).next == p + 1
  {
    if Decode(t, p).ok {
      DecodedIsEncoding(t, p);
    }
  }

  lemma ReachEnd(t: Text)
    ensures Reach(t, |t|) == |t|
  {
  }

  /** The bytes announced at k go past the one behind the text. */
  predicate Overreaches(t: Text, k: nat)
    requires k < |t|
  {
    k + LengthOf(t[k]) > |t| + 1
  }

  ghost predicate OverreachesFrom(t: Text, p: nat)
    requires p <= |t|
  {
    exists k | p <= k < |t| :: WellFormed(t[p..k]) && Overreaches(t, k)
  }

  /** The first character of a well-formed stretch is the one decoded. */
  lemma FirstOfStretch(t: Text, p: nat, k: nat)
    requires p < k <= |t| && WellFormed(t[p..k])
    ensures Decode(t, p).ok && Decode(t, p).next <= k && WellFormed(t[Decode(t, p).next..k])
  {
    hide IsUtf8Char, Decode;
    var s := t[p..k];
    var n :| 1 <= n <= |s| && IsUtf8Char(s[..n]) && WellFormed(s[n..]);
    SliceOfSlice(t, p, k, n);
    ByLeadAt(t, p, s[..n]);
  }

  lemma LongerStretch(t: Text, p: nat, k: nat)
    requires p < |t| && Decode(t, p).ok && Decode(t, p).next <= k <= |t| && WellFormed(t[Decode(t, p).next..k])
    ensures WellFormed(t[p..k])
  {
    hide Decode, Encode;
    DecodedIsEncoding(t, p);
    var d := Decode(t, p);
    EncodeIsWellFormed(d.codepoint);
    SliceOfSlice(t, p, k, d.next - p);
  }

  /**
    The reads go past the byte behind the text, a terminator, if and only if behind some well-formed stretch stands a
    byte that announces at least two bytes more than are left. A well-formed text is read to its end and no further.
   */
  lemma {:induction false} ReadsStayInside(t: Text, p: nat)
    requires p <= |t|
    ensures Reach(t, p) > |t| + 1 <==> OverreachesFrom(t, p)
    ensures WellFormed(t[p..]) ==> Reach(t, p) == |t|
    decreases |t| - p
  {
    hide Decode, WellFormed, LengthOf;
    if p < |t| {
      ReadsAnnounced(t, p);
      if Decode(t, p).ok {
        var q := Decode(t, p).next;
        DecodedIsEncoding(t, p);
        ReadsStayInside(t, q);
        SameOverreach(t, p);
        if WellFormed(t[p..]) {
          WholeStretch(t, p);
        }
      } else {
        NothingBehind(t, p);
      }
    }
  }

  lemma WholeStretch(t: Text, p: nat)
    requires p < |t| && WellFormed(t[p..])
    ensures Decode(t, p).ok && Decode(t, p).next <= |t| && WellFormed(t[Decode(t, p).next..])
  {
    hide Decode, WellFormed;
    assert t[p..] == t[p..|t|];
    FirstOfStretch(t, p, |t|);
    assert t[Decode(t, p).next..|t|] == t[Decode(t, p).next..];
  }

  /** A character that is decoded hides no overreach, and changes none behind it. */
  lemma SameOverreach(t: Text, p: nat)
    requires p < |t| && Decode(t, p).ok && p < Decode(t, p).next <= |t| && Decode(t, p).next == p + Announced(t[p])
    ensures OverreachesFrom(t, p) <==> OverreachesFrom(t, Decode(t, p).next)
  {
    hide Decode, WellFormed, LengthOf;
    var q := Decode(t, p).next;
    if OverreachesFrom(t, p) {
      var k :| p <= k < |t| && WellFormed(t[p..k]) && Overreaches(t, k);
      if k > p {
        FirstOfStretch(t, p, k);
      }
    }
    if OverreachesFrom(t, q) {
      var k :| q <= k < |t| && WellFormed(t[q..k]) && Overreaches(t, k);
      LongerStretch(t, p, k);
    }
  }

  /** At a malformed character only its own announcement counts. */
  lemma NothingBehind(t: Text, p: nat)
    requires p < |t| && !Decode(t, p).ok
    ensures OverreachesFrom(t, p) <==> Overreaches(t, p)
    ensures !WellFormed(t[p..])
  {
    hide Decode, LengthOf;
    if OverreachesFrom(t, p) {
      var k :| p <= k < |t| && WellFormed(t[p..k]) && Overreaches(t, k);
      if k > p {
        FirstOfStretch(t, p, k);
      }
    }
    if Overreaches(t, p) {
      assert t[p..p] == [] && WellFormed(t[p..p]);
    }
    if WellFormed(t[p..]) {
      WholeStretch(t, p);
    }
  }

  lemma {:induction false} WellFormedTranscodes(t: Text, p: nat)
    requires p <= |t|
    ensures WellFormed(t[p..]) <==> ToUtf16(t, p).Some?
    decreases |t| - p
  {
    hide Decode, WellFormed, Encode16;
    if p == |t| {
      NothingIsWellFormed(t[p..]);
    } else {
      if Decode(t, p).ok {
        DecodedIsEncoding(t, p);
        var q := Decode(t, p).next;
        WellFormedTranscodes(t, q);
        if WellFormed(t[q..]) {
          assert t[q..] == t[q..|t|] && t[p..] == t[p..|t|];
          LongerStretch(t, p, |t|);
        }
      }
      if WellFormed(t[p..]) {
        WholeStretch(t, p);
      }
    }
  }

  lemma NothingIsWellFormed(none: Text)
    requires none == []
    ensures WellFormed(none)
  {
  }

  lemma FirstChar(t: Text, p: nat) returns (n: nat)
    requires p < |t| && WellFormed(t[p..])
    ensures Decode(t, p).ok && Decode(t, p).next == p + n <= |t| && WellFormed(t[p + n..])
  {
    hide WellFormed, Decode;
    WholeStretch(t, p);
    ReadsAnnounced(t, p);
    n := Decode(t, p).next - p;
  }

  /** UTF-8 to UTF-16 to UTF-8 is the identity on every well-formed string. */
  lemma TranscodingRoundTrip(t: Text)
    requires WellFormed(t)
    ensures ToUtf16(t, 0).Some? && ToUtf8(ToUtf16(t, 0).value, 0) == Some(t)
  {
    assert t[0..] == t;
    WellFormedTranscodes(t, 0);
    BackToUtf8(t, 0, ToUtf16(t, 0).value, 0);
  }

  lemma {:induction false} BackToUtf8(t: Text, p: nat, u: seq<unit16>, q: nat)
    requires p <= |t| && q <= |u| && ToUtf16(t, p) == Some(u[q..])
    ensures ToUtf8(u, q) == Some(t[p..])
    decreases |t| - p
  {
    hide Decode, Decode16, Encode, Encode16, IsScalar;
    if p < |t| {
      DecodedIsEncoding(t, p);
      var d := Decode(t, p);
      var e := Encode16(d.codepoint);
      var rest := ToUtf16(t, d.next).value;
      assert u[q..] == e + rest;
      assert u[q..q + |e|] == u[q..][..|e|] == e;
      assert u[q + |e|..] == u[q..][|e|..] == rest;
      Decode16InvertsEncode16(u, q, d.codepoint);
      BackToUtf8(t, d.next, u, q + |e|);
      assert ToUtf8(u, q) == Some(Encode(d.codepoint) + t[d.next..]);
      assert t[p..] == t[p..d.next] + t[d.next..];
    } else {
      assert u[q..] == [] && t[p..] == [];
    }
  }
}
