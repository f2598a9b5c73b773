/**
  JSON string literals: what `ParseStringToStream` scans, the grammar of section 7 of RFC 8259 it
  recognises, and what `WriteString` prints.
 */
module Strings {
  import opened Bytes
  import opened Encodings

  datatype ErrorCode =
    | DocumentEmpty
    | DocumentRootNotSingular
    | ValueInvalid
    | ObjectMissName
    | ObjectMissColon
    | ObjectMissCommaOrCurlyBracket
    | ArrayMissCommaOrSquareBracket
    | StringUnicodeEscapeInvalidHex
    | StringUnicodeSurrogateInvalid
    | StringEscapeInvalid
    | StringMissQuotationMark
    | StringInvalidEncoding
    | NumberTooBig
    | NumberMissFraction
    | NumberMissExponent
    | Termination

  /** A token that ends at `end`, or the error found and where it is reported. */
  datatype Lexeme<T> = Token(end: nat, value: T) | Bad(code: ErrorCode, offset: nat)

  // ---------------------------------------------------------------- scanning

  /** The reader's `escape` table; 0 where a backslash may not precede the byte. */
  function Unescape(e: byte): byte {
    match e
    case 0x22 => 0x22
    case 0x2F => 0x2F
    case 0x5C => 0x5C
    case 0x62 => 0x08
    case 0x66 => 0x0C
    case 0x6E => 0x0A
    case 0x72 => 0x0D
    case 0x74 => 0x09
    case _ => 0
  }

  predicate IsHex(b: byte) {
    0x30 <= b <= 0x39 || 0x41 <= b <= 0x46 || 0x61 <= b <= 0x66
  }

  function HexValue(b: byte): (v: nat)
    requires IsHex(b)
    ensures v < 16
  {
    if b <= 0x39 then b - 0x30 else if b <= 0x46 then b - 0x41 + 10 else b - 0x61 + 10
  }

  predicate FourHex(t: Text, p: nat) {
    IsHex(Peek(t, p)) && IsHex(Peek(t, p + 1)) && IsHex(Peek(t, p + 2)) && IsHex(Peek(t, p + 3))
  }

  function HexQuad(t: Text, p: nat): (v: nat)
    requires FourHex(t, p)
    ensures v <= 0xFFFF && p + 4 <= |t|
  {
    ((HexValue(Peek(t, p)) * 16 + HexValue(Peek(t, p + 1))) * 16 + HexValue(Peek(t, p + 2))) * 16
    + HexValue(Peek(t, p + 3))
  }

  /** The n hex digits at p, and the number they denote. */
  predicate AllHex(t: Text, p: nat, n: nat) {
    n == 0 || (AllHex(t, p, n - 1) && IsHex(Peek(t, p + n - 1)))
  }

  function HexRun(t: Text, p: nat, n: nat): nat
    requires AllHex(t, p, n)
  {
    if n == 0 then 0 else HexRun(t, p, n - 1) * 16 + HexValue(Peek(t, p + n - 1))
  }

  lemma FourIsQuad(t: Text, p: nat)
    ensures AllHex(t, p, 4) <==> FourHex(t, p)
    ensures AllHex(t, p, 4) ==> HexRun(t, p, 4) == HexQuad(t, p)
  {
    assert AllHex(t, p, 1) <==> IsHex(Peek(t, p));
    assert AllHex(t, p, 2) <==> AllHex(t, p, 1) && IsHex(Peek(t, p + 1));
    assert AllHex(t, p, 3) <==> AllHex(t, p, 2) && IsHex(Peek(t, p + 2));
    if AllHex(t, p, 4) {
      assert HexRun(t, p, 1) == HexValue(Peek(t, p));
      assert HexRun(t, p, 2) == HexRun(t, p, 1) * 16 + HexValue(Peek(t, p + 1));
      assert HexRun(t, p, 3) == HexRun(t, p, 2) * 16 + HexValue(Peek(t, p + 2));
    }
  }

  lemma HexFails(t: Text, p: nat, n: nat, m: nat)
    requires n < m && !IsHex(Peek(t, p + n))
    ensures !AllHex(t, p, m)
  {
  }

  function Combine(lead: nat, trail: nat): (c: nat)
    requires 0xD800 <= lead <= 0xDBFF && 0xDC00 <= trail <= 0xDFFF
    ensures 0x1_0000 <= c <= 0x10FFFF
  {
    (lead - 0xD800) * 0x400 + (trail - 0xDC00) + 0x1_0000
  }

  /** The escape that starts with the backslash at p: where it ends and the bytes it denotes. */
  function ScanEscape(t: Text, p: nat): (r: Lexeme<Text>)
    requires p < |t|
    ensures r.Token? ==> p < r.end <= |t|
  {
    var e := Peek(t, p + 1);
    if Unescape(e) != 0 then Token(p + 2, [Unescape(e)])
    else if e != LOWER_U then Bad(StringEscapeInvalid, p)
    else if !FourHex(t, p + 2) then Bad(StringUnicodeEscapeInvalidHex, p)
    else
      var c := HexQuad(t, p + 2);
      if c < 0xD800 || c > 0xDFFF then Token(p + 6, Encode(c))
      else if c > 0xDBFF then Bad(StringUnicodeSurrogateInvalid, p)
      else if Peek(t, p + 6) != BACKSLASH || Peek(t, p + 7) != LOWER_U then Bad(StringUnicodeSurrogateInvalid, p)
      else if !FourHex(t, p + 8) then Bad(StringUnicodeEscapeInvalidHex, p)
      else
        var d := HexQuad(t, p + 8);
        if d < 0xDC00 || d > 0xDFFF then Bad(StringUnicodeSurrogateInvalid, p)
        else Token(p + 12, Encode(Combine(c, d)))
  }

  /** From position p inside the quotes, with `acc` already decoded. */
  function ScanBody(t: Text, p: nat, acc: Text): (r: Lexeme<Text>)
    requires p <= |t|
    ensures r.Token? ==> p < r.end <= |t|
    decreases |t| - p
  {
    var c := Peek(t, p);
    if c == BACKSLASH then
      match ScanEscape(t, p)
      case Bad(code, offset) => Bad(code, offset)
      case Token(end, bytes) => ScanBody(t, end, acc + bytes)
    else if c == QUOTE then Token(p + 1, acc)
    else if c == NUL then Bad(StringMissQuotationMark, p)
    else if c < 0x20 then Bad(StringInvalidEncoding, p)
    else ScanBody(t, p + 1, acc + [c])
  }

  // ---------------------------------------------------------------- grammar

  /** One element of a string literal: char and escape of section 7 of RFC 8259. */
  datatype Piece =
    | Plain(b: byte)
    | Short(e: byte)
    | Unicode(h: Text)
    | Surrogates(h: Text, l: Text)

  /** The letters of section 7 of RFC 8259 that stand behind a backslash for one character: " \ / b f n r t. */
  predicate IsEscapeLetter(e: byte) {
    e in {0x22, 0x5C, 0x2F, 0x62, 0x66, 0x6E, 0x72, 0x74}
  }

  /** Backspace, form feed, line feed, carriage return and tab; the others stand for themselves. */
  function EscapeMeaning(e: byte): byte
    requires IsEscapeLetter(e)
  {
    if e == 0x62 then 0x08
    else if e == 0x66 then 0x0C
    else if e == 0x6E then 0x0A
    else if e == 0x72 then 0x0D
    else if e == 0x74 then 0x09
    else e
  }

  /** The table of the reader is that of the grammar. */
  lemma EscapeTable(e: byte)
    ensures Unescape(e) != 0 <==> IsEscapeLetter(e)
    ensures IsEscapeLetter(e) ==> Unescape(e) == EscapeMeaning(e) && e != LOWER_U
  {
  }

  predicate IsQuad(h: Text) {
    |h| == 4 && FourHex(h, 0)
  }

  /** Raw bytes from 0x20 on are not examined further; an unpaired surrogate escape is not a piece. */
  predicate LegalPiece(x: Piece) {
    match x
    case Plain(b) => b >= 0x20 && b != QUOTE && b != BACKSLASH
    case Short(e) => IsEscapeLetter(e)
    case Unicode(h) => IsQuad(h) && !(0xD800 <= HexQuad(h, 0) <= 0xDFFF)
    case Surrogates(h, l) =>
      IsQuad(h) && IsQuad(l) && 0xD800 <= HexQuad(h, 0) <= 0xDBFF && 0xDC00 <= HexQuad(l, 0) <= 0xDFFF
  }

  function PieceText(x: Piece): Text {
    match x
    case Plain(b) => [b]
    case Short(e) => [BACKSLASH, e]
    case Unicode(h) => [BACKSLASH, LOWER_U] + h
    case Surrogates(h, l) => [BACKSLASH, LOWER_U] + h + [BACKSLASH, LOWER_U] + l
  }

  function PieceValue(x: Piece): Text
    requires LegalPiece(x)
  {
    match x
    case Plain(b) => [b]
    case Short(e) => [EscapeMeaning(e)]
    case Unicode(h) => Encode(HexQuad(h, 0))
    case Surrogates(h, l) => Encode(Combine(HexQuad(h, 0), HexQuad(l, 0)))
  }

  predicate LegalPieces(xs: seq<Piece>) {
    forall k | 0 <= k < |xs| :: LegalPiece(xs[k])
  }

  function PiecesText(xs: seq<Piece>): Text {
    if xs == [] then [] else PieceText(xs[0]) + PiecesText(xs[1..])
  }

  function PiecesValue(xs: seq<Piece>): Text
    requires LegalPieces(xs)
  {
    if xs == [] then [] else PieceValue(xs[0]) + PiecesValue(xs[1..])
  }

  lemma QuadAt(t: Text, p: nat, h: Text)
    requires At(t, p, h) && IsQuad(h)
    ensures FourHex(t, p) && HexQuad(t, p) == HexQuad(h, 0)
  {
    AtPeek(t, p, h, 0);
    AtPeek(t, p, h, 1);
    AtPeek(t, p, h, 2);
    AtPeek(t, p, h, 3);
  }

  lemma SliceQuad(t: Text, p: nat)
    requires FourHex(t, p)
    ensures p + 4 <= |t| && IsQuad(t[p..p + 4]) && HexQuad(t[p..p + 4], 0) == HexQuad(t, p)
  {
    var h := t[p..p + 4];
    assert At(t, p, h);
    AtPeek(t, p, h, 0);
    AtPeek(t, p, h, 1);
    AtPeek(t, p, h, 2);
    AtPeek(t, p, h, 3);
  }

  lemma SurrogatesComplete(t: Text, p: nat, x: Piece)
    requires LegalPiece(x) && x.Surrogates? && At(t, p, PieceText(x))
    ensures p < |t| && ScanEscape(t, p) == Token(p + 12, PieceValue(x))
  {
    hide FourHex, HexQuad, Combine, Encode;
    SurrogatesAt(t, p, x);
  }

  lemma SurrogatesAt(t: Text, p: nat, x: Piece)
    requires LegalPiece(x) && x.Surrogates? && At(t, p, PieceText(x))
    ensures p + 12 <= |t| && Peek(t, p + 1) == LOWER_U && Peek(t, p + 6) == BACKSLASH && Peek(t, p + 7) == LOWER_U
    ensures FourHex(t, p + 2) && HexQuad(t, p + 2) == HexQuad(x.h, 0)
    ensures FourHex(t, p + 8) && HexQuad(t, p + 8) == HexQuad(x.l, 0)
  {
    hide FourHex, HexQuad, At, IsHex;
    var u := [BACKSLASH, LOWER_U];
    FourParts(t, p, u, x.h, x.l);
    assert PieceText(x) == u + x.h + u + x.l;
    AtPeek(t, p, u, 1);
    AtPeek(t, p + 6, u, 0);
    AtPeek(t, p + 6, u, 1);
    QuadAt(t, p + 2, x.h);
    QuadAt(t, p + 8, x.l);
  }

  lemma FourParts(t: Text, p: nat, u: Text, h: Text, l: Text)
    requires |u| == 2 && |h| == 4 && |l| == 4
    ensures At(t, p, u + h + u + l) ==>
              && p + 12 <= |t| && At(t, p, u) && At(t, p + 2, h) && At(t, p + 6, u) && At(t, p + 8, l)
  {
    AtSplit(t, p, u + h + u, l);
    AtSplit(t, p, u + h, u);
    AtSplit(t, p, u, h);
  }

  /** One legal escape is scanned to its end and to its value. */
  lemma EscapeComplete(t: Text, p: nat, x: Piece)
    requires LegalPiece(x) && !x.Plain? && At(t, p, PieceText(x))
    ensures Peek(t, p) == BACKSLASH && p < |t|
    ensures ScanEscape(t, p) == Token(p + |PieceText(x)|, PieceValue(x))
  {
    hide HexQuad, FourHex, Encode, Combine;
    var s := PieceText(x);
    AtPeek(t, p, s, 0);
    AtPeek(t, p, s, 1);
    match x
    case Short(e) => EscapeTable(e);
    case Unicode(h) =>
      AtSplit(t, p, [BACKSLASH, LOWER_U], h);
      QuadAt(t, p + 2, h);
    case Surrogates(h, l) =>
      SurrogatesComplete(t, p, x);
  }

  /** An accepted escape is a legal piece. */
  lemma EscapeSound(t: Text, p: nat) returns (x: Piece)
    requires p < |t| && Peek(t, p) == BACKSLASH && ScanEscape(t, p).Token?
    ensures LegalPiece(x) && t[p..ScanEscape(t, p).end] == PieceText(x) && PieceValue(x) == ScanEscape(t, p).value
  {
    hide HexQuad, FourHex, Encode, IsHex;
    var e := Peek(t, p + 1);
    EscapeTable(e);
    if Unescape(e) != 0 {
      x := Short(e);
      assert t[p..p + 2] == [BACKSLASH, e];
    } else {
      SliceQuad(t, p + 2);
      var h := t[p + 2..p + 6];
      assert t[p..p + 2] == [BACKSLASH, LOWER_U];
      assert t[p..p + 6] == t[p..p + 2] + h;
      var c := HexQuad(t, p + 2);
      if c < 0xD800 || c > 0xDFFF {
        x := Unicode(h);
      } else {
        SliceQuad(t, p + 8);
        var l := t[p + 8..p + 12];
        assert t[p + 6..p + 8] == [BACKSLASH, LOWER_U];
        assert t[p..p + 12] == t[p..p + 6] + t[p + 6..p + 8] + l;
        x := Surrogates(h, l);
      }
    }
  }

  /** The scan passes over a legal piece. */
  lemma PieceComplete(t: Text, p: nat, x: Piece, acc: Text)
    requires LegalPiece(x) && At(t, p, PieceText(x)) && p <= |t|
    ensures ScanBody(t, p, acc) == ScanBody(t, p + |PieceText(x)|, acc + PieceValue(x))
  {
    hide HexQuad, FourHex, Encode;
    if x.Plain? {
      AtPeek(t, p, PieceText(x), 0);
    } else {
      hide ScanEscape, PieceText, PieceValue;
      EscapeComplete(t, p, x);
    }
  }

  /** Every legal literal is accepted with exactly its value. */
  lemma {:induction false} BodyComplete(t: Text, p: nat, xs: seq<Piece>, acc: Text)
    requires LegalPieces(xs) && At(t, p, PiecesText(xs) + [QUOTE])
    ensures ScanBody(t, p, acc) == Token(p + |PiecesText(xs)| + 1, acc + PiecesValue(xs))
    decreases |xs|
  {
    hide PieceText, PieceValue, LegalPiece, ScanEscape;
    if xs == [] {
      AtPeek(t, p, [QUOTE], 0);
      assert acc + [] == acc;
    } else {
      var s, v := PieceText(xs[0]), PieceValue(xs[0]);
      var rest := PiecesText(xs[1..]) + [QUOTE];
      assert PiecesText(xs) + [QUOTE] == s + rest;
      AtSplit(t, p, s, rest);
      PieceComplete(t, p, xs[0], acc);
      BodyComplete(t, p + |s|, xs[1..], acc + v);
      assert (acc + v) + PiecesValue(xs[1..]) == acc + PiecesValue(xs);
    }
  }

  lemma Prepended(x: Piece, xs: seq<Piece>)
    requires LegalPiece(x) && LegalPieces(xs)
    ensures LegalPieces([x] + xs) && PiecesText([x] + xs) == PieceText(x) + PiecesText(xs)
    ensures PiecesValue([x] + xs) == PieceValue(x) + PiecesValue(xs)
  {
    assert ([x] + xs)[1..] == xs;
  }

  /** The piece that stands at p when the scan neither ends nor fails there. */
  lemma PieceSound(t: Text, p: nat, acc: Text) returns (x: Piece, q: nat)
    requires p <= |t| && ScanBody(t, p, acc).Token? && Peek(t, p) != QUOTE
    ensures LegalPiece(x) && p < q <= |t| && t[p..q] == PieceText(x)
    ensures ScanBody(t, p, acc) == ScanBody(t, q, acc + PieceValue(x))
  {
    if Peek(t, p) == BACKSLASH {
      x := EscapeSound(t, p);
      q := ScanEscape(t, p).end;
    } else {
      x, q := Plain(Peek(t, p)), p + 1;
      assert t[p..q] == [Peek(t, p)];
    }
  }

  /** Every accepted literal is legal. */
  lemma {:induction false} BodySound(t: Text, p: nat, acc: Text) returns (xs: seq<Piece>)
    requires p <= |t| && ScanBody(t, p, acc).Token?
    ensures LegalPieces(xs)
    ensures t[p..ScanBody(t, p, acc).end] == PiecesText(xs) + [QUOTE]
    ensures ScanBody(t, p, acc).value == acc + PiecesValue(xs)
    decreases |t| - p
  {
    hide PieceText, PieceValue, LegalPiece, ScanEscape;
    var end := ScanBody(t, p, acc).end;
    if Peek(t, p) == QUOTE {
      xs := [];
      assert t[p..end] == [QUOTE];
    } else {
      var x, q := PieceSound(t, p, acc);
      var rest := BodySound(t, q, acc + PieceValue(x));
      Prepended(x, rest);
      xs := [x] + rest;
      assert t[p..end] == t[p..q] + t[q..end];
    }
  }

  // ---------------------------------------------------------------- escapes, by section 7 of RFC 8259

  const UPPER_HEX: Text :=
    [0x30, 0x31, 0x32, 0x33, 0x34, 0x35, 0x36, 0x37, 0x38, 0x39, 0x41, 0x42, 0x43, 0x44, 0x45, 0x46]
  const LOWER_HEX: Text :=
    [0x30, 0x31, 0x32, 0x33, 0x34, 0x35, 0x36, 0x37, 0x38, 0x39, 0x61, 0x62, 0x63, 0x64, 0x65, 0x66]

  /** b is a hexadecimal digit for d, in either case. */
  predicate IsDigitFor(b: byte, d: nat) {
    d < 16 && (b == UPPER_HEX[d] || b == LOWER_HEX[d])
  }

  /** The four digits at p, the highest first, denote c. */
  predicate QuadDenotes(t: Text, p: nat, c: nat) {
    && c < 0x1_0000
    && IsDigitFor(Peek(t, p), c / 0x1000)
    && IsDigitFor(Peek(t, p + 1), c / 0x100 % 16)
    && IsDigitFor(Peek(t, p + 2), c / 0x10 % 16)
    && IsDigitFor(Peek(t, p + 3), c % 16)
  }

  lemma DigitDenotes(b: byte)
    ensures IsHex(b) <==> exists d :: IsDigitFor(b, d)
    ensures forall d | IsDigitFor(b, d) :: IsHex(b) && HexValue(b) == d
  {
    hide IsDigitFor, IsHex, HexValue;
    if IsHex(b) {
      HexIsDigit(b);
    }
    forall d | IsDigitFor(b, d) ensures IsHex(b) && HexValue(b) == d {
      DigitIsHex(b, d);
    }
  }

  lemma HexIsDigit(b: byte)
    requires IsHex(b)
    ensures IsDigitFor(b, HexValue(b))
  {
  }

  lemma DigitIsHex(b: byte, d: nat)
    requires IsDigitFor(b, d)
    ensures IsHex(b) && HexValue(b) == d
  {
  }

  /** Four digits denote exactly the number the reader takes them for; anything else denotes none. */
  lemma QuadDenoted(t: Text, p: nat)
    ensures FourHex(t, p) <==> exists c :: QuadDenotes(t, p, c)
    ensures forall c | QuadDenotes(t, p, c) :: FourHex(t, p) && HexQuad(t, p) == c
  {
    hide IsHex, HexValue, IsDigitFor;
    var w, x, y, z := Peek(t, p), Peek(t, p + 1), Peek(t, p + 2), Peek(t, p + 3);
    DigitDenotes(w);
    DigitDenotes(x);
    DigitDenotes(y);
    DigitDenotes(z);
    forall c | QuadDenotes(t, p, c) ensures FourHex(t, p) && HexQuad(t, p) == c {
      QuadDigits(c);
    }
    if FourHex(t, p) {
      var a: nat :| IsDigitFor(w, a);
      var b: nat :| IsDigitFor(x, b);
      var c: nat :| IsDigitFor(y, c);
      var d: nat :| IsDigitFor(z, d);
      DigitBound(w, a);
      DigitBound(x, b);
      DigitBound(y, c);
      DigitBound(z, d);
      QuadOfDigits(a, b, c, d);
      assert QuadDenotes(t, p, ((a * 16 + b) * 16 + c) * 16 + d);
    }
  }

  lemma DigitBound(b: byte, d: nat)
    requires IsDigitFor(b, d)
    ensures d < 16
  {
  }

  lemma QuadOfDigits(a: nat, b: nat, c: nat, d: nat)
    requires a < 16 && b < 16 && c < 16 && d < 16
    ensures var v := ((a * 16 + b) * 16 + c) * 16 + d;
            v < 0x1_0000 && v / 0x1000 == a && v / 0x100 % 16 == b && v / 0x10 % 16 == c && v % 16 == d
  {
    var v := ((a * 16 + b) * 16 + c) * 16 + d;
    assert v / 0x10 == (a * 16 + b) * 16 + c;
    Hex(v);
  }

  predicate IsLead(c: nat) {
    0xD800 <= c <= 0xDBFF
  }

  predicate IsTrail(c: nat) {
    0xDC00 <= c <= 0xDFFF
  }

  /** The escape letters give the characters of section 7, and no other letter but u may follow a backslash. */
  lemma ShortEscape(t: Text, p: nat, acc: Text)
    requires p < |t| && t[p] == 0x5C
    ensures var e := Peek(t, p + 1);
            if IsEscapeLetter(e) then
              p + 2 <= |t| && ScanBody(t, p, acc) == ScanBody(t, p + 2, acc + [EscapeMeaning(e)])
            else e != 0x75 ==> ScanBody(t, p, acc) == Bad(StringEscapeInvalid, p)
  {
    EscapeTable(Peek(t, p + 1));
  }

  /** "\u" with the four digits of a code point that is no surrogate stands for its UTF-8 encoding. */
  lemma NumericEscape(t: Text, p: nat, acc: Text, c: nat)
    requires p < |t| && t[p] == 0x5C && Peek(t, p + 1) == 0x75 && QuadDenotes(t, p + 2, c) && IsScalar(c)
    ensures p + 6 <= |t| && ScanBody(t, p, acc) == ScanBody(t, p + 6, acc + Encode(c))
  {
    hide QuadDenotes, FourHex, HexQuad, Encode;
    QuadDenoted(t, p + 2);
  }

  /** Two escapes for the halves of a surrogate pair stand at p. */
  ghost predicate PairAt(t: Text, p: nat, c: nat, d: nat) {
    && QuadDenotes(t, p + 2, c) && IsLead(c)
    && Peek(t, p + 6) == 0x5C && Peek(t, p + 7) == 0x75 && QuadDenotes(t, p + 8, d) && IsTrail(d)
  }

  /** Two such escapes, of a high surrogate and a low one, stand for the code point of the pair. */
  lemma PairedEscape(t: Text, p: nat, acc: Text, c: nat, d: nat)
    requires p < |t| && t[p] == 0x5C && Peek(t, p + 1) == 0x75 && PairAt(t, p, c, d)
    ensures p + 12 <= |t|
    ensures ScanBody(t, p, acc) ==
              ScanBody(t, p + 12, acc + Encode(0x1_0000 + (c - 0xD800) * 0x400 + (d - 0xDC00)))
  {
    hide QuadDenotes, FourHex, HexQuad, Encode;
    QuadDenoted(t, p + 2);
    QuadDenoted(t, p + 8);
  }

  /** Every other "\u" is refused: without four digits, or with a surrogate that is not the high half of a pair. */
  lemma RefusedEscape(t: Text, p: nat, acc: Text)
    requires p < |t| && t[p] == 0x5C && Peek(t, p + 1) == 0x75
    requires forall c: nat | QuadDenotes(t, p + 2, c) :: !IsScalar(c)
    requires forall c: nat, d: nat :: !PairAt(t, p, c, d)
    ensures var r := ScanBody(t, p, acc);
            r.Bad? && r.offset == p && r.code in {StringUnicodeEscapeInvalidHex, StringUnicodeSurrogateInvalid}
  {
    hide QuadDenotes, FourHex, HexQuad, Encode;
    QuadDenoted(t, p + 2);
    QuadDenoted(t, p + 8);
    if FourHex(t, p + 2) {
      var c := HexQuad(t, p + 2);
      assert QuadDenotes(t, p + 2, c);
      assert !IsScalar(c);
      if IsLead(c) && Peek(t, p + 6) == 0x5C && Peek(t, p + 7) == 0x75 && FourHex(t, p + 8) {
        var d := HexQuad(t, p + 8);
        assert QuadDenotes(t, p + 8, d);
        assert !PairAt(t, p, c, d);
        assert !IsTrail(d);
      }
    }
  }

  /** "\/" is a solidus. */
  lemma EscapedSolidus()
    ensures ScanBody([0x22, 0x5C, 0x2F, 0x22], 1, []) == Token(4, [0x2F])
  {
    var t: Text := [0x22, 0x5C, 0x2F, 0x22];
    ShortEscape(t, 1, []);
    assert [] + [EscapeMeaning(0x2F)] == [0x2F];
  }

  // ---------------------------------------------------------------- printing

  /** The writer's `escape` table: 0 to copy, 'u' for a numeric escape, else the escape letter. */
  function EscapeOf(b: byte): byte {
    if b == 0x08 then 0x62
    else if b == 0x09 then 0x74
    else if b == 0x0A then 0x6E
    else if b == 0x0C then 0x66
    else if b == 0x0D then 0x72
    else if b < 0x20 then LOWER_U
    else if b == QUOTE then QUOTE
    else if b == BACKSLASH then BACKSLASH
    else 0
  }

  function HexDigit(v: nat): byte
    requires v < 16
  {
    if v < 10 then 0x30 + v else 0x41 + (v - 10)
  }

  /** What one byte of a string prints as, for a target encoding that supports Unicode. */
  function EscapedByte(b: byte): Text {
    var e := EscapeOf(b);
    if e == 0 then [b]
    else if e == LOWER_U then [BACKSLASH, LOWER_U, ZERO, ZERO, HexDigit(b / 16), HexDigit(b % 16)]
    else [BACKSLASH, e]
  }

  /**
    Quotation mark and reverse solidus are escaped, the control characters too, those that have a letter by that
    letter and the others by four upper-case digits; every other byte is copied.
   */
  lemma EscapesPrinted(b: byte)
    ensures b in {0x22, 0x5C, 0x08, 0x09, 0x0A, 0x0C, 0x0D} ==>
              exists e: byte :: IsEscapeLetter(e) && EscapeMeaning(e) == b && EscapedByte(b) == [0x5C, e]
    ensures b < 0x20 && b !in {0x08, 0x09, 0x0A, 0x0C, 0x0D} ==>
              EscapedByte(b) == [0x5C, 0x75, 0x30, 0x30, UPPER_HEX[b / 16], UPPER_HEX[b % 16]]
    ensures b >= 0x20 && b !in {0x22, 0x5C} ==> EscapedByte(b) == [b]
  {
    if b in {0x22, 0x5C, 0x08, 0x09, 0x0A, 0x0C, 0x0D} {
      assert IsEscapeLetter(EscapeOf(b)) && EscapeMeaning(EscapeOf(b)) == b;
    }
  }

  function Escaped(s: Text): Text {
    if s == [] then [] else Escaped(s[..|s| - 1]) + EscapedByte(s[|s| - 1])
  }

  /** The literal `WriteString` prints. */
  function Literal(s: Text): Text {
    [QUOTE] + Escaped(s) + [QUOTE]
  }

  function PieceOf(b: byte): Piece {
    var e := EscapeOf(b);
    if e == 0 then Plain(b)
    else if e == LOWER_U then Unicode([ZERO, ZERO, HexDigit(b / 16), HexDigit(b % 16)])
    else Short(e)
  }

  function PiecesOf(s: Text): seq<Piece> {
    seq(|s|, k requires 0 <= k < |s| => PieceOf(s[k]))
  }

  lemma PieceOfByte(b: byte)
    ensures LegalPiece(PieceOf(b)) && PieceText(PieceOf(b)) == EscapedByte(b) && PieceValue(PieceOf(b)) == [b]
  {
    if EscapeOf(b) == LOWER_U {
      var h := [ZERO, ZERO, HexDigit(b / 16), HexDigit(b % 16)];
      assert Peek(h, 2) == h[2] && Peek(h, 3) == h[3];
    }
  }

  lemma {:induction false} PiecesTextAppend(xs: seq<Piece>, x: Piece)
    ensures PiecesText(xs + [x]) == PiecesText(xs) + PieceText(x)
  {
    hide PieceText;
    if xs == [] {
      assert [x][1..] == [];
      assert PieceText(x) + [] == [] + PieceText(x);
    } else {
      assert (xs + [x])[1..] == xs[1..] + [x];
      PiecesTextAppend(xs[1..], x);
      assert PieceText(xs[0]) + (PiecesText(xs[1..]) + PieceText(x)) == PiecesText(xs) + PieceText(x);
    }
  }

  lemma {:induction false} PiecesValueAppend(xs: seq<Piece>, x: Piece)
    requires LegalPieces(xs) && LegalPiece(x)
    ensures LegalPieces(xs + [x]) && PiecesValue(xs + [x]) == PiecesValue(xs) + PieceValue(x)
  {
    hide PieceValue, LegalPiece;
    if xs == [] {
      assert [x][1..] == [];
    } else {
      assert (xs + [x])[1..] == xs[1..] + [x];
      PiecesValueAppend(xs[1..], x);
    }
  }

  lemma NoPieces()
    ensures LegalPieces([]) && PiecesText([]) == [] && PiecesValue([]) == []
  {
  }

  /** What is printed is a legal literal and denotes the bytes printed. */
  lemma {:induction false} PiecesOfString(s: Text)
    ensures LegalPieces(PiecesOf(s)) && PiecesText(PiecesOf(s)) == Escaped(s) && PiecesValue(PiecesOf(s)) == s
  {
    hide PieceOf, PieceText, PieceValue, LegalPiece, EscapedByte, LegalPieces, PiecesText, PiecesValue;
    if s == [] {
      assert PiecesOf(s) == [];
      NoPieces();
    } else {
      var m := |s| - 1;
      var xs := PiecesOf(s[..m]);
      PiecesOfString(s[..m]);
      PieceOfByte(s[m]);
      assert PiecesOf(s) == xs + [PieceOf(s[m])];
      PiecesTextAppend(xs, PieceOf(s[m]));
      PiecesValueAppend(xs, PieceOf(s[m]));
      assert s == s[..m] + [s[m]];
    }
  }

  /** Reading undoes writing, for arbitrary bytes. */
  lemma LiteralReadsBack(t: Text, p: nat, s: Text)
    requires At(t, p, Literal(s))
    ensures ScanBody(t, p + 1, []) == Token(p + |Literal(s)|, s)
  {
    hide Escaped, ScanBody, PiecesText, PiecesValue, LegalPieces, PiecesOf;
    PiecesOfString(s);
    assert Literal(s) == [QUOTE] + (Escaped(s) + [QUOTE]);
    AtSplit(t, p, [QUOTE], Escaped(s) + [QUOTE]);
    BodyComplete(t, p + 1, PiecesOf(s), []);
    assert [] + s == s;
  }

  // ---------------------------------------------------------------- printing for an ASCII target

  function Quad(v: nat): (h: Text)
    requires v <= 0xFFFF
    ensures |h| == 4
  {
    [HexDigit(v / 0x1000), HexDigit(v / 0x100 % 16), HexDigit(v / 0x10 % 16), HexDigit(v % 16)]
  }

  /** Numeric escapes have upper-case digits, the highest first. */
  lemma QuadPrinted(v: nat)
    requires v <= 0xFFFF
    ensures Quad(v) == [UPPER_HEX[v / 0x1000], UPPER_HEX[v / 0x100 % 16], UPPER_HEX[v / 0x10 % 16], UPPER_HEX[v % 16]]
  {
    hide UPPER_HEX, HexDigit;
    UpperDigit(v / 0x1000);
    UpperDigit(v / 0x100 % 16);
    UpperDigit(v / 0x10 % 16);
    UpperDigit(v % 16);
  }

  lemma UpperDigit(d: nat)
    requires d < 16
    ensures |UPPER_HEX| == 16 && HexDigit(d) == UPPER_HEX[d]
  {
  }

  lemma QuadReadsBack(v: nat)
    requires v <= 0xFFFF
    ensures IsQuad(Quad(v)) && HexQuad(Quad(v), 0) == v
  {
    hide HexDigit, HexValue, IsHex;
    HexDigits(v / 0x1000, v / 0x100 % 16, v / 0x10 % 16, v % 16);
    QuadDigits(v);
  }

  lemma HexDigits(a: nat, b: nat, c: nat, d: nat)
    requires a < 16 && b < 16 && c < 16 && d < 16
    ensures var h := [HexDigit(a), HexDigit(b), HexDigit(c), HexDigit(d)];
            IsQuad(h) && HexQuad(h, 0) == ((a * 16 + b) * 16 + c) * 16 + d
  {
    hide HexDigit, HexValue, IsHex;
    HexDigitReadsBack(a);
    HexDigitReadsBack(b);
    HexDigitReadsBack(c);
    HexDigitReadsBack(d);
  }

  lemma QuadDigits(v: nat)
    ensures v == ((v / 0x1000 * 16 + v / 0x100 % 16) * 16 + v / 0x10 % 16) * 16 + v % 16
  {
    Hex(v);
    Hex(v / 0x10);
    Hex(v / 0x100);
  }

  lemma Hex(v: nat)
    ensures v == v / 16 * 16 + v % 16 && v / 0x10 / 16 == v / 0x100 && v / 0x100 / 16 == v / 0x1000
  {
  }

  lemma HexDigitReadsBack(d: nat)
    requires d < 16
    ensures IsHex(HexDigit(d)) && HexValue(HexDigit(d)) == d
  {
  }

  /** How a code point beyond ASCII is escaped, in one unit or as a surrogate pair. */
  function AsciiPiece(c: nat): Piece
    requires IsScalar(c)
  {
    if c <= 0xFFFF then Unicode(Quad(c))
    else
      var s := c - 0x1_0000;
      Surrogates(Quad(s / 0x400 + 0xD800), Quad(s % 0x400 + 0xDC00))
  }

  /** What `WriteString` prints from p on for a target without Unicode; None when it gives up on malformed UTF-8. */
  function AsciiEscaped(s: Text, p: nat): Option<Text>
    requires p <= |s|
    decreases |s| - p
  {
    if p == |s| then Some([])
    else if s[p] >= 0x80 then
      var d := Decode(s, p);
      if !d.ok then None
      else
        DecodedIsEncoding(s, p);
        match AsciiEscaped(s, d.next)
        case None => None
        case Some(rest) => Some(PieceText(AsciiPiece(d.codepoint)) + rest)
    else
      match AsciiEscaped(s, p + 1)
      case None => None
      case Some(rest) => Some(EscapedByte(s[p]) + rest)
  }

  lemma AsciiPieceOfPoint(c: nat)
    requires IsScalar(c)
    ensures LegalPiece(AsciiPiece(c)) && PieceValue(AsciiPiece(c)) == Encode(c)
  {
    hide Quad, HexQuad, FourHex, Encode;
    if c <= 0xFFFF {
      QuadReadsBack(c);
    } else {
      QuadReadsBack((c - 0x1_0000) / 0x400 + 0xD800);
      QuadReadsBack((c - 0x1_0000) % 0x400 + 0xDC00);
    }
  }

  lemma {:induction false} AsciiPieces(s: Text, p: nat) returns (xs: seq<Piece>)
    requires p <= |s| && AsciiEscaped(s, p).Some?
    ensures LegalPieces(xs) && PiecesText(xs) == AsciiEscaped(s, p).value && PiecesValue(xs) == s[p..]
    decreases |s| - p
  {
    hide AsciiPiece, Decode, Encode, PieceText, PieceValue, LegalPiece, PieceOf, EscapedByte, IsScalar;
    if p == |s| {
      xs := [];
    } else {
      var x, q := PieceOf(s[p]), p + 1;
      PieceOfByte(s[p]);
      if s[p] >= 0x80 {
        DecodedIsEncoding(s, p);
        var d := Decode(s, p);
        AsciiPieceOfPoint(d.codepoint);
        x, q := AsciiPiece(d.codepoint), d.next;
      } else {
        assert s[p..q] == [s[p]];
      }
      var rest := AsciiPieces(s, q);
      xs := [x] + rest;
      assert xs[1..] == rest;
      assert s[p..] == s[p..q] + s[q..];
    }
  }

  /** The numeric escapes printed for an ASCII target are undone by the reader. */
  lemma AsciiReadsBack(t: Text, p: nat, s: Text)
    requires AsciiEscaped(s, 0).Some? && At(t, p, [QUOTE] + AsciiEscaped(s, 0).value + [QUOTE])
    ensures ScanBody(t, p + 1, []) == Token(p + |AsciiEscaped(s, 0).value| + 2, s)
  {
    hide AsciiEscaped, ScanBody, PiecesText, PiecesValue, LegalPieces;
    var xs := AsciiPieces(s, 0);
    var body := AsciiEscaped(s, 0).value;
    assert [QUOTE] + body + [QUOTE] == [QUOTE] + (body + [QUOTE]);
    AtSplit(t, p, [QUOTE], body + [QUOTE]);
    BodyComplete(t, p + 1, xs, []);
    assert [] + s == s && s[0..] == s;
  }

  /** The ASCII writer gives up exactly on strings that are not well-formed UTF-8. */
  lemma {:induction false} AsciiAcceptsWellFormed(s: Text, p: nat)
    requires p <= |s|
    ensures AsciiEscaped(s, p).Some? <==> ToUtf16(s, p).Some?
    decreases |s| - p
  {
    if p < |s| && Decode(s, p).ok {
      DecodedIsEncoding(s, p);
      AsciiAcceptsWellFormed(s, Decode(s, p).next);
    }
  }
}
