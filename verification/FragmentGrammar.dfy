/**
  Which fragments are accepted, compared with the fragments that section 6 of RFC 6901 and section 3.5 of RFC 3986
  allow: nothing else is accepted, and the legal fragments that are refused are told by their spelling.
 */
module FragmentGrammar {
  import opened Bytes
  import opened Encodings
  import opened PointerTrees
  import opened Pointers
  import opened Fragments

  // ---------------------------------------------------------------- what the standards allow

  /** unreserved, sub-delims, ":", "@", "/" and "?" of RFC 3986: what a fragment may hold besides percent triplets. */
  predicate FragmentCharacter(c: byte) {
    || !NeedPercentEncode(c) || c == SLASH
    || c in {0x21, 0x24, 0x26, 0x27, 0x28, 0x29, 0x2A, 0x2B, 0x2C, 0x3B, 0x3D}
    || c in {0x3A, 0x3F, 0x40}
  }

  /** `fragment` of section 3.5 of RFC 3986. */
  predicate UriFragment(t: Text) {
    || t == []
    || (IsTriplet(t, 0) && UriFragment(t[3..]))
    || (FragmentCharacter(t[0]) && UriFragment(t[1..]))
  }

  /** `json-pointer` of section 3 of RFC 6901. */
  ghost predicate JsonPointer(d: Text) {
    exists tokens :: AllReferenceTokens(tokens) && d == Joined(tokens)
  }

  /** Section 6 of RFC 6901: a fragment that decodes to the UTF-8 encoding of a JSON Pointer. */
  ghost predicate LegalFragment(t: Text) {
    UriFragment(t) && WellFormed(PercentDecoded(t)) && JsonPointer(PercentDecoded(t))
  }

  /**
    What the code asks for besides: outside triplets only unreserved characters and solidi, and a bare character
    behind every tilde, however the tilde itself is spelled.
   */
  predicate AcceptedSpelling(t: Text) {
    if t == [] then true
    else if IsTriplet(t, 0) then (Triplet(t, 0) == TILDE ==> !IsTriplet(t, 3)) && AcceptedSpelling(t[3..])
    else (t[0] == SLASH || !NeedPercentEncode(t[0])) && (t[0] == TILDE ==> !IsTriplet(t, 1)) && AcceptedSpelling(t[1..])
  }

  // ---------------------------------------------------------------- tildes

  /** Every tilde has a "0" or "1" behind it. */
  predicate TildesEscape(d: Text) {
    if d == [] then true
    else if d[0] == TILDE then |d| >= 2 && d[1] in {ZERO, ONE} && TildesEscape(d[2..])
    else TildesEscape(d[1..])
  }

  lemma {:induction false} TokenThenRest(t: Text, rest: Text)
    requires ReferenceToken(t)
    ensures TildesEscape(t + rest) <==> TildesEscape(rest)
    decreases |t|
  {
    if t == [] {
      assert t + rest == rest;
    } else if t[0] == TILDE {
      assert (t + rest)[2..] == t[2..] + rest;
      TokenThenRest(t[2..], rest);
    } else {
      assert (t + rest)[1..] == t[1..] + rest;
      TokenThenRest(t[1..], rest);
    }
  }

  lemma {:induction false} JoinedEscapes(tokens: seq<Text>)
    requires AllReferenceTokens(tokens)
    ensures TildesEscape(Joined(tokens)) && (Joined(tokens) != [] ==> Joined(tokens)[0] == SLASH)
  {
    hide ReferenceToken;
    if tokens != [] {
      JoinedEscapes(tokens[1..]);
      TokenThenRest(tokens[0], Joined(tokens[1..]));
      assert Joined(tokens) == [SLASH] + (tokens[0] + Joined(tokens[1..]));
      assert ([SLASH] + (tokens[0] + Joined(tokens[1..])))[1..] == tokens[0] + Joined(tokens[1..]);
    }
  }

  lemma OneMore(first: Text, tokens: seq<Text>, d: Text)
    requires ReferenceToken(first) && AllReferenceTokens(tokens) && d == [SLASH] + (first + Joined(tokens))
    ensures AllReferenceTokens([first] + tokens) && d == Joined([first] + tokens)
  {
    hide ReferenceToken;
    assert ([first] + tokens)[1..] == tokens;
    assert [SLASH] + (first + Joined(tokens)) == [SLASH] + first + Joined(tokens);
  }

  lemma LongerToken(head: Text, first: Text)
    requires ReferenceToken(first)
    requires (|head| == 1 && head[0] !in {SLASH, TILDE}) || (|head| == 2 && head[0] == TILDE && head[1] in {ZERO, ONE})
    ensures ReferenceToken(head + first)
  {
    assert (head + first)[|head|..] == first;
  }

  /** The first reference token, and those behind it. */
  lemma {:induction false} SplitTokens(d: Text) returns (first: Text, tokens: seq<Text>)
    requires TildesEscape(d)
    ensures ReferenceToken(first) && AllReferenceTokens(tokens) && d == first + Joined(tokens)
    decreases |d|
  {
    hide ReferenceToken, AllReferenceTokens;
    first, tokens := [], [];
    if d == [] {
      NoTokens();
    } else {
      var n := if d[0] == TILDE then 2 else 1;
      var head := d[..n];
      first, tokens := SplitTokens(d[n..]);
      if d[0] == SLASH {
        OneMore(first, tokens, d);
        NoTokens();
        first, tokens := [], [first] + tokens;
        assert [] + Joined(tokens) == Joined(tokens);
      } else {
        LongerToken(head, first);
        assert head + (first + Joined(tokens)) == head + first + Joined(tokens);
        first := head + first;
      }
    }
  }

  lemma NoTokens()
    ensures ReferenceToken([]) && AllReferenceTokens([]) && [] + Joined([]) == []
  {
  }

  /** A JSON Pointer is told by its first character and its tildes. */
  lemma PointerByTildes(d: Text)
    ensures JsonPointer(d) <==> (d == [] || d[0] == SLASH) && TildesEscape(d)
  {
    hide TildesEscape, ReferenceToken;
    if tokens :| AllReferenceTokens(tokens) && d == Joined(tokens) {
      JoinedEscapes(tokens);
    }
    if d == [] {
      NothingEscapes();
      assert AllReferenceTokens([]) && d == Joined([]);
    } else if d[0] == SLASH && TildesEscape(d) {
      EscapesBehind(d);
      var first, tokens := SplitTokens(d[1..]);
      assert d == [SLASH] + d[1..];
      OneMore(first, tokens, d);
    }
  }

  lemma NothingEscapes()
    ensures TildesEscape([])
  {
  }

  lemma EscapesBehind(d: Text)
    requires d != [] && d[0] != TILDE && TildesEscape(d)
    ensures TildesEscape(d[1..])
  {
  }

  // ---------------------------------------------------------------- what is accepted is legal

  /** What every suffix of an accepted fragment is. */
  ghost predicate Fine(t: Text) {
    && UriFragment(t) && AcceptedSpelling(t)
    && WellFormed(PercentDecoded(t)) && TildesEscape(PercentDecoded(t))
  }

  lemma CharThenRest(u: Text, rest: Text)
    requires IsUtf8Char(u) && WellFormed(rest)
    ensures WellFormed(u + rest)
  {
    assert (u + rest)[..|u|] == u && (u + rest)[|u|..] == rest;
  }

  lemma OneTripletFine(t: Text)
    requires IsTriplet(t, 0) && Triplet(t, 0) != TILDE && UriFragment(t[3..]) && AcceptedSpelling(t[3..])
    ensures UriFragment(t) && AcceptedSpelling(t)
  {
  }

  lemma OneByteEscapes(b: byte, d: Text)
    requires b != TILDE && TildesEscape(d)
    ensures TildesEscape([b] + d)
  {
    assert ([b] + d)[1..] == d;
  }

  lemma {:induction false} TripletsFine(t: Text, rest: Text)
    requires |t| == 3 * |Units(t, 0)| && TILDE !in Units(t, 0) && UriFragment(rest) && AcceptedSpelling(rest)
    requires TildesEscape(PercentDecoded(rest))
    ensures UriFragment(t + rest) && AcceptedSpelling(t + rest)
    ensures TildesEscape(Units(t, 0) + PercentDecoded(rest))
    decreases |t|
  {
    hide UriFragment, AcceptedSpelling, TildesEscape, PercentDecoded;
    if t == [] {
      assert t + rest == rest;
      assert Units(t, 0) + PercentDecoded(rest) == PercentDecoded(rest);
    } else {
      UnitsShift(t, 3, t[3..]);
      TripletsFine(t[3..], rest);
      var more := Units(t[3..], 0) + PercentDecoded(rest);
      assert (t + rest)[3..] == t[3..] + rest;
      OneTripletFine(t + rest);
      OneByteEscapes(Triplet(t, 0), more);
      assert Units(t, 0) + PercentDecoded(rest) == [Triplet(t, 0)] + more;
    }
  }

  lemma PlainFine(c: byte, rest: Text)
    requires (c == SLASH || !NeedPercentEncode(c)) && c != TILDE && Fine(rest)
    ensures Fine([c] + rest)
  {
    var t := [c] + rest;
    assert t[1..] == rest;
    assert ([c] + PercentDecoded(rest))[1..] == PercentDecoded(rest);
    CharThenRest([c], PercentDecoded(rest));
  }

  lemma BareDigitFine(d: byte, rest: Text)
    requires d in {ZERO, ONE} && Fine(rest)
    ensures Fine([d] + rest) && PercentDecoded([d] + rest) == [d] + PercentDecoded(rest)
  {
    PlainFine(d, rest);
    assert ([d] + rest)[1..] == rest;
  }

  lemma PieceFine(x: Piece, rest: Text)
    requires LegalPiece(x) && Fine(rest)
    ensures Fine(PieceText(x) + rest)
  {
    hide Fine, TildesEscape, WellFormed;
    match x
    case Plain(c) => PlainFine(c, rest);
    case Encoded(t) => EncodedFine(t, rest);
    case Escaped(tilde, d) =>
      BareDigitFine(d, rest);
      TildeFine(tilde, d, rest);
      assert tilde + [d] + rest == tilde + ([d] + rest);
  }

  lemma EncodedFine(t: Text, rest: Text)
    requires LegalPiece(Encoded(t)) && Fine(rest)
    ensures Fine(t + rest)
  {
    hide UriFragment, AcceptedSpelling, WellFormed, TildesEscape;
    Utf8CharByLead(Units(t, 0));
    TripletsDecoded(t, rest);
    TripletsFine(t, rest);
    CharThenRest(Units(t, 0), PercentDecoded(rest));
  }

  lemma TildeFine(tilde: Text, d: byte, rest: Text)
    requires d in {ZERO, ONE} && (tilde == [TILDE] || (|tilde| == 3 && Units(tilde, 0) == [TILDE]))
    requires Fine([d] + rest) && PercentDecoded([d] + rest) == [d] + PercentDecoded(rest)
    ensures Fine(tilde + ([d] + rest))
  {
    hide WellFormed;
    var t, D := tilde + ([d] + rest), PercentDecoded([d] + rest);
    CharThenRest([TILDE], D);
    assert ([TILDE] + D)[2..] == PercentDecoded(rest) && D[1..] == PercentDecoded(rest);
    if |tilde| == 3 {
      TripletsDecoded(tilde, [d] + rest);
      assert t[3..] == [d] + rest;
    } else {
      assert t[1..] == [d] + rest;
    }
  }

  lemma {:induction false} NameFine(xs: seq<Piece>, rest: Text)
    requires LegalPieces(xs) && Fine(rest)
    ensures Fine(PiecesText(xs) + rest)
  {
    hide *;
    if xs == [] {
      NoText(rest);
    } else {
      PiecesUnfold(xs);
      NameFine(xs[1..], rest);
      PieceFine(xs[0], PiecesText(xs[1..]) + rest);
      assert PieceText(xs[0]) + (PiecesText(xs[1..]) + rest) == PieceText(xs[0]) + PiecesText(xs[1..]) + rest;
    }
  }

  lemma NoText(rest: Text)
    ensures PiecesText([]) + rest == rest
  {
  }

  lemma {:induction false} NamesFine(names: seq<seq<Piece>>)
    requires AllLegal(names)
    ensures Fine(FragmentText(names))
  {
    hide LegalPieces, Fine, PiecesText;
    if names == [] {
      NothingFine();
    } else {
      NamesFine(names[1..]);
      NameFine(names[0], FragmentText(names[1..]));
      PlainFine(SLASH, PiecesText(names[0]) + FragmentText(names[1..]));
    }
  }

  lemma NothingFine()
    ensures Fine([])
  {
  }

  // ---------------------------------------------------------------- what is legal and so spelled is accepted

  lemma WideTriplet(t: Text)
    requires UriFragment(t) && AcceptedSpelling(t) && TildesEscape(PercentDecoded(t))
    requires PercentDecoded(t) != [] && PercentDecoded(t)[0] >= 0x80
    ensures IsTriplet(t, 0) && Triplet(t, 0) == PercentDecoded(t)[0]
    ensures PercentDecoded(t)[1..] == PercentDecoded(t[3..])
    ensures UriFragment(t[3..]) && AcceptedSpelling(t[3..]) && TildesEscape(PercentDecoded(t[3..]))
  {
    assert PercentDecoded(t)[1..] == PercentDecoded(t[if IsTriplet(t, 0) then 3 else 1..]);
  }

  lemma LongerRun(first: Text, run: Text, d: byte)
    requires |first| == 3 && IsTriplet(first, 0) && Triplet(first, 0) == d
    ensures Units(first + run, 0) == [d] + Units(run, 0)
  {
    assert (first + run)[3..] == run;
    UnitsShift(first + run, 3, run);
  }

  lemma FirstThree(t: Text)
    requires IsTriplet(t, 0)
    ensures t == t[..3] + t[3..] && IsTriplet(t[..3], 0) && Triplet(t[..3], 0) == Triplet(t, 0)
  {
  }

  predicate Wide(d: Text, n: nat) {
    n <= |d| && forall k | 0 <= k < n :: d[k] >= 0x80
  }

  lemma WideParts(d: Text, n: nat)
    requires n > 0 && Wide(d, n)
    ensures d != [] && d[0] >= 0x80 && Wide(d[1..], n - 1) && d == [d[0]] + d[1..]
  {
  }

  /** Decoded bytes beyond ASCII stand in a run of triplets. */
  lemma {:induction false} TripletRun(t: Text, n: nat) returns (run: Text, rest: Text)
    requires UriFragment(t) && AcceptedSpelling(t) && TildesEscape(PercentDecoded(t)) && Wide(PercentDecoded(t), n)
    ensures t == run + rest && |run| == 3 * n && |Units(run, 0)| == n
    ensures PercentDecoded(t) == Units(run, 0) + PercentDecoded(rest)
    ensures UriFragment(rest) && AcceptedSpelling(rest) && TildesEscape(PercentDecoded(rest))
    decreases n
  {
    hide *;
    if n == 0 {
      run, rest := [], t;
      NoRun(PercentDecoded(t));
    } else {
      var d := PercentDecoded(t);
      WideParts(d, n);
      WideTriplet(t);
      FirstThree(t);
      var more;
      more, rest := TripletRun(t[3..], n - 1);
      run := t[..3] + more;
      LongerRun(t[..3], more, d[0]);
      Grouped(t[..3], more, rest);
      Grouped([d[0]], Units(more, 0), PercentDecoded(rest));
    }
  }

  lemma NoRun(d: Text)
    ensures Units([], 0) == [] && [] + d == d
  {
  }

  lemma Grouped(a: Text, b: Text, c: Text)
    ensures a + (b + c) == (a + b) + c
  {
  }

  lemma AsciiTail(d: Text)
    requires d != [] && d[0] < 0x80 && WellFormed(d)
    ensures WellFormed(d[1..]) && IsUtf8Char([d[0]])
  {
    var n :| 1 <= n <= |d| && IsUtf8Char(d[..n]) && WellFormed(d[n..]);
    Utf8CharByLead(d[..n]);
  }

  lemma BareFine(t: Text)
    requires Fine(t) && t != [] && !IsTriplet(t, 0) && t[0] != TILDE
    ensures Fine(t[1..]) && (t[0] == SLASH || !NeedPercentEncode(t[0]))
  {
    hide WellFormed, IsUtf8Char;
    var d := PercentDecoded(t);
    assert d[1..] == PercentDecoded(t[1..]);
    AsciiTail(d);
  }

  /** Behind a tilde stands a bare digit. */
  lemma DigitBehind(t: Text, rest: Text)
    requires UriFragment(rest) && AcceptedSpelling(rest) && !IsTriplet(rest, 0)
    requires PercentDecoded(t) == [TILDE] + PercentDecoded(rest)
    requires WellFormed(PercentDecoded(t)) && TildesEscape(PercentDecoded(t))
    ensures rest != [] && rest[0] in {ZERO, ONE} && Fine(rest[1..])
  {
    hide WellFormed, IsUtf8Char;
    var d := PercentDecoded(t);
    assert d[1..] == PercentDecoded(rest);
    AsciiTail(d);
    assert rest != [];
    assert PercentDecoded(rest) == [rest[0]] + PercentDecoded(rest[1..]);
    assert d[1..][1..] == d[2..] == PercentDecoded(rest[1..]);
    AsciiTail(d[1..]);
  }

  lemma WideChar(t: Text) returns (x: Piece, n: nat)
    requires Fine(t) && PercentDecoded(t) != [] && PercentDecoded(t)[0] >= 0x80
    ensures 0 < n <= |t| && LegalPiece(x) && PieceText(x) == t[..n] && Fine(t[n..])
  {
    hide UriFragment, AcceptedSpelling, TildesEscape, PercentDecoded, Units;
    var d := PercentDecoded(t);
    var m :| 1 <= m <= |d| && IsUtf8Char(d[..m]) && WellFormed(d[m..]);
    Utf8CharByLead(d[..m]);
    assert forall k | 0 <= k < m :: d[k] == d[..m][k];
    var run, rest := TripletRun(t, m);
    assert d[..m] == Units(run, 0) && d[m..] == PercentDecoded(rest);
    x, n := Encoded(run), 3 * m;
    assert t[..n] == run && t[n..] == rest;
  }

  lemma TripletAhead(t: Text)
    requires IsTriplet(t, 0)
    ensures PercentDecoded(t) == [Triplet(t, 0)] + PercentDecoded(t[3..])
    ensures Units(t[..3], 0) == [Triplet(t, 0)]
  {
    hide PercentDecoded;
    FirstDecoded(t);
    var u := t[..3];
    assert IsTriplet(u, 0) && Triplet(u, 0) == Triplet(t, 0);
    assert Units(u, 3) == [];
  }

  lemma FirstDecoded(t: Text)
    requires IsTriplet(t, 0)
    ensures PercentDecoded(t) == [Triplet(t, 0)] + PercentDecoded(t[3..])
  {
  }

  lemma TripletTilde(t: Text) returns (x: Piece, n: nat)
    requires Fine(t) && IsTriplet(t, 0) && Triplet(t, 0) == TILDE
    ensures 0 < n <= |t| && LegalPiece(x) && PieceText(x) == t[..n] && Fine(t[n..])
  {
    hide WellFormed, TildesEscape, PercentDecoded, Units;
    TripletAhead(t);
    SameTriplet(t);
    DigitBehind(t, t[3..]);
    x, n := Escaped(t[..3], t[3]), 4;
    assert t[3..][1..] == t[4..] && t[..3] + [t[3]] == t[..4];
  }

  lemma SameTriplet(t: Text)
    requires Fine(t) && IsTriplet(t, 0) && Triplet(t, 0) == TILDE
    ensures UriFragment(t[3..]) && AcceptedSpelling(t[3..]) && !IsTriplet(t[3..], 0)
  {
  }

  lemma TripletAscii(t: Text) returns (x: Piece, n: nat)
    requires Fine(t) && IsTriplet(t, 0) && Triplet(t, 0) < 0x80 && Triplet(t, 0) != TILDE
    ensures 0 < n <= |t| && LegalPiece(x) && PieceText(x) == t[..n] && Fine(t[n..])
  {
    hide WellFormed, Units;
    TripletAhead(t);
    var d := PercentDecoded(t);
    assert d[1..] == PercentDecoded(t[3..]);
    AsciiTail(d);
    x, n := Encoded(t[..3]), 3;
  }

  lemma BareTilde(t: Text) returns (x: Piece, n: nat)
    requires Fine(t) && t != [] && t[0] == TILDE
    ensures 0 < n <= |t| && LegalPiece(x) && PieceText(x) == t[..n] && Fine(t[n..])
  {
    hide WellFormed, TildesEscape;
    assert !IsTriplet(t[1..], 0);
    DigitBehind(t, t[1..]);
    x, n := Escaped([TILDE], t[1]), 2;
    assert t[1..][1..] == t[2..] && [TILDE] + [t[1]] == t[..2];
  }

  /** The first character of a name as one piece. */
  lemma FirstPiece(t: Text) returns (x: Piece, n: nat)
    requires Fine(t) && t != [] && t[0] != SLASH
    ensures 0 < n <= |t| && LegalPiece(x) && PieceText(x) == t[..n] && Fine(t[n..])
  {
    hide Fine, PercentDecoded, Units, IsUtf8Char;
    if IsTriplet(t, 0) {
      TripletAhead(t);
      if Triplet(t, 0) >= 0x80 {
        x, n := WideChar(t);
      } else if Triplet(t, 0) == TILDE {
        x, n := TripletTilde(t);
      } else {
        x, n := TripletAscii(t);
      }
    } else if t[0] == TILDE {
      x, n := BareTilde(t);
    } else {
      BareFine(t);
      x, n := Plain(t[0]), 1;
    }
  }

  /** The pieces up to the next solidus, and the names behind it. */
  lemma {:induction false} Spelled(t: Text) returns (xs: seq<Piece>, names: seq<seq<Piece>>)
    requires Fine(t)
    ensures LegalPieces(xs) && AllLegal(names) && t == PiecesText(xs) + FragmentText(names)
    decreases |t|
  {
    hide Fine, LegalPiece, PieceText;
    xs, names := [], [];
    if t != [] && t[0] == SLASH {
      SolidusIsNoTriplet(t);
      BareFine(t);
      var first, rest := Spelled(t[1..]);
      names := [first] + rest;
      assert names[1..] == rest && t == [SLASH] + t[1..];
    } else if t != [] {
      var x, n := FirstPiece(t);
      var more;
      more, names := Spelled(t[n..]);
      xs := [x] + more;
      assert xs[1..] == more && t == t[..n] + t[n..];
      assert t[..n] + (PiecesText(more) + FragmentText(names)) == t[..n] + PiecesText(more) + FragmentText(names);
    }
  }

  lemma SolidusIsNoTriplet(t: Text)
    requires t != [] && t[0] == SLASH
    ensures !IsTriplet(t, 0) && t[0] != TILDE
  {
  }

  // ---------------------------------------------------------------- the condition

  /**
    A fragment is accepted if and only if RFC 6901 allows it, it is empty or starts with a bare solidus, and outside
    its triplets it has only unreserved characters and solidi, with a bare digit behind every tilde.
   */
  lemma FragmentIsRfc6901(t: Text)
    ensures Parse([SHARP] + t).Tokens? <==>
              LegalFragment(t) && (t == [] || t[0] == SLASH) && AcceptedSpelling(t)
  {
    hide Parse, AllLegal, FragmentText, TildesEscape, AcceptedSpelling, UriFragment, WellFormed, PercentDecoded,
         JsonPointer, FragmentTokens;
    var s := [SHARP] + t;
    FragmentForm(s);
    PointerByTildes(PercentDecoded(t));
    if Parse(s).Tokens? {
      var names :| AllLegal(names) && s == [SHARP] + FragmentText(names);
      assert t == s[1..] == FragmentText(names);
      NamesFine(names);
      StartsBare(names);
    }
    if LegalFragment(t) && (t == [] || t[0] == SLASH) && AcceptedSpelling(t) {
      var xs, names := Spelled(t);
      NoPiecesFirst(t, xs, names);
      assert s == [SHARP] + FragmentText(names);
    }
  }

  lemma StartsBare(names: seq<seq<Piece>>)
    ensures var t := FragmentText(names);
            (t == [] || t[0] == SLASH) && (PercentDecoded(t) == [] || PercentDecoded(t)[0] == SLASH)
  {
  }

  lemma NoPiecesFirst(t: Text, xs: seq<Piece>, names: seq<seq<Piece>>)
    requires LegalPieces(xs) && t == PiecesText(xs) + FragmentText(names) && (t == [] || t[0] == SLASH)
    ensures t == FragmentText(names)
  {
    hide *;
    NameHoldsNoSolidi(xs);
    FirstOf(PiecesText(xs), FragmentText(names));
  }

  lemma FirstOf(a: Text, b: Text)
    ensures if a == [] then a + b == b else a + b != [] && (a + b)[0] in a
  {
    if a != [] {
      assert (a + b)[0] == a[0];
    }
  }

  lemma BareCharacter(c: byte, rest: Text)
    requires FragmentCharacter(c) && c != TILDE && c < 0x80
    requires UriFragment(rest) && WellFormed(PercentDecoded(rest)) && TildesEscape(PercentDecoded(rest))
    ensures var t := [c] + rest;
            && UriFragment(t) && PercentDecoded(t) == [c] + PercentDecoded(rest)
            && WellFormed(PercentDecoded(t)) && TildesEscape(PercentDecoded(t))
            && (AcceptedSpelling(t) ==> (c == SLASH || !NeedPercentEncode(c)) && AcceptedSpelling(rest))
  {
    hide WellFormed;
    assert ([c] + rest)[1..] == rest && ([c] + PercentDecoded(rest))[1..] == PercentDecoded(rest);
    CharThenRest([c], PercentDecoded(rest));
  }

  lemma ColonCharacters()
    ensures forall c | c in {0x62, 0x3A, 0x61, SLASH} :: FragmentCharacter(c) && c != TILDE && c < 0x80
    ensures 0x3A != SLASH && NeedPercentEncode(0x3A)
  {
  }

  /** "#/a:b" is a fragment by both standards, and refused. */
  lemma ColonRefused()
    ensures var t := [SLASH, 0x61, 0x3A, 0x62]; LegalFragment(t) && !Parse([SHARP] + t).Tokens?
  {
    hide *;
    EmptyIsFine();
    ColonCharacters();
    var d, cd, bcd := [0x62], [0x3A, 0x62], [0x61, 0x3A, 0x62];
    assert [0x62] + [] == d && [0x3A] + d == cd && [0x61] + cd == bcd;
    BareCharacter(0x62, []);
    BareCharacter(0x3A, d);
    BareCharacter(0x61, cd);
    BareCharacter(SLASH, bcd);
    var t: Text := [SLASH, 0x61, 0x3A, 0x62];
    assert [SLASH] + bcd == t;
    Colon(t);
    FragmentIsRfc6901(t);
  }

  lemma EmptyIsFine()
    ensures UriFragment([]) && WellFormed(PercentDecoded([])) && TildesEscape(PercentDecoded([]))
  {
  }

  lemma Colon(t: Text)
    requires UriFragment(t) && WellFormed(PercentDecoded(t)) && TildesEscape(PercentDecoded(t))
    requires PercentDecoded(t) != [] && PercentDecoded(t)[0] == SLASH
    ensures LegalFragment(t)
  {
    PointerByTildes(PercentDecoded(t));
  }
}
