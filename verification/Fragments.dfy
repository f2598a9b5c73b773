/**
  The URI fragment form of JSON Pointers: which texts that start with "#" are accepted, and when the outcome is the one
  section 6 of RFC 6901 asks for, which decodes the percent triplets first and splits at the solidi afterwards.
 */
module Fragments {
  import opened Bytes
  import opened Encodings
  import opened PointerTrees
  import opened Pointers
  import opened PointerParsers

  /** One character of a name as a fragment spells it; the hexadecimal digits of a triplet may have either case. */
  datatype Piece =
    | Plain(c: byte)
    | Escaped(tilde: Text, d: byte)
    | Encoded(triplets: Text)

  predicate LegalPiece(x: Piece) {
    match x
    case Plain(c) => !NeedPercentEncode(c) && c != TILDE
    case Escaped(tilde, d) => d in {ZERO, ONE} && (tilde == [TILDE] || (|tilde| == 3 && Units(tilde, 0) == [TILDE]))
    case Encoded(t) => |t| == 3 * |Units(t, 0)| && IsUtf8Char(Units(t, 0)) && Units(t, 0) != [TILDE]
  }

  function PieceText(x: Piece): Text {
    match x
    case Plain(c) => [c]
    case Escaped(tilde, d) => tilde + [d]
    case Encoded(t) => t
  }

  function PieceValue(x: Piece): Text {
    match x
    case Plain(c) => [c]
    case Escaped(_, d) => [if d == ONE then SLASH else TILDE]
    case Encoded(t) => Units(t, 0)
  }

  predicate LegalPieces(xs: seq<Piece>) {
    forall x | x in xs :: LegalPiece(x)
  }

  function PiecesText(xs: seq<Piece>): Text {
    if xs == [] then [] else PieceText(xs[0]) + PiecesText(xs[1..])
  }

  function PiecesValue(xs: seq<Piece>): Text {
    if xs == [] then [] else PieceValue(xs[0]) + PiecesValue(xs[1..])
  }

  predicate AllLegal(names: seq<seq<Piece>>) {
    forall xs | xs in names :: LegalPieces(xs)
  }

  /** Every name with a solidus before it. */
  function FragmentText(names: seq<seq<Piece>>): Text {
    if names == [] then [] else [SLASH] + (PiecesText(names[0]) + FragmentText(names[1..]))
  }

  function FragmentTokens(names: seq<seq<Piece>>): seq<Token> {
    if names == [] then []
    else [Token(PiecesValue(names[0]), IndexOf(PiecesValue(names[0])))] + FragmentTokens(names[1..])
  }

  // ---------------------------------------------------------------- every such text is accepted

  lemma {:induction false} UnitsAt(s: Text, i: nat, t: Text, k: nat)
    requires At(s, i, t) && k <= |t|
    ensures |Units(t, k)| <= |Units(s, i + k)| && Units(s, i + k)[..|Units(t, k)|] == Units(t, k)
    decreases |t| - k
  {
    if IsTriplet(t, k) {
      AtPeek(s, i, t, k);
      AtPeek(s, i, t, k + 1);
      AtPeek(s, i, t, k + 2);
      UnitsAt(s, i, t, k + 3);
    }
  }

  /** A well-formed character at the start is validated whole, whatever follows. */
  lemma CharValidated(u: Text, v: Text)
    requires IsUtf8Char(u) && |u| <= |v| && v[..|u|] == u
    ensures Validate(v, 0) == Validated(true, u, |u|)
  {
    Utf8CharByLead(u);
    ValidateByLead(v, 0);
    assert forall k | 0 <= k < |u| :: v[k] == v[..|u|][k];
  }

  lemma TripletsHaveUnits(s: Text, i: nat, t: Text)
    requires At(s, i, t) && |t| == 3 * |Units(t, 0)| && IsUtf8Char(Units(t, 0))
    ensures i < |s| && s[i] == PERCENT
    ensures Validate(Units(s, i), 0) == Validated(true, Units(t, 0), |Units(t, 0)|) && |Units(t, 0)| <= |Units(s, i)|
  {
    UnitsAt(s, i, t, 0);
    CharValidated(Units(t, 0), Units(s, i));
    AtPeek(s, i, t, 0);
  }

  lemma PieceComplete(s: Text, i: nat, x: Piece)
    requires LegalPiece(x) && At(s, i, PieceText(x))
    ensures i < |s| && s[i] != SLASH && CharStep(s, i, true) == Put(PieceValue(x), i + |PieceText(x)|)
  {
    match x
    case Plain(c) =>
      AtPeek(s, i, [c], 0);
    case Encoded(t) =>
      TripletsHaveUnits(s, i, t);
      Utf8CharByLead(Units(t, 0));
    case Escaped(tilde, d) =>
      AtSplit(s, i, tilde, [d]);
      AtPeek(s, i, tilde, 0);
      AtPeek(s, i + |tilde|, [d], 0);
      if |tilde| == 3 {
        TripletsHaveUnits(s, i, tilde);
      }
  }

  lemma PiecesUnfold(xs: seq<Piece>)
    requires xs != [] && LegalPieces(xs)
    ensures LegalPiece(xs[0]) && LegalPieces(xs[1..])
    ensures PiecesText(xs) == PieceText(xs[0]) + PiecesText(xs[1..])
    ensures PiecesValue(xs) == PieceValue(xs[0]) + PiecesValue(xs[1..])
  {
  }

  lemma NoPieces(s: Text, i: nat, xs: seq<Piece>, end: nat)
    requires xs == [] && At(s, i, PiecesText(xs)) && end == i + |PiecesText(xs)| && (end == |s| || s[end] == SLASH)
    ensures ScanName(s, i, true) == Name(PiecesValue(xs), end)
  {
  }

  lemma {:induction false} NameComplete(s: Text, i: nat, xs: seq<Piece>, end: nat)
    requires LegalPieces(xs) && At(s, i, PiecesText(xs)) && end == i + |PiecesText(xs)|
    requires end == |s| || s[end] == SLASH
    ensures ScanName(s, i, true) == Name(PiecesValue(xs), end)
    decreases |xs|
  {
    hide *;
    if xs == [] {
      NoPieces(s, i, xs, end);
    } else {
      PiecesUnfold(xs);
      var text, rest := PieceText(xs[0]), PiecesText(xs[1..]);
      AtSplit(s, i, text, rest);
      PieceComplete(s, i, xs[0]);
      NameComplete(s, i + |text|, xs[1..], end);
      NameStep(s, i, true, PieceValue(xs[0]), i + |text|, PiecesValue(xs[1..]), end);
    }
  }

  lemma {:induction false} TokensComplete(s: Text, i: nat, names: seq<seq<Piece>>)
    requires AllLegal(names) && i <= |s| && s[i..] == FragmentText(names)
    ensures (i == |s| || s[i] == SLASH) && ScanTokens(s, i, true) == Tokens(FragmentTokens(names))
    decreases |names|
  {
    hide ScanName, PiecesText, PiecesValue, LegalPieces, IndexOf;
    if names != [] {
      hide ScanTokens;
      var end := i + 1 + |PiecesText(names[0])|;
      Behind(s, i, PiecesText(names[0]), FragmentText(names[1..]));
      TokensComplete(s, end, names[1..]);
      NameComplete(s, i + 1, names[0], end);
      TokenStep(s, i, true, PiecesValue(names[0]), end, FragmentTokens(names[1..]));
    }
  }

  // ---------------------------------------------------------------- nothing else is

  lemma {:induction false} SliceUnits(s: Text, i: nat, n: nat)
    requires n <= |Units(s, i)| && i <= |s|
    ensures i + 3 * n <= |s| && Units(s[i..i + 3 * n], 0) == Units(s, i)[..n]
    decreases n
  {
    if n > 0 {
      SliceUnits(s, i + 3, n - 1);
      var t := s[i..i + 3 * n];
      assert t[3..] == s[i + 3..i + 3 * n];
      UnitsShift(t, 3, t[3..]);
    }
  }

  lemma {:induction false} UnitsShift(t: Text, k: nat, rest: Text)
    requires k <= |t| && rest == t[k..]
    ensures Units(t, k) == Units(rest, 0)
  {
    UnitsFrom(t, k, rest, 0);
  }

  lemma {:induction false} UnitsFrom(t: Text, k: nat, rest: Text, j: nat)
    requires k <= |t| && rest == t[k..]
    ensures Units(t, k + j) == Units(rest, j)
    decreases |rest| - j
  {
    if IsTriplet(rest, j) {
      UnitsFrom(t, k, rest, j + 3);
    }
  }

  /** The character that a run of triplets was decoded to, and the triplets it came from. */
  lemma CharOfTriplets(s: Text, i: nat) returns (t: Text)
    requires i < |s| && s[i] == PERCENT && CharStep(s, i, true).Put?
    ensures var v := Validate(Units(s, i), 0);
            && v.ok && |t| == 3 * v.next && i + |t| <= |s| && t == s[i..i + |t|]
            && Units(t, 0) == v.out && |v.out| == v.next && IsUtf8Char(v.out)
  {
    var u := Units(s, i);
    var v := Validate(u, 0);
    ValidateByLead(u, 0);
    Utf8CharByLead(v.out);
    SliceUnits(s, i, v.next);
    t := s[i..i + 3 * v.next];
    assert u[..v.next] == v.out;
  }

  lemma TripletsSound(s: Text, i: nat) returns (x: Piece)
    requires i < |s| && s[i] == PERCENT && CharStep(s, i, true).Put?
    ensures var step := CharStep(s, i, true);
            LegalPiece(x) && PieceText(x) == s[i..step.next] && PieceValue(x) == step.bytes
  {
    hide Validate, Units, IsUtf8Char;
    var t := CharOfTriplets(s, i);
    if Units(t, 0) == [TILDE] {
      x := Escaped(t, s[i + 3]);
      assert s[i..i + 4] == t + [s[i + 3]];
    } else {
      x := Encoded(t);
    }
  }

  lemma PieceSound(s: Text, i: nat) returns (x: Piece)
    requires i < |s| && s[i] != SLASH && CharStep(s, i, true).Put?
    ensures var step := CharStep(s, i, true);
            LegalPiece(x) && PieceText(x) == s[i..step.next] && PieceValue(x) == step.bytes
  {
    if s[i] == PERCENT {
      x := TripletsSound(s, i);
    } else if s[i] == TILDE {
      x := Escaped([TILDE], s[i + 1]);
      assert s[i..i + 2] == [TILDE] + [s[i + 1]];
    } else {
      x := Plain(s[i]);
    }
  }

  lemma {:induction false} NameSound(s: Text, i: nat) returns (xs: seq<Piece>)
    requires i <= |s| && ScanName(s, i, true).Name?
    ensures var r := ScanName(s, i, true);
            LegalPieces(xs) && PiecesText(xs) == s[i..r.end] && PiecesValue(xs) == r.name
    decreases |s| - i
  {
    hide CharStep, LegalPiece, PieceText, PieceValue;
    xs := [];
    if i < |s| && s[i] != SLASH {
      var step, end := CharStep(s, i, true), ScanName(s, i, true).end;
      var x := PieceSound(s, i);
      var rest := NameSound(s, step.next);
      xs := [x] + rest;
      assert xs[1..] == rest;
      assert s[i..end] == s[i..step.next] + s[step.next..end];
    }
  }

  lemma {:induction false} TokensSound(s: Text, i: nat) returns (names: seq<seq<Piece>>)
    requires i <= |s| && (i == |s| || s[i] == SLASH) && ScanTokens(s, i, true).Tokens?
    ensures AllLegal(names) && s[i..] == FragmentText(names)
    decreases |s| - i
  {
    hide ScanName, LegalPieces, PiecesText, PiecesValue, IndexOf, ScanTokens;
    names := [];
    if i < |s| {
      var name, end, more := TokenParts(s, i, true);
      var xs := NameSound(s, i + 1);
      var rest := TokensSound(s, end);
      names := [xs] + rest;
      assert names[1..] == rest;
      assert s[i..] == [SLASH] + (s[i + 1..end] + s[end..]);
    }
  }

  /** A text that starts with "#" is accepted if and only if it is spelled from legal pieces, and its tokens are theirs. */
  lemma FragmentForm(s: Text)
    requires Peek(s, 0) == SHARP
    ensures Parse(s).Tokens? <==> exists names :: AllLegal(names) && s == [SHARP] + FragmentText(names)
    ensures forall names | AllLegal(names) && s == [SHARP] + FragmentText(names) ::
              Parse(s) == Tokens(FragmentTokens(names))
  {
    hide ScanTokens, FragmentText, FragmentTokens, AllLegal;
    if Parse(s).Tokens? {
      var names := TokensSound(s, 1);
      assert s == [SHARP] + s[1..];
    }
    forall names | AllLegal(names) && s == [SHARP] + FragmentText(names)
      ensures Parse(s) == Tokens(FragmentTokens(names))
    {
      assert s[1..] == FragmentText(names);
      TokensComplete(s, 1, names);
    }
  }

  // ---------------------------------------------------------------- section 6 of RFC 6901

  /** Every percent triplet replaced by its byte, as RFC 3986 decodes a fragment. */
  function PercentDecoded(t: Text): Text {
    if t == [] then []
    else if IsTriplet(t, 0) then [Triplet(t, 0)] + PercentDecoded(t[3..])
    else [t[0]] + PercentDecoded(t[1..])
  }

  /** What a piece contributes to the decoded pointer. */
  function Reference(x: Piece): Text {
    match x
    case Plain(c) => [c]
    case Escaped(_, d) => [TILDE, d]
    case Encoded(t) => Units(t, 0)
  }

  function ReferenceName(xs: seq<Piece>): Text {
    if xs == [] then [] else Reference(xs[0]) + ReferenceName(xs[1..])
  }

  function ReferenceNames(names: seq<seq<Piece>>): (r: seq<Text>)
    ensures |r| == |names|
  {
    if names == [] then [] else [ReferenceName(names[0])] + ReferenceNames(names[1..])
  }

  lemma {:induction false} TripletsDecoded(t: Text, rest: Text)
    requires |t| == 3 * |Units(t, 0)|
    ensures PercentDecoded(t + rest) == Units(t, 0) + PercentDecoded(rest)
    decreases |t|
  {
    if t == [] {
      assert t + rest == rest;
    } else {
      assert (t + rest)[3..] == t[3..] + rest;
      UnitsShift(t, 3, t[3..]);
      TripletsDecoded(t[3..], rest);
    }
  }

  lemma PieceDecoded(x: Piece, rest: Text)
    requires LegalPiece(x)
    ensures PercentDecoded(PieceText(x) + rest) == Reference(x) + PercentDecoded(rest)
  {
    match x
    case Plain(c) =>
      assert ([c] + rest)[1..] == rest;
    case Encoded(t) =>
      TripletsDecoded(t, rest);
    case Escaped(tilde, d) =>
      assert tilde + [d] + rest == tilde + ([d] + rest);
      assert ([d] + rest)[1..] == rest;
      if |tilde| == 3 {
        TripletsDecoded(tilde, [d] + rest);
      } else {
        assert ([TILDE] + ([d] + rest))[1..] == [d] + rest;
      }
      assert [TILDE] + ([d] + PercentDecoded(rest)) == [TILDE, d] + PercentDecoded(rest);
  }

  lemma {:induction false} NameDecoded(xs: seq<Piece>, rest: Text)
    requires LegalPieces(xs)
    ensures PercentDecoded(PiecesText(xs) + rest) == ReferenceName(xs) + PercentDecoded(rest)
    decreases |xs|
  {
    hide LegalPiece, PieceText, Reference, PercentDecoded;
    if xs == [] {
      assert [] + rest == rest && [] + PercentDecoded(rest) == PercentDecoded(rest);
    } else {
      NameDecoded(xs[1..], rest);
      PieceDecoded(xs[0], PiecesText(xs[1..]) + rest);
      assert PiecesText(xs) + rest == PieceText(xs[0]) + (PiecesText(xs[1..]) + rest);
      assert Reference(xs[0]) + (ReferenceName(xs[1..]) + PercentDecoded(rest)) == ReferenceName(xs) + PercentDecoded(rest);
    }
  }

  lemma SolidusDecoded(rest: Text)
    ensures PercentDecoded([SLASH] + rest) == [SLASH] + PercentDecoded(rest)
  {
    assert ([SLASH] + rest)[1..] == rest;
  }

  lemma {:induction false} FragmentDecoded(names: seq<seq<Piece>>)
    requires AllLegal(names)
    ensures PercentDecoded(FragmentText(names)) == Joined(ReferenceNames(names))
    decreases |names|
  {
    hide PiecesText, ReferenceName, LegalPieces;
    if names != [] {
      hide PercentDecoded;
      FragmentDecoded(names[1..]);
      SolidusDecoded(PiecesText(names[0]) + FragmentText(names[1..]));
      NameDecoded(names[0], FragmentText(names[1..]));
      assert ReferenceNames(names)[1..] == ReferenceNames(names[1..]);
      assert [SLASH] + (ReferenceName(names[0]) + Joined(ReferenceNames(names[1..])))
          == [SLASH] + ReferenceName(names[0]) + Joined(ReferenceNames(names[1..]));
    }
  }

  // ---------------------------------------------------------------- counting solidi

  lemma {:induction false} SomeSolidi(t: Text)
    ensures Solidi(t) == 0 <==> SLASH !in t
  {
    if t != [] {
      SomeSolidi(t[..|t| - 1]);
      assert t == t[..|t| - 1] + [t[|t| - 1]];
    }
  }

  /** As many solidi as tokens exactly when no token holds one. */
  lemma {:induction false} JoinedSolidi(tokens: seq<Text>)
    ensures Solidi(Joined(tokens)) >= |tokens|
    ensures Solidi(Joined(tokens)) == |tokens| <==> forall t | t in tokens :: SLASH !in t
  {
    if tokens != [] {
      var first, rest := tokens[0], tokens[1..];
      JoinedSolidi(rest);
      SolidiSplit([SLASH] + first, Joined(rest));
      SolidiSplit([SLASH], first);
      SomeSolidi(first);
      OneSolidus();
      assert tokens == [first] + rest;
    }
  }

  lemma PieceHoldsNoSolidus(x: Piece)
    requires LegalPiece(x)
    ensures SLASH !in PieceText(x)
  {
    match x
    case Plain(c) =>
    case Encoded(t) => TripletsHoldNoSolidus(t, 0, |Units(t, 0)|);
    case Escaped(tilde, d) =>
      if |tilde| == 3 {
        TripletsHoldNoSolidus(tilde, 0, 1);
      }
  }

  lemma {:induction false} NameHoldsNoSolidi(xs: seq<Piece>)
    requires LegalPieces(xs)
    ensures SLASH !in PiecesText(xs)
  {
    if xs != [] {
      PieceHoldsNoSolidus(xs[0]);
      NameHoldsNoSolidi(xs[1..]);
    }
  }

  lemma {:induction false} FragmentSolidi(names: seq<seq<Piece>>)
    requires AllLegal(names)
    ensures Solidi(FragmentText(names)) == |names|
  {
    hide LegalPieces, PiecesText;
    if names != [] {
      var text, rest := PiecesText(names[0]), FragmentText(names[1..]);
      FragmentSolidi(names[1..]);
      NameHoldsNoSolidi(names[0]);
      NoSolidi(text);
      SolidiSplit(text, rest);
      SolidiSplit([SLASH], text + rest);
      OneSolidus();
    }
  }

  // ---------------------------------------------------------------- the meaning

  lemma {:induction false} PlainEvaluated(u: Text, rest: Text)
    requires SLASH !in u && TILDE !in u && ReferenceToken(rest)
    ensures ReferenceToken(u + rest) && Evaluated(u + rest) == u + Evaluated(rest)
  {
    hide Evaluated;
    if u == [] {
      assert u + rest == rest && u + Evaluated(rest) == Evaluated(rest);
    } else {
      assert (u + rest)[1..] == u[1..] + rest;
      PlainEvaluated(u[1..], rest);
      EvaluatedStep(u + rest);
      assert [u[0]] + (u[1..] + Evaluated(rest)) == u + Evaluated(rest);
    }
  }

  lemma PieceEvaluated(x: Piece, rest: Text)
    requires LegalPiece(x) && SLASH !in Reference(x) && ReferenceToken(rest)
    ensures ReferenceToken(Reference(x) + rest) && Evaluated(Reference(x) + rest) == PieceValue(x) + Evaluated(rest)
  {
    hide Evaluated;
    match x
    case Plain(c) => PlainEvaluated([c], rest);
    case Encoded(t) =>
      Utf8CharByLead(Units(t, 0));
      PlainEvaluated(Units(t, 0), rest);
    case Escaped(_, d) =>
      assert ([TILDE, d] + rest)[2..] == rest;
      EvaluatedStep([TILDE, d] + rest);
  }

  lemma {:induction false} NameEvaluated(xs: seq<Piece>)
    requires LegalPieces(xs) && SLASH !in ReferenceName(xs)
    ensures ReferenceToken(ReferenceName(xs)) && Evaluated(ReferenceName(xs)) == PiecesValue(xs)
  {
    hide LegalPiece, Reference, PieceValue, Evaluated;
    if xs == [] {
      EvaluatedEmpty();
    } else {
      NameEvaluated(xs[1..]);
      PieceEvaluated(xs[0], ReferenceName(xs[1..]));
    }
  }

  lemma {:induction false} NamesEvaluated(names: seq<seq<Piece>>)
    requires AllLegal(names) && forall t | t in ReferenceNames(names) :: SLASH !in t
    ensures AllReferenceTokens(ReferenceNames(names)) && Meaning(ReferenceNames(names)) == FragmentTokens(names)
  {
    hide LegalPieces, ReferenceName, PiecesValue, Evaluated, ReferenceToken, IndexOf, Meaning, ReferenceNames;
    if names == [] {
      NothingMeant();
    } else {
      ReferenceParts(names);
      var first, rest := ReferenceName(names[0]), ReferenceNames(names[1..]);
      NameEvaluated(names[0]);
      NamesEvaluated(names[1..]);
      MeaningStep(first, rest);
    }
  }

  lemma NothingMeant()
    ensures ReferenceNames([]) == [] && Meaning([]) == [] && AllReferenceTokens([])
  {
  }

  lemma ReferenceParts(names: seq<seq<Piece>>)
    requires names != []
    ensures ReferenceNames(names) == [ReferenceName(names[0])] + ReferenceNames(names[1..])
  {
  }

  lemma MeaningStep(first: Text, rest: seq<Text>)
    requires ReferenceToken(first) && AllReferenceTokens(rest)
    ensures AllReferenceTokens([first] + rest)
    ensures Meaning([first] + rest) == [Token(Evaluated(first), IndexOf(Evaluated(first)))] + Meaning(rest)
  {
    hide ReferenceToken, Evaluated, IndexOf;
  }

  lemma {:induction false} ReferenceHoldsNoSolidus(t: Text)
    requires ReferenceToken(t)
    ensures SLASH !in t
  {
    if t != [] && t[0] == TILDE {
      ReferenceHoldsNoSolidus(t[2..]);
      assert t == [t[0], t[1]] + t[2..];
    } else if t != [] {
      ReferenceHoldsNoSolidus(t[1..]);
      assert t == [t[0]] + t[1..];
    }
  }

  /** The tokens are those of the percent-decoded pointer. */
  ghost predicate MeansDecoded(b: Text, ts: seq<Token>) {
    exists tokens :: AllReferenceTokens(tokens) && PercentDecoded(b) == Joined(tokens) && Meaning(tokens) == ts
  }

  /**
    An accepted fragment means what section 6 of RFC 6901 says if and only if decoding adds no solidus: an encoded one
    is taken into a name instead of ending it.
   */
  lemma FragmentMeaning(s: Text)
    requires Peek(s, 0) == SHARP && Parse(s).Tokens?
    ensures MeansDecoded(s[1..], Parse(s).tokens) <==> Solidi(PercentDecoded(s[1..])) == Solidi(s[1..])
  {
    hide Parse, ScanTokens, Evaluated, ReferenceName, LegalPieces, AllLegal, Joined, FragmentText, FragmentTokens,
         PercentDecoded;
    FragmentForm(s);
    var names :| AllLegal(names) && s == [SHARP] + FragmentText(names);
    assert s[1..] == FragmentText(names);
    var refs := ReferenceNames(names);
    FragmentDecoded(names);
    FragmentSolidi(names);
    JoinedSolidi(refs);
    if Solidi(Joined(refs)) == |names| {
      NamesEvaluated(names);
    }
    if MeansDecoded(s[1..], Parse(s).tokens) {
      var tokens :| AllReferenceTokens(tokens) && Joined(refs) == Joined(tokens) && Meaning(tokens) == Parse(s).tokens;
      forall t | t in tokens ensures SLASH !in t {
        ReferenceHoldsNoSolidus(t);
      }
      JoinedSolidi(tokens);
      TokenCount(names);
    }
  }

  lemma {:induction false} TokenCount(names: seq<seq<Piece>>)
    ensures |FragmentTokens(names)| == |names|
  {
    if names != [] {
      TokenCount(names[1..]);
    }
  }

  const ENCODED_SOLIDUS: Text := [PERCENT, 0x32, 0x46]

  lemma EncodedSolidusIs()
    ensures Units(ENCODED_SOLIDUS, 0) == [SLASH] && LegalPiece(Encoded(ENCODED_SOLIDUS))
    ensures PercentDecoded([SLASH] + ENCODED_SOLIDUS) == [SLASH, SLASH]
    ensures Solidi([SLASH, SLASH]) == 2
  {
    var t := ENCODED_SOLIDUS;
    assert Units(t, 0) == [Triplet(t, 0)] + Units(t, 3);
    TripletsDecoded(t, []);
    assert t + [] == t && [SLASH] + [SLASH] == [SLASH, SLASH];
    SolidusDecoded(t);
    SolidiSplit([SLASH], [SLASH]);
    OneSolidus();
  }

  lemma OnePiece(x: Piece)
    ensures PiecesText([x]) == PieceText(x) && PiecesValue([x]) == PieceValue(x)
  {
    assert [x][1..] == [];
    assert PieceText(x) + [] == PieceText(x) && PieceValue(x) + [] == PieceValue(x);
  }

  /** "#/%2F" is one token named "/", where the decoded pointer "//" has two. */
  lemma EncodedSolidus()
    ensures var s := [SHARP, SLASH] + ENCODED_SOLIDUS;
            && Parse(s) == Tokens([Token([SLASH], INVALID)])
            && PercentDecoded(s[1..]) == [SLASH, SLASH] && !MeansDecoded(s[1..], Parse(s).tokens)
  {
    hide Parse, Solidi, PercentDecoded, Units, LegalPiece, MeansDecoded;
    var s := [SHARP, SLASH] + ENCODED_SOLIDUS;
    var names := [[Encoded(ENCODED_SOLIDUS)]];
    EncodedSolidusIs();
    OnePiece(Encoded(ENCODED_SOLIDUS));
    assert FragmentText(names) == [SLASH] + ENCODED_SOLIDUS;
    assert s == [SHARP] + FragmentText(names) && s[1..] == FragmentText(names);
    FragmentForm(s);
    assert FragmentTokens(names) == [Token([SLASH], INVALID)];
    FragmentSolidi(names);
    FragmentMeaning(s);
  }
}
