/**
  What a refused pointer text tells: the text is a pointer up to the character the error is about, and the code and the
  offset say what is wrong with that character.
 */
module PointerFaults {
  import opened Bytes
  import opened Encodings
  import opened PointerTrees
  import opened Pointers
  import opened PointerEvaluation
  import Fragments

  // ---------------------------------------------------------------- what is wrong

  /** The bytes of u are spelled by triplets at i, one behind the other. */
  predicate SpelledAt(s: Text, i: nat, u: Text) {
    forall k | 0 <= k < |u| :: Spells(s, i + 3 * k, u[k])
  }

  /** No well-formed character is spelled at i. */
  ghost predicate NoCharacter(s: Text, i: nat) {
    forall u: Text | SpelledAt(s, i, u) :: !IsUtf8Char(u)
  }

  /** The character at c is refused with this error. */
  ghost predicate Wrong(s: Text, c: nat, uri: bool, fault: Fault, o: nat)
    requires c < |s|
  {
    match fault
    case TokenMustBeginWithSolidus => false
    case InvalidEscape =>
      && (if s[c] as char == '~' then o == c + 1 else uri && Spells(s, c, '~' as int) && o == c + 3)
      && o <= |s| && (o < |s| ==> s[o] as char !in "01")
    case InvalidPercentEncoding => uri && o == c && s[c] as char == '%' && NoCharacter(s, c)
    case CharacterMustPercentEncode => uri && o == c && !Unreserved(s[c]) && s[c] as char !in "/%"
  }

  lemma {:induction false} SpelledUnits(s: Text, i: nat, u: Text)
    requires SpelledAt(s, i, u)
    ensures |u| <= |Units(s, i)| && u == Units(s, i)[..|u|]
    decreases |u|
  {
    hide Spells;
    if u != [] {
      assert Spells(s, i + 3 * 0, u[0]);
      TripletSpells(s, i);
      forall k | 0 <= k < |u| - 1 ensures Spells(s, i + 3 + 3 * k, u[1..][k]) {
        assert Spells(s, i + 3 * (k + 1), u[k + 1]);
      }
      SpelledUnits(s, i + 3, u[1..]);
    }
  }

  lemma WrongCharacter(s: Text, c: nat, uri: bool)
    requires c < |s| && s[c] != SLASH && CharStep(s, c, uri).Bad?
    ensures Wrong(s, c, uri, CharStep(s, c, uri).fault, CharStep(s, c, uri).offset)
    ensures !CharStep(s, c, uri).fault.TokenMustBeginWithSolidus?
  {
    hide Unreserved, NeedPercentEncode, Validate, IsUtf8Char, Spells;
    UnreservedStaysBare(s[c]);
    if uri && s[c] == PERCENT {
      var u := Units(s, c);
      var v := Validate(u, 0);
      if v.ok && v.next <= |u| {
        WrongTilde(s, c);
      } else {
        forall w: Text | SpelledAt(s, c, w) ensures !IsUtf8Char(w) {
          SpelledUnits(s, c, w);
          if IsUtf8Char(w) {
            Fragments.CharValidated(w, u);
          }
        }
      }
    }
  }

  lemma WrongTilde(s: Text, c: nat)
    requires c < |s| && s[c] == PERCENT && CharStep(s, c, true).Bad?
    requires var v := Validate(Units(s, c), 0); v.ok && v.next <= |Units(s, c)|
    ensures c + 3 <= |s| && Spells(s, c, '~' as int) && CharStep(s, c, true) == Bad(InvalidEscape, c + 3)
    ensures c + 3 < |s| ==> s[c + 3] as char !in "01"
  {
    hide Spells;
    var u := Units(s, c);
    ValidateByLead(u, 0);
    UnitsLength(s, c);
    TripletSpells(s, c);
    assert u[0] == Triplet(s, c);
  }

  // ---------------------------------------------------------------- the text before it is a pointer

  /** A character does not depend on what comes behind it. */
  lemma StepStays(s: Text, i: nat, uri: bool, c: nat)
    requires i < |s| && s[i] != SLASH && CharStep(s, i, uri).Put? && CharStep(s, i, uri).next <= c <= |s|
    ensures i < c && CharStep(s[..c], i, uri) == CharStep(s, i, uri)
  {
    var step := CharStep(s, i, uri);
    if uri && s[i] == PERCENT {
      hide CharStep, Fragments.LegalPiece, Fragments.PieceText, Fragments.PieceValue;
      var x := Fragments.PieceSound(s, i);
      assert s[..c][i..step.next] == s[i..step.next];
      Fragments.PieceComplete(s[..c], i, x);
    }
  }

  lemma {:induction false} NameStays(s: Text, i: nat, uri: bool, c: nat)
    requires i <= c <= |s| && ScanName(s, i, uri).Name? && ScanName(s, i, uri).end <= c
    ensures ScanName(s[..c], i, uri) == ScanName(s, i, uri)
    decreases |s| - i
  {
    hide CharStep;
    if i < |s| && s[i] != SLASH {
      var step := CharStep(s, i, uri);
      StepStays(s, i, uri, c);
      NameStays(s, step.next, uri, c);
    }
  }

  /** The first character that is refused; the name up to it is accepted. */
  lemma {:induction false} NameBreaks(s: Text, i: nat, uri: bool) returns (c: nat)
    requires i <= |s| && ScanName(s, i, uri).NoName?
    ensures i <= c < |s| && s[c] != SLASH
    ensures CharStep(s, c, uri) == Bad(ScanName(s, i, uri).fault, ScanName(s, i, uri).offset)
    ensures ScanName(s[..c], i, uri).Name? && ScanName(s[..c], i, uri).end == c
    decreases |s| - i
  {
    hide CharStep;
    c := i;
    var step := CharStep(s, i, uri);
    if step.Put? {
      c := NameBreaks(s, step.next, uri);
      StepStays(s, i, uri, c);
    }
  }

  lemma {:induction false} TokensBreak(s: Text, i: nat, uri: bool) returns (c: nat)
    requires i <= |s| && (i == |s| || s[i] == SLASH) && ScanTokens(s, i, uri).Failed?
    ensures i < c < |s| && s[c] != SLASH
    ensures CharStep(s, c, uri) == Bad(ScanTokens(s, i, uri).fault, ScanTokens(s, i, uri).offset)
    ensures ScanTokens(s[..c], i, uri).Tokens?
    decreases |s| - i
  {
    hide CharStep, ScanName, IndexOf;
    var name := ScanName(s, i + 1, uri);
    if name.NoName? {
      c := NameBreaks(s, i + 1, uri);
      assert ScanTokens(s[..c], c, uri).Tokens?;
    } else {
      c := TokensBreak(s, name.end, uri);
      NameStays(s, i + 1, uri, c);
    }
  }

  /**
    Every refused text is explained: it does not begin with a solidus where it must, or it is a pointer up to some
    character, which is not a pointer's next one for the reason the error gives.
   */
  lemma FaultsExplained(s: Text) returns (c: nat)
    requires Parse(s).Failed?
    ensures var r := Parse(s); var uri := Peek(s, 0) as char == '#';
            && c < |s|
            && if r.fault.TokenMustBeginWithSolidus? then
                 r.offset == c == (if uri then 1 else 0) && s[c] as char != '/'
               else Parse(s[..c]).Tokens? && Wrong(s, c, uri, r.fault, r.offset)
  {
    hide CharStep, ScanTokens, Wrong;
    var uri := Peek(s, 0) == SHARP;
    var i := if uri then 1 else 0;
    c := i;
    if i == |s| || s[i] == SLASH {
      c := TokensBreak(s, i, uri);
      WrongCharacter(s, c, uri);
      assert Peek(s[..c], 0) == Peek(s, 0);
    }
  }
}
