/**
  The writers: the level stack, the guards, and what every call appends. Output is described as tokens and gaps, so
  that the compact and the indenting writer can be compared; on the stream both are plain bytes.
 */
module Writers {
  import opened Bytes
  import opened Encodings
  import opened Strings
  import opened Events
  import opened Values

  datatype Style = Compact | Pretty(indentChar: byte, indentCount: nat, singleLineArray: bool)

  const SPACE: byte := 0x20
  const NEWLINE: byte := 0x0A

  /** `SetIndent` asserts that the indentation is white space. */
  predicate LegalStyle(style: Style) {
    style.Pretty? ==> IsSpace(style.indentChar)
  }

  datatype Level = Level(valueCount: nat, inArray: bool)

  datatype Sheet = Sheet(out: Text, levels: seq<Level>, hasRoot: bool)

  const BLANK: Sheet := Sheet([], [], false)

  datatype Scrap = Mark(t: Text) | Gap(t: Text)

  function Flatten(tape: seq<Scrap>): Text {
    if tape == [] then [] else Flatten(tape[..|tape| - 1]) + tape[|tape| - 1].t
  }

  /** The tokens on a tape. */
  function Marks(tape: seq<Scrap>): seq<Text> {
    if tape == [] then []
    else Marks(tape[..|tape| - 1]) + if tape[|tape| - 1].Mark? then [tape[|tape| - 1].t] else []
  }

  // ---------------------------------------------------------------- tokens

  /** What `i32toa` and its siblings print. */
  function Decimal(n: nat): (ds: Text)
    ensures ds != []
  {
    if n < 10 then [0x30 + n] else Decimal(n / 10) + [0x30 + n % 10]
  }

  function SignedDecimal(i: int): Text {
    if i < 0 then [MINUS] + Decimal(-i) else Decimal(i)
  }

  function TokenOf(e: Event): Text
    requires !e.Double?
  {
    if e.Null? then NULL_TEXT
    else if e.Bool? then if e.b then TRUE_TEXT else FALSE_TEXT
    else if e.String? || e.Key? then Literal(e.s)
    else if e.StartObject? then [LBRACE]
    else if e.StartArray? then [LBRACKET]
    else if e.EndObject? then [RBRACE]
    else if e.EndArray? then [RBRACKET]
    else SignedDecimal(EventInteger(e))
  }

  // ---------------------------------------------------------------- guards and separators

  predicate IsEnd(e: Event) {
    e.EndObject? || e.EndArray?
  }

  function Top(levels: seq<Level>): Level
    requires levels != []
  {
    levels[|levels| - 1]
  }

  predicate AtName(level: Level) {
    !level.inArray && level.valueCount % 2 == 0
  }

  /** The assertions of `Prefix`, `EndObject` and `EndArray`. */
  predicate Guarded(w: Sheet, e: Event) {
    match e
    case EndObject(_) => w.levels != [] && AtName(Top(w.levels))
    case EndArray(_) => w.levels != [] && Top(w.levels).inArray
    case Double(_) => false
    case _ =>
      if w.levels == [] then !w.hasRoot
      else AtName(Top(w.levels)) ==> e.String? || e.Key?
  }

  function Repeat(b: byte, n: nat): (s: Text)
    ensures |s| == n && forall k | 0 <= k < n :: s[k] == b
  {
    seq(n, k => b)
  }

  function Indent(style: Style, depth: nat): Text
    requires style.Pretty?
  {
    Repeat(style.indentChar, depth * style.indentCount)
  }

  function Break(style: Style, depth: nat): Text
    requires style.Pretty?
  {
    [NEWLINE] + Indent(style, depth)
  }

  /** White space before the item at position k of a container at this depth. */
  function Spacing(style: Style, level: Level, depth: nat): Text {
    if style.Compact? then []
    else if level.inArray then
      if !style.singleLineArray then Break(style, depth) else if level.valueCount > 0 then [SPACE] else []
    else if level.valueCount % 2 == 0 then Break(style, depth) else [SPACE]
  }

  /** The comma or colon before an item that is not the first. */
  function Delimiter(level: Level): seq<Scrap> {
    if level.valueCount == 0 then [] else [Mark([if level.inArray || level.valueCount % 2 == 0 then COMMA else COLON])]
  }

  function Spaced(t: Text): seq<Scrap> {
    if t == [] then [] else [Gap(t)]
  }

  /** White space before the closing bracket, with `depth` levels left open. */
  function ClosingGap(style: Style, level: Level, depth: nat): Text {
    if style.Compact? || level.valueCount == 0 || (level.inArray && style.singleLineArray) then []
    else Break(style, depth)
  }

  /** Everything one call writes. */
  function Chunk(style: Style, levels: seq<Level>, e: Event): seq<Scrap>
    requires !e.Double? && (IsEnd(e) ==> levels != [])
  {
    if levels == [] then [Mark(TokenOf(e))]
    else if IsEnd(e) then Spaced(ClosingGap(style, Top(levels), |levels| - 1)) + [Mark(TokenOf(e))]
    else Delimiter(Top(levels)) + Spaced(Spacing(style, Top(levels), |levels|)) + [Mark(TokenOf(e))]
  }

  /** `valueCount++` on the innermost level. */
  function Counted(levels: seq<Level>): seq<Level> {
    if levels == [] then []
    else levels[|levels| - 1 := Level(Top(levels).valueCount + 1, Top(levels).inArray)]
  }

  function LevelsAfter(levels: seq<Level>, e: Event): seq<Level>
    requires IsEnd(e) ==> levels != []
  {
    match e
    case EndObject(_) => levels[..|levels| - 1]
    case EndArray(_) => levels[..|levels| - 1]
    case StartObject => Counted(levels) + [Level(0, false)]
    case StartArray => Counted(levels) + [Level(0, true)]
    case _ => Counted(levels)
  }

  function Write(style: Style, w: Sheet, e: Event): Sheet
    requires Guarded(w, e)
  {
    Sheet(w.out + Flatten(Chunk(style, w.levels, e)), LevelsAfter(w.levels, e), w.hasRoot || w.levels == [])
  }

  /** A run of calls; None when some assertion fails. */
  function Session(style: Style, w: Sheet, es: seq<Event>): Option<Sheet> {
    if es == [] then Some(w)
    else
      match Session(style, w, es[..|es| - 1])
      case None => None
      case Some(w') => if Guarded(w', es[|es| - 1]) then Some(Write(style, w', es[|es| - 1])) else None
  }

  predicate Complete(w: Sheet) {
    w.hasRoot && w.levels == []
  }

  // ---------------------------------------------------------------- tapes

  lemma {:induction false} FlattenAppend(a: seq<Scrap>, b: seq<Scrap>)
    ensures Flatten(a + b) == Flatten(a) + Flatten(b)
  {
    if b == [] {
      assert a + b == a;
    } else {
      assert (a + b)[..|a + b| - 1] == a + b[..|b| - 1];
      FlattenAppend(a, b[..|b| - 1]);
    }
  }

  lemma {:induction false} MarksAppend(a: seq<Scrap>, b: seq<Scrap>)
    ensures Marks(a + b) == Marks(a) + Marks(b)
  {
    if b == [] {
      assert a + b == a;
    } else {
      assert (a + b)[..|a + b| - 1] == a + b[..|b| - 1];
      MarksAppend(a, b[..|b| - 1]);
    }
  }

  lemma OneScrap(x: Scrap)
    ensures Flatten([x]) == x.t && Marks([x]) == if x.Mark? then [x.t] else []
  {
    assert [x][..0] == [];
  }

  function DelimiterText(level: Level): Text {
    if level.valueCount == 0 then [] else [if level.inArray || level.valueCount % 2 == 0 then COMMA else COLON]
  }

  /** The bytes before the token of a call. */
  function Before(style: Style, levels: seq<Level>, e: Event): Text
    requires IsEnd(e) ==> levels != []
  {
    if levels == [] then []
    else if IsEnd(e) then ClosingGap(style, Top(levels), |levels| - 1)
    else DelimiterText(Top(levels)) + Spacing(style, Top(levels), |levels|)
  }

  /** The bytes of a chunk. */
  lemma ChunkText(style: Style, levels: seq<Level>, e: Event)
    requires !e.Double? && (IsEnd(e) ==> levels != [])
    ensures Flatten(Chunk(style, levels, e)) == Before(style, levels, e) + TokenOf(e)
  {
    hide Flatten, TokenOf, Spacing, ClosingGap;
    var token := Mark(TokenOf(e));
    OneScrap(token);
    if levels != [] {
      var gap := if IsEnd(e) then ClosingGap(style, Top(levels), |levels| - 1) else Spacing(style, Top(levels), |levels|);
      SpacedText(gap);
      DelimiterFlat(Top(levels));
      FlattenAppend(Delimiter(Top(levels)), Spaced(gap));
      FlattenAppend(if IsEnd(e) then Spaced(gap) else Delimiter(Top(levels)) + Spaced(gap), [token]);
    } else {
      assert [] + TokenOf(e) == TokenOf(e);
    }
  }

  lemma ThreeParts(a: Text, b: Text, c: Text)
    ensures a + (b + c) == (a + b) + c
  {
  }

  lemma SpacedText(t: Text)
    ensures Flatten(Spaced(t)) == t && Marks(Spaced(t)) == []
  {
    if t != [] {
      OneScrap(Gap(t));
    }
  }

  lemma DelimiterFlat(level: Level)
    ensures Flatten(Delimiter(level)) == DelimiterText(level)
  {
    if level.valueCount != 0 {
      OneScrap(Delimiter(level)[0]);
    }
  }

  // ---------------------------------------------------------------- the writer objects

  /** `WriteString` for a target encoding that supports Unicode; it stays in the room reserved for it. */
  method WriteString(os: Text, s: Text) returns (out: Text)
    ensures out == os + Literal(s)
    ensures |out| <= |os| + 2 + 6 * |s|
  {
    out := os + [QUOTE];
    for i := 0 to |s|
      invariant out == os + ([QUOTE] + Escaped(s[..i]))
      invariant |out| <= |os| + 1 + 6 * i
    {
      var c := s[i];
      ghost var soFar := out;
      assert s[..i + 1][..i] == s[..i];
      if EscapeOf(c) != 0 {
        out := out + [BACKSLASH];
        out := out + [EscapeOf(c)];
        if EscapeOf(c) == LOWER_U {
          out := out + [ZERO, ZERO, HexDigit(c / 16), HexDigit(c % 16)];
        }
      } else {
        out := out + [c];
      }
      assert out == soFar + EscapedByte(c);
      Extended(os, [QUOTE], Escaped(s[..i]), EscapedByte(c));
    }
    assert s[..|s|] == s;
    out := out + [QUOTE];
    ThreeParts(os, [QUOTE] + Escaped(s), [QUOTE]);
  }

  method WriteNumericEscape(os: Text, codepoint: nat) returns (out: Text)
    requires IsScalar(codepoint)
    ensures out == os + PieceText(AsciiPiece(codepoint))
  {
    hide Quad;
    out := os + [BACKSLASH, LOWER_U];
    if codepoint <= 0xFFFF {
      out := out + Quad(codepoint);
    } else {
      var v := codepoint - 0x1_0000;
      out := out + Quad(v / 0x400 + 0xD800);
      out := out + [BACKSLASH, LOWER_U];
      out := out + Quad(v % 0x400 + 0xDC00);
    }
  }

  /**
    `WriteString` for a target encoding without Unicode: numeric escapes from 0x80 on, false on malformed UTF-8.
    `read` is where the source stream stands in the end.
   */
  method WriteAsciiString(os: Text, s: Text) returns (ok: bool, out: Text, ghost read: nat)
    ensures ok == AsciiEscaped(s, 0).Some?
    ensures read == Reach(s, 0)
    ensures ok ==> out == os + [QUOTE] + AsciiEscaped(s, 0).value + [QUOTE]
    ensures |out| <= |os| + 2 + 12 * |s|
  {
    hide *;
    out := os + [QUOTE];
    ghost var whole := Continued(out, AsciiEscaped(s, 0));
    WholeEscaped(out, AsciiEscaped(s, 0));
    var i := 0;
    while i < |s|
      invariant i <= |s| && Continued(out, AsciiEscaped(s, i)) == whole && Reach(s, i) == Reach(s, 0)
      invariant |out| <= |os| + 1 + 12 * i
    {
      AsciiStep(out, s, i);
      ReachStep(s, i);
      if s[i] >= 0x80 {
        var d := Decode(s, i);
        if !d.ok {
          return false, out, d.next;
        }
        i := d.next;
        out := WriteNumericEscape(out, d.codepoint);
      } else {
        out := out + EscapedByte(s[i]);
        i := i + 1;
      }
    }
    AsciiEnd(out, s);
    ReachEnd(s);
    out := out + [QUOTE];
    ok, read := true, i;
  }

  lemma AsciiStep(out: Text, s: Text, i: nat)
    requires i < |s|
    ensures s[i] >= 0x80 && !Decode(s, i).ok ==> Continued(out, AsciiEscaped(s, i)).None?
    ensures s[i] >= 0x80 && Decode(s, i).ok ==>
              var d := Decode(s, i); var c := d.codepoint;
              && i < d.next <= |s| && IsScalar(c)
              && var text := PieceText(AsciiPiece(c));
                 |text| <= 12 && Continued(out, AsciiEscaped(s, i)) == Continued(out + text, AsciiEscaped(s, d.next))
    ensures s[i] < 0x80 ==>
              |EscapedByte(s[i])| <= 6
              && Continued(out, AsciiEscaped(s, i)) == Continued(out + EscapedByte(s[i]), AsciiEscaped(s, i + 1))
  {
    hide Quad, Decode, IsScalar;
    if s[i] >= 0x80 {
      if Decode(s, i).ok {
        DecodedIsEncoding(s, i);
        var d := Decode(s, i);
        ContinuedStep(out, PieceText(AsciiPiece(d.codepoint)), AsciiEscaped(s, d.next));
      }
    } else {
      ContinuedStep(out, EscapedByte(s[i]), AsciiEscaped(s, i + 1));
    }
  }

  lemma ContinuedStep(out: Text, text: Text, rest: Option<Text>)
    ensures Continued(out + text, rest) == match rest case None => None case Some(s) => Some(out + (text + s))
  {
    if rest.Some? {
      assert out + text + rest.value == out + (text + rest.value);
    }
  }

  lemma WholeEscaped(out: Text, rest: Option<Text>)
    ensures Continued(out, rest).Some? <==> rest.Some?
    ensures rest.Some? ==> Continued(out, rest) == Some(out + rest.value)
  {
  }

  lemma AsciiEnd(out: Text, s: Text)
    ensures Continued(out, AsciiEscaped(s, |s|)) == Some(out)
  {
    assert out + [] == out;
  }

  /** Text already written, before what is still to be written. */
  function Continued(out: Text, rest: Option<Text>): Option<Text> {
    match rest case None => None case Some(s) => Some(out + s)
  }

  lemma Extended(os: Text, a: Text, b: Text, c: Text)
    ensures (os + (a + b)) + c == os + (a + (b + c))
  {
  }

  /** The scalar tokens. */
  method WriteLeaf(os: Text, e: Event) returns (out: Text)
    requires IsLeaf(e) && !e.Double?
    ensures out == os + TokenOf(e)
  {
    if e.String? || e.Key? {
      out := WriteString(os, e.s);
    } else {
      out := os + TokenOf(e);
    }
  }

  class Writer {
    var os: Text
    var levels: seq<Level>
    var hasRoot: bool

    constructor ()
      ensures Now() == BLANK
    {
      os, levels, hasRoot := [], [], false;
    }

    function Now(): Sheet
      reads this
    {
      Sheet(os, levels, hasRoot)
    }

    predicate IsComplete(): (complete: bool)
      reads this
      ensures complete == Complete(Now())
    {
      hasRoot && levels == []
    }

    method Prefix(e: Event)
      requires Guarded(Now(), e) && !IsEnd(e)
      modifies this
      ensures os == old(os) + Before(Compact, old(levels), e)
      ensures levels == Counted(old(levels)) && hasRoot == (old(hasRoot) || old(levels) == [])
    {
      if levels != [] {
        var level := Top(levels);
        if level.valueCount > 0 {
          if level.inArray {
            os := os + [COMMA];
          } else {
            os := os + [if level.valueCount % 2 == 0 then COMMA else COLON];
          }
        }
        levels := levels[|levels| - 1 := level.(valueCount := level.valueCount + 1)];
      } else {
        hasRoot := true;
      }
    }

    method Leaf(e: Event)
      requires IsLeaf(e) && Guarded(Now(), e)
      modifies this
      ensures Now() == Write(Compact, old(Now()), e)
    {
      hide Flatten, Chunk, TokenOf, Before;
      ChunkText(Compact, levels, e);
      ThreeParts(os, Before(Compact, levels, e), TokenOf(e));
      Prefix(e);
      os := WriteLeaf(os, e);
    }

    method StartObject()
      requires Guarded(Now(), Event.StartObject)
      modifies this
      ensures Now() == Write(Compact, old(Now()), Event.StartObject)
    {
      hide Flatten, Chunk, Before;
      ChunkText(Compact, levels, Event.StartObject);
      ThreeParts(os, Before(Compact, levels, Event.StartObject), [LBRACE]);
      Prefix(Event.StartObject);
      levels := levels + [Level(0, false)];
      os := os + [LBRACE];
    }

    method EndObject(memberCount: nat)
      requires Guarded(Now(), Event.EndObject(memberCount))
      modifies this
      ensures Now() == Write(Compact, old(Now()), Event.EndObject(memberCount))
    {
      hide Flatten, Chunk;
      ChunkText(Compact, levels, Event.EndObject(memberCount));
      ThreeParts(os, Before(Compact, levels, Event.EndObject(memberCount)), [RBRACE]);
      levels := levels[..|levels| - 1];
      os := os + [RBRACE];
    }

    method StartArray()
      requires Guarded(Now(), Event.StartArray)
      modifies this
      ensures Now() == Write(Compact, old(Now()), Event.StartArray)
    {
      hide Flatten, Chunk, Before;
      ChunkText(Compact, levels, Event.StartArray);
      ThreeParts(os, Before(Compact, levels, Event.StartArray), [LBRACKET]);
      Prefix(Event.StartArray);
      levels := levels + [Level(0, true)];
      os := os + [LBRACKET];
    }

    method EndArray(elementCount: nat)
      requires Guarded(Now(), Event.EndArray(elementCount))
      modifies this
      ensures Now() == Write(Compact, old(Now()), Event.EndArray(elementCount))
    {
      hide Flatten, Chunk;
      ChunkText(Compact, levels, Event.EndArray(elementCount));
      ThreeParts(os, Before(Compact, levels, Event.EndArray(elementCount)), [RBRACKET]);
      levels := levels[..|levels| - 1];
      os := os + [RBRACKET];
    }
  }

  class PrettyWriter {
    const style: Style
    var os: Text
    var levels: seq<Level>
    var hasRoot: bool

    constructor (indentChar: byte, indentCount: nat, singleLineArray: bool)
      requires IsSpace(indentChar)
      ensures Now() == BLANK && style == Pretty(indentChar, indentCount, singleLineArray)
    {
      style := Pretty(indentChar, indentCount, singleLineArray);
      os, levels, hasRoot := [], [], false;
    }

    function Now(): Sheet
      reads this
    {
      Sheet(os, levels, hasRoot)
    }

    method WriteIndent()
      requires style.Pretty?
      modifies this`os
      ensures os == old(os) + Indent(style, |levels|)
    {
      var count := |levels| * style.indentCount;
      for i := 0 to count
        invariant os == old(os) + Repeat(style.indentChar, i)
      {
        assert Repeat(style.indentChar, i) + [style.indentChar] == Repeat(style.indentChar, i + 1);
        os := os + [style.indentChar];
      }
    }

    method ArrayPrefix(level: Level)
      requires style.Pretty? && level.inArray
      modifies this`os
      ensures os == old(os) + (DelimiterText(level) + Spacing(style, level, |levels|))
    {
      hide Indent;
      if level.valueCount > 0 {
        os := os + [COMMA];
        if style.singleLineArray {
          os := os + [SPACE];
        }
      }
      if !style.singleLineArray {
        os := os + [NEWLINE];
        WriteIndent();
      }
    }

    method ObjectPrefix(level: Level)
      requires style.Pretty? && !level.inArray
      modifies this`os
      ensures os == old(os) + (DelimiterText(level) + Spacing(style, level, |levels|))
    {
      hide Indent;
      if level.valueCount > 0 {
        if level.valueCount % 2 == 0 {
          os := os + [COMMA];
          os := os + [NEWLINE];
        } else {
          os := os + [COLON];
          os := os + [SPACE];
        }
      } else {
        os := os + [NEWLINE];
      }
      if level.valueCount % 2 == 0 {
        WriteIndent();
      }
    }

    method PrettyPrefix(e: Event)
      requires style.Pretty? && Guarded(Now(), e) && !IsEnd(e)
      modifies this
      ensures os == old(os) + Before(style, old(levels), e)
      ensures levels == Counted(old(levels)) && hasRoot == (old(hasRoot) || old(levels) == [])
    {
      hide Spacing, DelimiterText;
      if levels != [] {
        var level := Top(levels);
        if level.inArray {
          ArrayPrefix(level);
        } else {
          ObjectPrefix(level);
        }
        levels := levels[|levels| - 1 := level.(valueCount := level.valueCount + 1)];
      } else {
        hasRoot := true;
      }
    }

    method Leaf(e: Event)
      requires style.Pretty? && IsLeaf(e) && Guarded(Now(), e)
      modifies this
      ensures Now() == Write(style, old(Now()), e)
    {
      hide Flatten, Chunk, TokenOf, Before;
      ChunkText(style, levels, e);
      ThreeParts(os, Before(style, levels, e), TokenOf(e));
      PrettyPrefix(e);
      os := WriteLeaf(os, e);
    }

    method StartObject()
      requires style.Pretty? && Guarded(Now(), Event.StartObject)
      modifies this
      ensures Now() == Write(style, old(Now()), Event.StartObject)
    {
      hide Flatten, Chunk, Before;
      ChunkText(style, levels, Event.StartObject);
      ThreeParts(os, Before(style, levels, Event.StartObject), [LBRACE]);
      PrettyPrefix(Event.StartObject);
      levels := levels + [Level(0, false)];
      os := os + [LBRACE];
    }

    method EndObject(memberCount: nat)
      requires style.Pretty? && Guarded(Now(), Event.EndObject(memberCount))
      modifies this
      ensures Now() == Write(style, old(Now()), Event.EndObject(memberCount))
    {
      hide Flatten, Chunk;
      ChunkText(style, levels, Event.EndObject(memberCount));
      ThreeParts(os, Before(style, levels, Event.EndObject(memberCount)), [RBRACE]);
      var empty := Top(levels).valueCount == 0;
      levels := levels[..|levels| - 1];
      if !empty {
        os := os + [NEWLINE];
        WriteIndent();
      }
      assert os == old(os) + Before(style, old(levels), Event.EndObject(memberCount));
      os := os + [RBRACE];
    }

    method StartArray()
      requires style.Pretty? && Guarded(Now(), Event.StartArray)
      modifies this
      ensures Now() == Write(style, old(Now()), Event.StartArray)
    {
      hide Flatten, Chunk, Before;
      ChunkText(style, levels, Event.StartArray);
      ThreeParts(os, Before(style, levels, Event.StartArray), [LBRACKET]);
      PrettyPrefix(Event.StartArray);
      levels := levels + [Level(0, true)];
      os := os + [LBRACKET];
    }

    method EndArray(elementCount: nat)
      requires style.Pretty? && Guarded(Now(), Event.EndArray(elementCount))
      modifies this
      ensures Now() == Write(style, old(Now()), Event.EndArray(elementCount))
    {
      hide Flatten, Chunk;
      ChunkText(style, levels, Event.EndArray(elementCount));
      ThreeParts(os, Before(style, levels, Event.EndArray(elementCount)), [RBRACKET]);
      var empty := Top(levels).valueCount == 0;
      levels := levels[..|levels| - 1];
      if !empty && !style.singleLineArray {
        os := os + [NEWLINE];
        WriteIndent();
      }
      assert os == old(os) + Before(style, old(levels), Event.EndArray(elementCount));
      os := os + [RBRACKET];
    }
  }
}
