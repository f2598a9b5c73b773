/**
  Concrete syntax trees for JSON texts (sections 2 to 7 of RFC 8259, plus the optional comma before a
  closing bracket), the text each tree stands for, and the events it denotes. This is the reference the
  two parsers and the two writers are compared with.
 */
module Grammar {
  import opened Bytes
  import opened Strings
  import opened Events
  import opened Numbers

  datatype Tree =
    | NullLit
    | TrueLit
    | FalseLit
    | Number(n: Numeral)
    | Str(pieces: seq<Piece>)
    | EmptyArray(gap: Text)
    | Array(gap: Text, elements: Elements)
    | EmptyObject(gap: Text)
    | Object(gap: Text, members: Members)

  datatype Elements =
    | Last(value: Tree, after: Text)
    | Trailing(value: Tree, after: Text, gap: Text)
    | More(value: Tree, after: Text, gap: Text, rest: Elements)

  datatype Name = Name(pieces: seq<Piece>, before: Text, behind: Text)

  datatype Members =
    | LastMember(name: Name, value: Tree, after: Text)
    | TrailingMember(name: Name, value: Tree, after: Text, gap: Text)
    | MoreMembers(name: Name, value: Tree, after: Text, gap: Text, rest: Members)

  // ---------------------------------------------------------------- characters

  /** The bytes as ASCII characters. */
  function Ascii(t: Text): string {
    seq(|t|, i requires 0 <= i < |t| => t[i] as char)
  }

  /** The characters of sections 2, 3, 6 and 7 of RFC 8259. */
  lemma Characters(b: byte)
    ensures IsSpace(b) <==> b as char in " \t\n\r"
    ensures IsDigit(b) <==> b as char in "0123456789"
    ensures IsE(b) <==> b as char in "eE"
    ensures Ascii(NULL_TEXT) == "null" && Ascii(TRUE_TEXT) == "true" && Ascii(FALSE_TEXT) == "false"
    ensures Ascii([LBRACKET, RBRACKET, LBRACE, RBRACE, COLON, COMMA]) == "[]{}:,"
    ensures Ascii([QUOTE, BACKSLASH, LOWER_U, MINUS, PLUS, DOT, ZERO]) == "\"\\u-+.0" && NUL == 0
  {
  }

  // ---------------------------------------------------------------- legality

  predicate Legal(env: Env, c: Tree) {
    match c
    case NullLit => true
    case TrueLit => true
    case FalseLit => true
    case Number(n) => LegalNumeral(n) && !Refused(env, n)
    case Str(pieces) => LegalPieces(pieces)
    case EmptyArray(gap) => AllSpace(gap)
    case Array(gap, es) => AllSpace(gap) && LegalElements(env, es)
    case EmptyObject(gap) => AllSpace(gap)
    case Object(gap, ms) => AllSpace(gap) && LegalMembers(env, ms)
  }

  predicate LegalElements(env: Env, es: Elements) {
    Legal(env, es.value) && AllSpace(es.after) &&
    match es
    case Last(_, _) => true
    case Trailing(_, _, gap) => env.trailingCommas && AllSpace(gap)
    case More(_, _, gap, rest) => AllSpace(gap) && LegalElements(env, rest)
  }

  predicate LegalName(n: Name) {
    LegalPieces(n.pieces) && AllSpace(n.before) && AllSpace(n.behind)
  }

  predicate LegalMembers(env: Env, ms: Members) {
    LegalName(ms.name) && Legal(env, ms.value) && AllSpace(ms.after) &&
    match ms
    case LastMember(_, _, _) => true
    case TrailingMember(_, _, _, gap) => env.trailingCommas && AllSpace(gap)
    case MoreMembers(_, _, _, gap, rest) => AllSpace(gap) && LegalMembers(env, rest)
  }

  // ---------------------------------------------------------------- texts

  function StringText(pieces: seq<Piece>): Text {
    [QUOTE] + (PiecesText(pieces) + [QUOTE])
  }

  function TreeText(c: Tree): Text
    decreases c, 0
  {
    match c
    case NullLit => NULL_TEXT
    case TrueLit => TRUE_TEXT
    case FalseLit => FALSE_TEXT
    case Number(n) => NumeralText(n)
    case Str(pieces) => StringText(pieces)
    case EmptyArray(gap) => [LBRACKET] + (gap + [RBRACKET])
    case Array(gap, es) => [LBRACKET] + (gap + ElementsText(es))
    case EmptyObject(gap) => [LBRACE] + (gap + [RBRACE])
    case Object(gap, ms) => [LBRACE] + (gap + MembersText(ms))
  }

  /** Up to and including the closing bracket. */
  function ElementsText(es: Elements): Text
    decreases es, 1
  {
    TreeText(es.value) + (es.after + ElementsTail(es))
  }

  /** From the comma or bracket behind the first element on. */
  function ElementsTail(es: Elements): (s: Text)
    ensures s != [] && s[0] in {COMMA, RBRACKET}
    decreases es, 0
  {
    match es
    case Last(_, _) => [RBRACKET]
    case Trailing(_, _, gap) => [COMMA] + (gap + [RBRACKET])
    case More(_, _, gap, rest) => [COMMA] + (gap + ElementsText(rest))
  }

  function NameText(n: Name): Text {
    StringText(n.pieces) + (n.before + ([COLON] + n.behind))
  }

  function MembersText(ms: Members): Text
    decreases ms, 1
  {
    NameText(ms.name) + (TreeText(ms.value) + (ms.after + MembersTail(ms)))
  }

  function MembersTail(ms: Members): (s: Text)
    ensures s != [] && s[0] in {COMMA, RBRACE}
    decreases ms, 0
  {
    match ms
    case LastMember(_, _, _) => [RBRACE]
    case TrailingMember(_, _, _, gap) => [COMMA] + (gap + [RBRACE])
    case MoreMembers(_, _, _, gap, rest) => [COMMA] + (gap + MembersText(rest))
  }

  // ---------------------------------------------------------------- events

  function CountElements(es: Elements): nat {
    if es.More? then 1 + CountElements(es.rest) else 1
  }

  function CountMembers(ms: Members): nat {
    if ms.MoreMembers? then 1 + CountMembers(ms.rest) else 1
  }

  /** Counts are reported as 32-bit sizes. */
  function TreeEvents(env: Env, c: Tree): seq<Event>
    requires Legal(env, c)
    decreases c, 0
  {
    match c
    case NullLit => [Event.Null]
    case TrueLit => [Bool(true)]
    case FalseLit => [Bool(false)]
    case Number(n) => [NumeralEvent(n)]
    case Str(pieces) => [String(PiecesValue(pieces))]
    case EmptyArray(_) => [StartArray, EndArray(0)]
    case Array(_, es) => [StartArray] + ElementsEvents(env, es) + [EndArray(CountElements(es) % U32)]
    case EmptyObject(_) => [StartObject, EndObject(0)]
    case Object(_, ms) => [StartObject] + MembersEvents(env, ms) + [EndObject(CountMembers(ms) % U32)]
  }

  function ElementsEvents(env: Env, es: Elements): seq<Event>
    requires LegalElements(env, es)
    decreases es, 1
  {
    TreeEvents(env, es.value) + LaterElements(env, es)
  }

  function LaterElements(env: Env, es: Elements): seq<Event>
    requires LegalElements(env, es)
    decreases es, 0
  {
    if es.More? then ElementsEvents(env, es.rest) else []
  }

  function NameEvents(n: Name): seq<Event>
    requires LegalName(n)
  {
    [Key(PiecesValue(n.pieces))]
  }

  function MembersEvents(env: Env, ms: Members): seq<Event>
    requires LegalMembers(env, ms)
    decreases ms, 1
  {
    NameEvents(ms.name) + TreeEvents(env, ms.value) + LaterMembers(env, ms)
  }

  function LaterMembers(env: Env, ms: Members): seq<Event>
    requires LegalMembers(env, ms)
    decreases ms, 0
  {
    if ms.MoreMembers? then MembersEvents(env, ms.rest) else []
  }

  /** A whole JSON text: one value with white space around it. */
  ghost predicate IsJsonText(env: Env, t: Text, c: Tree) {
    Legal(env, c) && exists before, after ::
      AllSpace(before) && AllSpace(after) && t == before + TreeText(c) + after
  }
}
