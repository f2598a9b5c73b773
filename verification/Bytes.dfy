/** Code units, the NUL-terminated input stream, and the small sequence facts every module uses. */
module Bytes {
  type byte = b: int | 0 <= b < 256
  type Text = seq<byte>

  datatype Option<T> = None | Some(value: T)

  const NUL: byte := 0x00
  const QUOTE: byte := 0x22       // "
  const PLUS: byte := 0x2B        // +
  const COMMA: byte := 0x2C       // ,
  const MINUS: byte := 0x2D       // -
  const DOT: byte := 0x2E         // .
  const SLASH: byte := 0x2F       // /
  const ZERO: byte := 0x30        // 0
  const COLON: byte := 0x3A       // :
  const LBRACKET: byte := 0x5B    // [
  const BACKSLASH: byte := 0x5C   // \
  const RBRACKET: byte := 0x5D    // ]
  const LOWER_U: byte := 0x75     // u
  const LBRACE: byte := 0x7B      // {
  const RBRACE: byte := 0x7D      // }

  const NULL_TEXT: Text := [0x6E, 0x75, 0x6C, 0x6C]
  const TRUE_TEXT: Text := [0x74, 0x72, 0x75, 0x65]
  const FALSE_TEXT: Text := [0x66, 0x61, 0x6C, 0x73, 0x65]

  /** What `is.Peek()` sees: the terminator from the end of the text on. */
  function Peek(t: Text, p: nat): byte {
    if p < |t| then t[p] else NUL
  }

  predicate IsSpace(b: byte) {
    b == 0x20 || b == 0x0A || b == 0x0D || b == 0x09
  }

  predicate AllSpace(t: Text) {
    forall k | 0 <= k < |t| :: IsSpace(t[k])
  }

  predicate IsDigit(b: byte) {
    0x30 <= b <= 0x39
  }

  /** The first position at or after p that is not white space. */
  function SkipSpace(t: Text, p: nat): (q: nat)
    requires p <= |t|
    ensures p <= q <= |t| && !IsSpace(Peek(t, q))
    ensures AllSpace(t[p..q])
    decreases |t| - p
  {
    if p < |t| && IsSpace(t[p]) then
      var q := SkipSpace(t, p + 1);
      assert t[p..q] == [t[p]] + t[p + 1..q];
      q
    else p
  }

  /** `s` stands in `t` at position `p`. */
  predicate At(t: Text, p: nat, s: Text) {
    p + |s| <= |t| && t[p..p + |s|] == s
  }

  lemma AtSplit(t: Text, p: nat, a: Text, b: Text)
    ensures At(t, p, a + b) <==> At(t, p, a) && At(t, p + |a|, b)
  {
    if At(t, p, a + b) {
      assert t[p..p + |a|] == (a + b)[..|a|];
      assert t[p + |a|..p + |a| + |b|] == (a + b)[|a|..];
    }
    if At(t, p, a) && At(t, p + |a|, b) {
      assert t[p..p + |a + b|] == t[p..p + |a|] + t[p + |a|..p + |a| + |b|];
    }
  }

  lemma AtPeek(t: Text, p: nat, s: Text, k: nat)
    requires At(t, p, s) && k < |s|
    ensures Peek(t, p + k) == s[k]
  {
    assert t[p..p + |s|][k] == s[k];
  }

  lemma SliceOfSlice(a: Text, i: nat, n: nat, l: nat)
    requires i + l <= n <= |a|
    ensures a[i..n][..l] == a[i..i + l] && a[i..n][l..] == a[i + l..n]
  {
  }

  /** White space that stands at p and is followed by something else is exactly what is skipped. */
  lemma SkipSpaceOver(t: Text, p: nat, s: Text)
    requires At(t, p, s) && AllSpace(s) && !IsSpace(Peek(t, p + |s|))
    ensures SkipSpace(t, p) == p + |s|
    decreases |s|
  {
    if s != [] {
      AtPeek(t, p, s, 0);
      assert s == s[..1] + s[1..];
      AtSplit(t, p, s[..1], s[1..]);
      SkipSpaceOver(t, p + 1, s[1..]);
    }
  }

  /** A sequence without its k-th element. */
  function Without<T>(s: seq<T>, k: nat): seq<T>
    requires k < |s|
  {
    s[..k] + s[k + 1..]
  }
}
