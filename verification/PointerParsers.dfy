/** `GenericPointer` with its token array and name buffer: parsing into them, printing from them, appending. */
module PointerParsers {
  import opened Bytes
  import opened Encodings
  import opened Events
  import opened PointerTrees
  import opened Pointers
  import Numbers
  import Writers

  /** A token: where its name starts in the name buffer, the length, and the index. */
  datatype Slot = Slot(name: nat, length: nat, index: uint32)

  function Solidi(s: Text): nat {
    if s == [] then 0 else Solidi(s[..|s| - 1]) + if s[|s| - 1] == SLASH then 1 else 0
  }

  /** Bytes already read, before what is still to be read. */
  function Prefixed(bytes: Text, r: Scanned): Scanned {
    match r case Name(name, end) => Name(bytes + name, end) case NoName(_, _) => r
  }

  function Before(done: seq<Token>, r: Parsed): Parsed {
    match r case Tokens(ts) => Tokens(done + ts) case Failed(_, _) => r
  }

  lemma ScanStep(s: Text, i: nat, uri: bool, done: Text)
    requires i < |s| && s[i] != SLASH
    ensures match CharStep(s, i, uri)
            case Bad(fault, offset) => Prefixed(done, ScanName(s, i, uri)) == NoName(fault, offset)
            case Put(bytes, next) =>
              Prefixed(done, ScanName(s, i, uri)) == Prefixed(done + bytes, ScanName(s, next, uri))
  {
    hide CharStep;
    if CharStep(s, i, uri).Put? {
      var step := CharStep(s, i, uri);
      if ScanName(s, step.next, uri).Name? {
        var rest := ScanName(s, step.next, uri).name;
        assert done + (step.bytes + rest) == done + step.bytes + rest;
      }
    }
  }

  lemma PrefixedNothing(none: Text, r: Scanned)
    requires none == []
    ensures Prefixed(none, r) == r && Numbers.AllDigits(none)
  {
    if r.Name? {
      assert none + r.name == r.name;
    }
  }

  lemma PlainStep(s: Text, i: nat, uri: bool)
    requires i < |s| && s[i] != SLASH
    ensures !(uri && (s[i] == PERCENT || NeedPercentEncode(s[i]))) ==> CharStep(s, i, uri) == Unescape(s, s[i], i + 1)
    ensures uri && s[i] != PERCENT && NeedPercentEncode(s[i]) ==> CharStep(s, i, uri) == Bad(CharacterMustPercentEncode, i)
  {
  }

  lemma NameEnds(s: Text, i: nat, uri: bool, done: Text)
    requires i <= |s| && (i == |s| || s[i] == SLASH)
    ensures Prefixed(done, ScanName(s, i, uri)) == Name(done, i)
  {
    assert done + [] == done;
  }

  /** A decoded character is never longer than its triplets, and only a first unit is ever written from nothing. */
  lemma DecodedFits(s: Text, i: nat)
    requires i < |s|
    ensures var v := Validate(Units(s, i), 0);
            1 <= |v.out| <= 4 && |v.out| == v.next && (|v.out| > 1 ==> i + 3 <= |s|)
            && (v.next <= |Units(s, i)| ==> i + 3 * v.next <= |s|)
            && (v.ok && |v.out| > 1 ==> !Numbers.AllDigits(v.out))
  {
    var u := Units(s, i);
    ValidateByLead(u, 0);
    UnitsLength(s, i);
    var v := Validate(u, 0);
    if v.ok && |v.out| > 1 {
      assert v.out[0] == u[0] && !IsDigit(v.out[0]);
    }
  }

  lemma DigitsAppend(a: Text, b: Text)
    ensures Numbers.AllDigits(a + b) <==> Numbers.AllDigits(a) && Numbers.AllDigits(b)
  {
    assert forall k | 0 <= k < |a| :: (a + b)[k] == a[k];
    assert forall k | 0 <= k < |b| :: (a + b)[|a| + k] == b[k];
  }

  /** The bytes go to the cursor; everything before it stays. */
  method PutAll(buffer: array<byte>, name: nat, bytes: Text)
    requires name + |bytes| <= buffer.Length
    modifies buffer
    ensures buffer[..name] == old(buffer[..name])
    ensures buffer[name..name + |bytes|] == bytes
  {
    for k := 0 to |bytes|
      invariant buffer[..name] == old(buffer[..name])
      invariant buffer[name..name + k] == bytes[..k]
    {
      buffer[name + k] := bytes[k];
    }
  }

  /** A run of percent triplets at i is decoded as one UTF-8 character into the buffer. */
  method DecodePercent(source: Text, i: nat, buffer: array<byte>, name: nat) returns (ok: bool, len: nat)
    requires i < |source| && source[i] == PERCENT && buffer.Length == |source| && name + 2 <= i
    modifies buffer
    ensures buffer[..name] == old(buffer[..name]) && 1 <= len <= 4
    ensures name + len <= buffer.Length
    ensures ok ==> i + 3 * len <= |source| && (len > 1 ==> !Numbers.AllDigits(buffer[name..name + len]))
    ensures var bytes := buffer[name..name + len];
            CharStep(source, i, true) ==
            if !ok then Bad(InvalidPercentEncoding, i)
            else if len == 1 then Unescape(source, bytes[0], i + 3)
            else Put(bytes, i + 3 * len)
  {
    var v := Validate(Units(source, i), 0);
    DecodedFits(source, i);
    PutAll(buffer, name, v.out);
    ok, len := v.ok && v.next <= |Units(source, i)|, |v.out|;
  }

  /** The "~0" and "~1" escapes. */
  method UnescapeAt(source: Text, c: byte, i: nat) returns (d: byte, next: nat, fault: Option<Fault>)
    requires i <= |source|
    ensures i <= next <= |source|
    ensures Unescape(source, c, i) ==
            match fault case Some(f) => Bad(f, next) case None => Put([d], next)
  {
    d, next, fault := c, i, None;
    if c == TILDE {
      if i < |source| && source[i] == ZERO {
        d := TILDE;
      } else if i < |source| && source[i] == ONE {
        d := SLASH;
      } else {
        fault := Some(InvalidEscape);
        return;
      }
      next := i + 1;
    }
  }

  method PutChar(buffer: array<byte>, begin: nat, name: nat, c: byte, isNumber: bool) returns (stillNumber: bool)
    requires begin <= name < buffer.Length && isNumber == Numbers.AllDigits(buffer[begin..name])
    modifies buffer
    ensures buffer[..name] == old(buffer[..name]) && buffer[begin..name + 1] == old(buffer[begin..name]) + [c]
    ensures stillNumber == Numbers.AllDigits(buffer[begin..name + 1])
  {
    DigitsAppend(buffer[begin..name], [c]);
    assert Numbers.AllDigits([c]) <==> IsDigit([c][0]);
    stillNumber := isNumber;
    if c < 0x30 || c > 0x39 {
      stillNumber := false;
    }
    buffer[name] := c;
    assert buffer[begin..name + 1] == old(buffer[begin..name]) + [c];
  }

  lemma Appended(buffer: Text, begin: nat, name: nat, len: nat, done: Text)
    requires begin <= name <= name + len <= |buffer| && buffer[begin..name] == done
    ensures buffer[begin..name + len] == done + buffer[name..name + len]
    ensures Numbers.AllDigits(buffer[begin..name + len]) <==>
              Numbers.AllDigits(done) && Numbers.AllDigits(buffer[name..name + len])
  {
    assert buffer[begin..name + len] == done + buffer[name..name + len];
    DigitsAppend(done, buffer[name..name + len]);
  }

  lemma FromPrefix(a: Text, b: Text, begin: nat, name: nat)
    requires begin <= name <= |a| && name <= |b| && a[..name] == b[..name]
    ensures a[begin..name] == b[begin..name] && a[..begin] == b[..begin]
  {
    assert a[begin..name] == a[..name][begin..] && a[..begin] == a[..name][..begin];
    assert b[begin..name] == b[..name][begin..] && b[..begin] == b[..name][..begin];
  }

  /**
    The characters of one name, decoded and unescaped into the name buffer, whose length is that of the source. The
    cursor `name` stays behind the read position by the solidus and, in a fragment, the "#".
   */
  method ParseName(source: Text, start: nat, uri: bool, buffer: array<byte>, begin: nat)
    returns (i: nat, name: nat, isNumber: bool, fault: Option<Fault>)
    requires buffer.Length == |source| && start <= |source| && begin + (if uri then 2 else 1) <= start
    modifies buffer
    ensures buffer[..begin] == old(buffer[..begin])
    ensures match ScanName(source, start, uri)
            case NoName(f, offset) => fault == Some(f) && i == offset
            case Name(text, end) =>
              && fault.None? && i == end && begin <= name && name + (if uri then 2 else 1) <= i
              && buffer[begin..name] == text && isNumber == Numbers.AllDigits(text)
  {
    hide *;
    i, name, isNumber, fault := start, begin, true, None;
    var lag := if uri then 2 else 1;
    ghost var whole := ScanName(source, start, uri);
    PrefixedNothing(buffer[begin..begin], whole);
    while i < |source| && source[i] != SLASH
      invariant i <= |source| && begin <= name && name + lag <= i && fault.None?
      invariant buffer[..begin] == old(buffer[..begin])
      invariant whole == Prefixed(buffer[begin..name], ScanName(source, i, uri))
      invariant isNumber == Numbers.AllDigits(buffer[begin..name])
    {
      ghost var was, done := buffer[..], buffer[begin..name];
      ScanStep(source, i, uri, done);
      PlainStep(source, i, uri);
      var c := source[i];
      if uri {
        if c == PERCENT {
          var ok, len := DecodePercent(source, i, buffer, name);
          FromPrefix(was, buffer[..], begin, name);
          if !ok {
            fault := Some(InvalidPercentEncoding);
            return;
          }
          if len > 1 {
            Appended(buffer[..], begin, name, len, done);
            name, isNumber, i := name + len, false, i + 3 * len;
            continue;
          }
          c := buffer[name];
          i := i + 2;
        } else if NeedPercentEncode(c) {
          fault := Some(CharacterMustPercentEncode);
          return;
        }
      }
      c, i, fault := UnescapeAt(source, c, i + 1);
      if fault.Some? {
        return;
      }
      was := buffer[..];
      isNumber := PutChar(buffer, begin, name, c, isNumber);
      FromPrefix(was, buffer[..], begin, name);
      name := name + 1;
    }
    NameEnds(source, i, uri, buffer[begin..name]);
  }

  /** The index of a name that stands in the buffer. */
  method Convert(buffer: array<byte>, begin: nat, length: nat, digits: bool) returns (index: uint32)
    requires begin + length <= buffer.Length && digits == Numbers.AllDigits(buffer[begin..begin + length])
    ensures index == IndexOf(buffer[begin..begin + length])
  {
    ghost var name := buffer[begin..begin + length];
    var isNumber := digits;
    if length == 0 { isNumber := false; }
    if isNumber && length > 1 && buffer[begin] == ZERO { isNumber := false; }
    assert isNumber <==> IsNumeral(name);
    var n: uint32 := 0;
    if isNumber {
      for j := 0 to length
        invariant IndexOf(name) == Converted(name, j, n)
      {
        assert name[j] == buffer[begin + j];
        var m := (n * 10 + (buffer[begin + j] - ZERO)) % W32;
        if m < n {
          return INVALID;
        }
        n := m;
      }
    }
    index := if isNumber then n else INVALID;
  }

  // ---------------------------------------------------------------- tokens in the name buffer

  /** The first free place behind packed names. */
  function End(slots: seq<Slot>): nat {
    if slots == [] then 0 else var last := slots[|slots| - 1]; last.name + last.length + 1
  }

  /** The names stand one behind the other from the start of the buffer, each closed by a NUL. */
  predicate Packed(slots: seq<Slot>, buffer: Text) {
    slots == [] ||
    var init, last := slots[..|slots| - 1], slots[|slots| - 1];
    && Packed(init, buffer)
    && last.name == End(init)
    && End(slots) <= |buffer|
    && buffer[End(slots) - 1] == NUL
  }

  function NameOf(slot: Slot, buffer: Text): Text
    requires slot.name + slot.length <= |buffer|
  {
    buffer[slot.name..slot.name + slot.length]
  }

  /** The tokens the slots stand for. */
  function Held(slots: seq<Slot>, buffer: Text): (ts: seq<Token>)
    requires Packed(slots, buffer)
    ensures |ts| == |slots|
  {
    if slots == [] then []
    else
      var init, last := slots[..|slots| - 1], slots[|slots| - 1];
      Held(init, buffer) + [Token(NameOf(last, buffer), last.index)]
  }

  /** Slots depend on the packed part of the buffer only. */
  lemma {:induction false} HeldPrefix(slots: seq<Slot>, a: Text, b: Text)
    requires Packed(slots, a) && End(slots) <= |a| && End(slots) <= |b| && a[..End(slots)] == b[..End(slots)]
    ensures Packed(slots, b) && Held(slots, a) == Held(slots, b)
    decreases |slots|
  {
    hide NameOf;
    if slots != [] {
      var init, last, n := slots[..|slots| - 1], slots[|slots| - 1], End(slots);
      FromPrefix(a, b, End(init), n);
      HeldPrefix(init, a, b);
      SameName(last, a, b, n);
    }
  }

  lemma SameName(slot: Slot, a: Text, b: Text, n: nat)
    requires slot.name + slot.length < n <= |a| && n <= |b| && a[..n] == b[..n]
    ensures NameOf(slot, a) == NameOf(slot, b) && a[n - 1] == b[n - 1]
  {
    FromPrefix(a, b, slot.name, n);
    SliceOfSlice(a, slot.name, n, slot.length);
    SliceOfSlice(b, slot.name, n, slot.length);
    assert a[..n][n - 1] == b[..n][n - 1];
  }

  /** One more name behind the others. */
  lemma HeldAppend(slots: seq<Slot>, slot: Slot, buffer: Text)
    requires Packed(slots, buffer) && slot.name == End(slots)
    requires slot.name + slot.length < |buffer| && buffer[slot.name + slot.length] == NUL
    ensures Packed(slots + [slot], buffer) && End(slots + [slot]) == slot.name + slot.length + 1
    ensures Held(slots + [slot], buffer) == Held(slots, buffer) + [Token(NameOf(slot, buffer), slot.index)]
  {
    assert (slots + [slot])[..|slots|] == slots;
  }

  lemma {:induction false} HeldAt(slots: seq<Slot>, buffer: Text, k: nat)
    requires Packed(slots, buffer) && k < |slots|
    ensures slots[k].name + slots[k].length < |buffer| && buffer[slots[k].name + slots[k].length] == NUL
    ensures Held(slots, buffer)[k] == Token(NameOf(slots[k], buffer), slots[k].index)
    decreases |slots|
  {
    if k < |slots| - 1 {
      HeldAt(slots[..|slots| - 1], buffer, k);
    }
  }

  // ---------------------------------------------------------------- the number of tokens

  lemma {:induction false} SolidiSplit(a: Text, b: Text)
    ensures Solidi(a + b) == Solidi(a) + Solidi(b)
  {
    if b == [] {
      assert a + b == a;
    } else {
      SolidiSplit(a, b[..|b| - 1]);
      assert (a + b)[..|a + b| - 1] == a + b[..|b| - 1];
    }
  }

  lemma {:induction false} NoSolidi(t: Text)
    requires SLASH !in t
    ensures Solidi(t) == 0
  {
    if t != [] {
      NoSolidi(t[..|t| - 1]);
    }
  }

  lemma {:induction false} TripletsHoldNoSolidus(s: Text, i: nat, n: nat)
    requires n <= |Units(s, i)|
    ensures i + 3 * n <= |s| || n == 0
    ensures forall k | i <= k < i + 3 * n :: s[k] != SLASH
    decreases n
  {
    if n > 0 {
      TripletsHoldNoSolidus(s, i + 3, n - 1);
    }
  }

  lemma CharHoldsNoSolidus(s: Text, i: nat, uri: bool)
    requires i < |s| && s[i] != SLASH && CharStep(s, i, uri).Put?
    ensures SLASH !in s[i..CharStep(s, i, uri).next]
  {
    if uri && s[i] == PERCENT {
      var v := Validate(Units(s, i), 0);
      ValidateByLead(Units(s, i), 0);
      TripletsHoldNoSolidus(s, i, v.next);
    }
  }

  /** A name takes up no solidus of the source: each of them starts a token. */
  lemma {:induction false} NameHoldsNoSolidus(s: Text, i: nat, uri: bool)
    requires i <= |s| && ScanName(s, i, uri).Name?
    ensures SLASH !in s[i..ScanName(s, i, uri).end]
    decreases |s| - i
  {
    var end := ScanName(s, i, uri).end;
    if i < |s| && s[i] != SLASH {
      hide CharStep;
      var next := CharStep(s, i, uri).next;
      CharHoldsNoSolidus(s, i, uri);
      NameHoldsNoSolidus(s, next, uri);
      assert s[i..end] == s[i..next] + s[next..end];
    }
  }

  lemma SolidiBehind(s: Text, i: nat, uri: bool)
    requires i < |s| && s[i] == SLASH && ScanName(s, i + 1, uri).Name?
    ensures Solidi(s[i..]) == 1 + Solidi(s[ScanName(s, i + 1, uri).end..])
  {
    hide *;
    var end := ScanName(s, i + 1, uri).end;
    NameHoldsNoSolidus(s, i + 1, uri);
    NoSolidi(s[i + 1..end]);
    SolidiSplit([SLASH], s[i + 1..end]);
    SolidiSplit([SLASH] + s[i + 1..end], s[end..]);
    SolidusThen(s, i, end);
    OneSolidus();
  }

  lemma OneSolidus()
    ensures Solidi([SLASH]) == 1
  {
    assert [SLASH][..0] == [];
  }

  lemma ScanTokenStep(s: Text, i: nat, uri: bool, done: seq<Token>)
    requires i < |s| && s[i] == SLASH
    ensures match ScanName(s, i + 1, uri)
            case NoName(fault, offset) => Before(done, ScanTokens(s, i, uri)) == Failed(fault, offset)
            case Name(name, end) =>
              Before(done, ScanTokens(s, i, uri)) ==
              Before(done + [Token(name, IndexOf(name))], ScanTokens(s, end, uri))
  {
    hide ScanName, IndexOf;
    if ScanName(s, i + 1, uri).Name? {
      var r := ScanName(s, i + 1, uri);
      if ScanTokens(s, r.end, uri).Tokens? {
        var rest := ScanTokens(s, r.end, uri).tokens;
        var t := Token(r.name, IndexOf(r.name));
        assert done + ([t] + rest) == done + [t] + rest;
      }
    }
  }

  /** Text already printed, before what is still to be printed. */
  function After(os: Text, r: Option<Text>): Option<Text> {
    match r case Some(s) => Some(os + s) case None => None
  }

  ghost predicate AllWellFormed(ts: seq<Token>, n: nat)
    requires n <= |ts|
  {
    forall k | 0 <= k < n :: WellFormed(ts[k].name)
  }

  /**
    Printing the fragment form gives up at the first malformed name. It has read past the terminator of that name if
    and only if the name stops at least two bytes short of what a lead byte behind a well-formed stretch announces.
   */
  ghost predicate PassesTerminator(ts: seq<Token>, uri: bool) {
    uri && exists t: nat | t < |ts| :: AllWellFormed(ts, t) && OverreachesFrom(ts[t].name, 0)
  }

  lemma StaysInside(name: Text)
    ensures WellFormed(name) ==> !OverreachesFrom(name, 0)
    ensures Reach(name, 0) > |name| + 1 <==> OverreachesFrom(name, 0)
  {
    ReadsStayInside(name, 0);
    assert name[0..] == name;
  }

  /** What printing the t-th name says about it. */
  lemma NameVerdict(os: Text, ts: seq<Token>, t: nat, uri: bool)
    requires t < |ts| && (uri ==> AllWellFormed(ts, t))
    ensures var name := ts[t].name;
            if After(os, Printed(name, uri)).Some? then uri ==> AllWellFormed(ts, t + 1)
            else PassesTerminator(ts, uri) <==> NameReads(name, 0, uri) > |name| + 1
  {
    hide Printed, Reach, WellFormed, OverreachesFrom;
    var name := ts[t].name;
    StringFormPrints(name);
    UriFormPrints(name);
    StaysInside(name);
    if uri && !WellFormed(name) && PassesTerminator(ts, uri) {
      var j: nat :| j < |ts| && AllWellFormed(ts, j) && OverreachesFrom(ts[j].name, 0);
      StaysInside(ts[j].name);
    }
  }

  lemma NoneYet(ts: seq<Token>)
    ensures AllWellFormed(ts, 0)
  {
  }

  lemma NoneFailed(ts: seq<Token>, uri: bool)
    requires uri ==> AllWellFormed(ts, |ts|)
    ensures !PassesTerminator(ts, uri)
  {
    hide WellFormed, OverreachesFrom;
    if PassesTerminator(ts, uri) {
      var j: nat :| j < |ts| && AllWellFormed(ts, j) && OverreachesFrom(ts[j].name, 0);
      StaysInside(ts[j].name);
    }
  }

  lemma OneByte(c: byte)
    ensures !NeedPercentEncode(c) || c == SLASH ==> Announced(c) == 1 && c < 0x80
    ensures c == TILDE ==> !NeedPercentEncode(c)
  {
  }

  /** Where printing a name from j on stops reading; only the fragment form looks further than one byte. */
  function NameReads(name: Text, j: nat, uri: bool): nat
    requires j <= |name|
  {
    if uri then Reach(name, j) else |name|
  }

  lemma NoReadsLeft(name: Text, uri: bool)
    ensures NameReads(name, |name|, uri) == |name|
  {
    ReachEnd(name);
  }

  lemma PrintReads(name: Text, j: nat, uri: bool)
    requires j < |name|
    ensures match PrintedChar(name[j..], uri)
            case None => uri && NameReads(name, j, uri) == j + Announced(name[j])
            case Some((text, n)) => j + n <= |name| && NameReads(name, j, uri) == NameReads(name, j + n, uri)
  {
    hide Reach, Percent, Validate, Decode, NeedPercentEncode;
    var c, rest := name[j], name[j..];
    OneByte(c);
    ReachStep(name, j);
    ReadsAnnounced(name, j);
    ReadsAnnounced(rest, 0);
    SameVerdict(name, j);
  }

  lemma SameVerdict(name: Text, j: nat)
    requires j < |name|
    ensures Validate(name[j..], 0).ok == Decode(name, j).ok
  {
    ValidateByLead(name[j..], 0);
    DecodeByLead(name, j);
    assert forall k | 0 <= k < 4 :: Peek(name[j..], k) == Peek(name, j + k);
  }

  lemma PrintStep(os: Text, name: Text, j: nat, uri: bool)
    requires j < |name|
    ensures match PrintedChar(name[j..], uri)
            case None => After(os, Printed(name[j..], uri)).None?
            case Some((text, n)) =>
              j + n <= |name| && After(os, Printed(name[j..], uri)) == After(os + text, Printed(name[j + n..], uri))
    ensures var c := name[j];
            PrintedChar(name[j..], uri) ==
            if c == TILDE then Some(([TILDE, ZERO], 1))
            else if c == SLASH then Some(([TILDE, ONE], 1))
            else if uri && NeedPercentEncode(c) then
              var v := Validate(name[j..], 0);
              if v.ok then Some((Percent(v.out), v.next)) else None
            else Some(([c], 1))
  {
    hide Validate, Percent, NeedPercentEncode;
    var r := PrintedChar(name[j..], uri);
    if r.Some? {
      var (text, n) := r.value;
      assert name[j..][n..] == name[j + n..];
      if Printed(name[j + n..], uri).Some? {
        var rest := Printed(name[j + n..], uri).value;
        assert os + (text + rest) == os + text + rest;
      }
    }
  }

  lemma WholeName(slot: Slot, buffer: Text)
    requires slot.name + slot.length < |buffer|
    ensures |NameOf(slot, buffer)| == slot.length && NameOf(slot, buffer)[0..] == NameOf(slot, buffer)
  {
  }

  lemma NamePrinted(os: Text, none: Text, uri: bool)
    requires none == []
    ensures After(os, Printed(none, uri)) == Some(os)
  {
    assert os + [] == os;
  }

  /** The terminator ends a truncated character, so reading the buffer decides like reading the name alone. */
  lemma NameAt(slot: Slot, buffer: Text, j: nat)
    requires slot.name + slot.length < |buffer| && buffer[slot.name + slot.length] == NUL && j < slot.length
    ensures |NameOf(slot, buffer)| == slot.length && NameOf(slot, buffer)[j] == buffer[slot.name + j]
    ensures var v, w := Validate(buffer, slot.name + j), Validate(NameOf(slot, buffer)[j..], 0);
            v.ok == w.ok && (v.ok ==> v.out == w.out && v.next == slot.name + j + w.next && w.next > 0)
    ensures Validate(buffer, slot.name + j).next == slot.name + j + Announced(buffer[slot.name + j])
  {
    var p, name := slot.name + j, NameOf(slot, buffer)[j..];
    ReadsAnnounced(buffer, p);
    ValidateByLead(buffer, p);
    ValidateByLead(name, 0);
    assert forall k | 0 <= k < |name| :: name[k] == buffer[p + k];
    assert buffer[p + |name|] == NUL;
  }

  lemma PrintTokenStep(os: Text, ts: seq<Token>, t: nat, uri: bool)
    requires t < |ts|
    ensures match After(os + [SLASH], Printed(ts[t].name, uri))
            case None => After(os, PrintedTokens(ts[t..], uri)).None?
            case Some(more) => After(os, PrintedTokens(ts[t..], uri)) == After(more, PrintedTokens(ts[t + 1..], uri))
  {
    hide Printed;
    assert ts[t..][1..] == ts[t + 1..];
    if Printed(ts[t].name, uri).Some? && PrintedTokens(ts[t + 1..], uri).Some? {
      var name, rest := Printed(ts[t].name, uri).value, PrintedTokens(ts[t + 1..], uri).value;
      assert os + ([SLASH] + name + rest) == os + [SLASH] + name + rest;
    }
  }

  lemma TokensPrinted(os: Text, none: seq<Token>, uri: bool)
    requires none == []
    ensures After(os, PrintedTokens(none, uri)) == Some(os)
  {
    assert os + [] == os;
  }

  lemma StringifyIs(ts: seq<Token>, uri: bool)
    ensures Pointers.Stringify(ts, uri) == After(if uri then [SHARP] else [], PrintedTokens(ts, uri))
  {
    hide PrintedTokens;
    if PrintedTokens(ts, uri).Some? {
      assert [] + PrintedTokens(ts, uri).value == PrintedTokens(ts, uri).value;
    }
  }

  lemma {:induction false} PackedAt(slots: seq<Slot>, buffer: Text, k: nat)
    requires Packed(slots, buffer) && k < |slots|
    ensures slots[k].name == End(slots[..k])
    decreases |slots|
  {
    if k < |slots| - 1 {
      PackedAt(slots[..|slots| - 1], buffer, k);
      assert slots[..|slots| - 1][..k] == slots[..k];
    }
  }

  lemma HeldCopied(slots: seq<Slot>, a: Text, b: Text, size: nat, token: Token, more: seq<Slot>)
    requires Packed(slots, a) && End(slots) == size <= |a| && |b| == size + |token.name| + 1 && a[..size] == b[..size]
    requires b[size..] == token.name + [NUL]
    requires more == slots + [Slot(size, |token.name|, token.index)]
    ensures Packed(more, b) && End(more) <= |b| && Held(more, b) == Held(slots, a) + [token]
  {
    var slot := Slot(size, |token.name|, token.index);
    HeldPrefix(slots, a, b);
    assert b[size + |token.name|] == b[size..][|token.name|];
    HeldAppend(slots, slot, b);
    assert NameOf(slot, b) == b[size..][..|token.name|] == token.name;
  }

  class GenericPointer {
    var nameBuffer: array?<byte>
    var tokens: array?<Slot>
    var tokenCount: nat
    var parseErrorOffset: nat
    var parseErrorCode: Option<Fault>

    ghost function Slots(): seq<Slot>
      reads this, tokens
    {
      if tokens == null then [] else tokens[..]
    }

    ghost function Names(): Text
      reads this, nameBuffer
    {
      if nameBuffer == null then [] else nameBuffer[..]
    }

    ghost predicate Valid()
      reads this, nameBuffer, tokens
    {
      tokenCount == |Slots()| && Packed(Slots(), Names()) && End(Slots()) <= |Names()|
    }

    ghost function Contents(): seq<Token>
      reads this, nameBuffer, tokens
      requires Valid()
    {
      Held(Slots(), Names())
    }

    constructor ()
      ensures Valid() && Contents() == [] && parseErrorCode == None && tokens == null
    {
      nameBuffer, tokens, tokenCount, parseErrorOffset, parseErrorCode := null, null, 0, 0, None;
    }

    constructor Over(slots: array<Slot>, buffer: array<byte>)
      requires Packed(slots[..], buffer[..]) && End(slots[..]) <= buffer.Length
      ensures Valid() && Contents() == Held(slots[..], buffer[..]) && parseErrorCode == None
    {
      nameBuffer, tokens, tokenCount, parseErrorOffset, parseErrorCode := buffer, slots, slots.Length, 0, None;
    }

    /** Name and index of one token, at the solidus i: the slot it gets, and where the next one starts. */
    static method ParseToken(source: Text, i: nat, uri: bool, buffer: array<byte>, begin: nat)
      returns (slot: Slot, next: nat, fault: Option<Fault>)
      requires buffer.Length == |source| && i < |source| && source[i] == SLASH && begin + (if uri then 1 else 0) <= i
      modifies buffer
      ensures buffer[..begin] == old(buffer[..begin])
      ensures match ScanName(source, i + 1, uri)
              case NoName(f, offset) => fault == Some(f) && next == offset
              case Name(name, end) =>
                && fault.None? && next == end && i < end && slot.name == begin
                && slot.name + slot.length + 1 + (if uri then 1 else 0) <= next
                && NameOf(slot, buffer[..]) == name && slot.index == IndexOf(name)
                && buffer[slot.name + slot.length] == NUL
    {
      hide ScanName, IndexOf;
      var name: nat, isNumber: bool;
      next, name, isNumber, fault := ParseName(source, i + 1, uri, buffer, begin);
      slot := Slot(begin, 0, INVALID);
      if fault.None? {
        ghost var was := buffer[..];
        buffer[name] := NUL;
        FromPrefix(was, buffer[..], begin, name);
        var length := name - begin;
        var index := Convert(buffer, begin, length, isNumber);
        slot := Slot(begin, length, index);
        assert buffer[..][begin..begin + length] == buffer[begin..begin + length];
      }
    }

    static method CountSolidi(source: Text) returns (count: nat)
      ensures count == Solidi(source)
    {
      count := 0;
      for n := 0 to |source|
        invariant count == Solidi(source[..n])
      {
        assert source[..n + 1][..n] == source[..n];
        if source[n] == SLASH { count := count + 1; }
      }
      assert source[..|source|] == source;
    }

    static method ParseTokens(source: Text, start: nat, uri: bool, slots: array<Slot>, buffer: array<byte>)
      returns (i: nat, fault: Option<Fault>)
      requires start == (if uri then 1 else 0) <= |source| && (start == |source| || source[start] == SLASH)
      requires slots.Length == Solidi(source[start..]) && buffer.Length == |source|
      modifies slots, buffer
      ensures match ScanTokens(source, start, uri)
              case Failed(f, offset) => fault == Some(f) && i == offset
              case Tokens(ts) =>
                && fault.None? && Packed(slots[..], buffer[..]) && Held(slots[..], buffer[..]) == ts
                && End(slots[..]) <= buffer.Length
    {
      hide *;
      i, fault := start, None;
      ghost var whole := ScanTokens(source, start, uri);
      var token, name := 0, 0;
      assert slots[..0] == [];
      NothingHeld(slots[..0], buffer[..], whole);
      while i < |source|
        invariant i <= |source| && (i == |source| || source[i] == SLASH) && fault.None?
        invariant token + Solidi(source[i..]) == slots.Length
        invariant Packed(slots[..token], buffer[..]) && End(slots[..token]) == name
        invariant name + (if uri then 1 else 0) <= i
        invariant whole == Before(Held(slots[..token], buffer[..]), ScanTokens(source, i, uri))
      {
        ghost var was, done := buffer[..], slots[..token];
        ScanTokenStep(source, i, uri, Held(done, was));
        var slot, next, f := ParseToken(source, i, uri, buffer, name);
        if f.Some? {
          return next, f;
        }
        SolidiBehind(source, i, uri);
        HeldGrows(done, was, buffer[..], slot);
        slots[token] := slot;
        assert slots[..token + 1] == done + [slot];
        token, name, i := token + 1, name + slot.length + 1, next;
      }
      TokensEnd(source, i, uri, Held(slots[..token], buffer[..]));
      assert slots[..token] == slots[..];
    }

    /** Parse into the fields of a pointer that holds nothing yet. */
    method Parse(source: Text)
      requires Valid() && nameBuffer == null && tokens == null
      modifies this
      ensures Valid()
      ensures match Pointers.Parse(source)
              case Failed(fault, offset) =>
                parseErrorCode == Some(fault) && parseErrorOffset == offset && tokens == null && tokenCount == 0
              case Tokens(ts) =>
                && parseErrorCode == None && Contents() == ts
                && tokens != null && tokenCount == Solidi(source) && nameBuffer != null && nameBuffer.Length == |source|
    {
      hide Packed, Held, End, ScanTokens, Solidi;
      tokenCount := CountSolidi(source);
      var slots := new Slot[tokenCount](_ => Slot(0, 0, 0));
      var buffer := new byte[|source|](_ => NUL);
      var i := 0;
      var uri := false;
      if Peek(source, 0) == SHARP {
        uri := true;
        i := i + 1;
      }
      if i != |source| && source[i] != SLASH {
        Error(TokenMustBeginWithSolidus, i);
        return;
      }
      SolidiFrom(source, i);
      var offset, fault := ParseTokens(source, i, uri, slots, buffer);
      if fault.Some? {
        Error(fault.value, offset);
        return;
      }
      tokens, nameBuffer := slots, buffer;
      parseErrorCode := None;
    }

    /** One character, read from the buffer. */
    static method PrintChar(buffer: array<byte>, slot: Slot, j: nat, uri: bool) returns (ok: bool, text: Text, n: nat)
      requires slot.name + slot.length < buffer.Length && buffer[slot.name + slot.length] == NUL && j < slot.length
      ensures |NameOf(slot, buffer[..])| == slot.length
      ensures PrintedChar(NameOf(slot, buffer[..])[j..], uri) == if ok then Some((text, n)) else None
      ensures n == if uri then Announced(NameOf(slot, buffer[..])[j]) else 1
    {
      hide Validate, NeedPercentEncode, Percent, Announced;
      NameAt(slot, buffer[..], j);
      OneByte(buffer[slot.name + j]);
      var c := buffer[slot.name + j];
      ok, text, n := true, [c], 1;
      if c == TILDE {
        text := [TILDE, ZERO];
      } else if c == SLASH {
        text := [TILDE, ONE];
      } else if uri && NeedPercentEncode(c) {
        var v := Validate(buffer[..], slot.name + j);
        ok, text, n := v.ok, Percent(v.out), v.next - (slot.name + j);
      }
    }

    /** One name, printed behind what is there; `read` is how much of it has been read, with what lies behind it. */
    static method PrintName(buffer: array<byte>, slot: Slot, uri: bool, before: Text)
      returns (ok: bool, os: Text, ghost read: nat)
      requires slot.name + slot.length < buffer.Length && buffer[slot.name + slot.length] == NUL
      ensures After(before, Printed(NameOf(slot, buffer[..]), uri)) == if ok then Some(os) else None
      ensures read == NameReads(NameOf(slot, buffer[..]), 0, uri)
    {
      hide *;
      ghost var name := NameOf(slot, buffer[..]);
      os := before;
      var j := 0;
      WholeName(slot, buffer[..]);
      while j < slot.length
        invariant j <= slot.length == |name|
        invariant After(before, Printed(name, uri)) == After(os, Printed(name[j..], uri))
        invariant NameReads(name, j, uri) == NameReads(name, 0, uri)
      {
        PrintStep(os, name, j, uri);
        PrintReads(name, j, uri);
        var good, text, n := PrintChar(buffer, slot, j, uri);
        if !good {
          return false, os, j + n;
        }
        os, j := os + text, j + n;
      }
      NamePrinted(os, name[j..], uri);
      NoReadsLeft(name, uri);
      ok, read := true, j;
    }

    /** The slot of a token, and its name in the buffer. */
    lemma SlotAt(t: nat)
      requires Valid() && t < tokenCount
      ensures tokens != null && nameBuffer != null && t < tokens.Length
      ensures tokens[t].name + tokens[t].length < nameBuffer.Length
      ensures nameBuffer[tokens[t].name + tokens[t].length] == NUL
      ensures t < |Contents()| && Contents()[t].name == NameOf(tokens[t], nameBuffer[..])
    {
      hide Packed, Held, End, NameOf;
      HeldAt(Slots(), Names(), t);
    }

    lemma Counted()
      requires Valid()
      ensures |Contents()| == tokenCount
    {
      hide Packed, End;
    }

    /** `past` says whether some read has gone past the terminator of a name. */
    method Stringify(uri: bool) returns (ok: bool, os: Text, ghost past: bool)
      requires Valid() && parseErrorCode == None
      ensures Pointers.Stringify(Contents(), uri) == if ok then Some(os) else None
      ensures past == PassesTerminator(Contents(), uri)
    {
      hide *;
      ghost var ts := Contents();
      Counted();
      os := [];
      if uri { os := os + [SHARP]; }
      assert os == if uri then [SHARP] else [];
      ghost var whole := After(os, PrintedTokens(ts, uri));
      StringifyIs(ts, uri);
      NoneYet(ts);
      assert ts[0..] == ts;
      for t := 0 to tokenCount
        invariant whole == After(os, PrintedTokens(ts[t..], uri))
        invariant uri ==> AllWellFormed(ts, t)
      {
        SlotAt(t);
        PrintTokenStep(os, ts, t, uri);
        os := os + [SLASH];
        ghost var read, before := 0, os;
        ok, os, read := PrintName(nameBuffer, tokens[t], uri, os);
        NameVerdict(before, ts, t, uri);
        if !ok {
          past := read > |ts[t].name| + 1;
          return;
        }
      }
      TokensPrinted(os, ts[tokenCount..], uri);
      NoneFailed(ts, uri);
      ok, past := true, false;
    }

    /** The tokens and names of a pointer with room for more; the names are copied in one piece: they are packed. */
    method CopyFromRaw(extraToken: nat, extraNameBufferSize: nat)
      returns (slots: array<Slot>, buffer: array<byte>, size: nat)
      requires Valid()
      ensures fresh(slots) && slots.Length == tokenCount + extraToken && slots[..tokenCount] == Slots()
      ensures size == End(Slots()) <= |Names()|
      ensures fresh(buffer) && buffer.Length == size + extraNameBufferSize && buffer[..size] == Names()[..size]
    {
      size := CopiedSize();
      slots := new Slot[tokenCount + extraToken](_ => Slot(0, 0, 0));
      buffer := new byte[size + extraNameBufferSize](_ => NUL);
      ghost var from, names := Slots(), Names();
      hide *;
      for k := 0 to tokenCount
        invariant slots[..k] == from[..k]
        modifies slots
      {
        slots[k] := tokens[k];
      }
      for k := 0 to size
        invariant buffer[..k] == names[..k]
        modifies buffer
      {
        buffer[k] := nameBuffer[k];
      }
      assert from[..tokenCount] == from;
    }

    lemma IsPacked()
      requires Valid()
      ensures |Slots()| == tokenCount && Packed(Slots(), Names()) && Contents() == Held(Slots(), Names())
    {
    }

    /** The name and the slot of a token in the room left for them. */
    static method PutToken(slots: array<Slot>, buffer: array<byte>, size: nat, token: Token)
      requires slots.Length > 0 && buffer.Length == size + |token.name| + 1
      modifies slots, buffer
      ensures slots[..] == old(slots[..slots.Length - 1]) + [Slot(size, |token.name|, token.index)]
      ensures buffer[..size] == old(buffer[..size]) && buffer[size..] == token.name + [NUL]
    {
      PutAll(buffer, size, token.name + [NUL]);
      slots[slots.Length - 1] := Slot(size, |token.name|, token.index);
    }

    method Append(token: Token) returns (r: GenericPointer)
      requires Valid()
      ensures fresh(r) && r.Valid() && r.parseErrorCode == None
      ensures r.Contents() == Contents() + [token]
    {
      hide *;
      ghost var from, names := Slots(), Names();
      IsPacked();
      var slots, buffer, size := CopyFromRaw(1, |token.name| + 1);
      PutToken(slots, buffer, size, token);
      HeldCopied(from, names, buffer[..], size, token, slots[..]);
      r := new GenericPointer.Over(slots, buffer);
    }

    method CopiedSize() returns (size: nat)
      requires Valid()
      ensures size == End(Slots())
    {
      size := tokenCount;
      ghost var from := Slots();
      for k := 0 to tokenCount
        invariant size == tokenCount - k + End(from[..k])
      {
        PackedAt(from, Names(), k);
        assert from[..k + 1][..k] == from[..k];
        size := size + tokens[k].length;
      }
      assert from[..tokenCount] == from;
    }

    method AppendName(name: Text) returns (r: GenericPointer)
      requires Valid()
      ensures fresh(r) && r.Valid() && r.parseErrorCode == None
      ensures r.Contents() == Pointers.AppendName(Contents(), name)
    {
      r := Append(Token(name, INVALID));
    }

    method AppendIndex(index: uint32) returns (r: GenericPointer)
      requires Valid()
      ensures fresh(r) && r.Valid() && r.parseErrorCode == None
      ensures r.Contents() == Pointers.AppendIndex(Contents(), index)
    {
      r := Append(Token(Writers.Decimal(index), index));
    }

    method Error(fault: Fault, offset: nat)
      modifies this
      ensures Valid() && nameBuffer == null && tokens == null && tokenCount == 0
      ensures parseErrorCode == Some(fault) && parseErrorOffset == offset
    {
      nameBuffer, tokens, tokenCount := null, null, 0;
      parseErrorOffset, parseErrorCode := offset, Some(fault);
    }
  }

  lemma NothingHeld(slots: seq<Slot>, buffer: Text, r: Parsed)
    requires slots == []
    ensures Packed(slots, buffer) && End(slots) == 0 && Before(Held(slots, buffer), r) == r
  {
    if r.Tokens? {
      assert [] + r.tokens == r.tokens;
    }
  }

  lemma HeldGrows(slots: seq<Slot>, a: Text, b: Text, slot: Slot)
    requires Packed(slots, a) && |a| == |b| && slot.name == End(slots) && a[..slot.name] == b[..slot.name]
    requires slot.name + slot.length < |b| && b[slot.name + slot.length] == NUL
    ensures Packed(slots + [slot], b) && End(slots + [slot]) == slot.name + slot.length + 1
    ensures Held(slots + [slot], b) == Held(slots, a) + [Token(NameOf(slot, b), slot.index)]
  {
    HeldPrefix(slots, a, b);
    HeldAppend(slots, slot, b);
  }

  lemma TokensEnd(s: Text, i: nat, uri: bool, done: seq<Token>)
    requires i == |s|
    ensures s[i..] == [] && Solidi(s[i..]) == 0 && Before(done, ScanTokens(s, i, uri)) == Tokens(done)
  {
    assert done + [] == done;
  }

  lemma SolidiFrom(s: Text, i: nat)
    requires i <= |s| && SLASH !in s[..i]
    ensures Solidi(s[i..]) == Solidi(s)
  {
    NoSolidi(s[..i]);
    SolidiSplit(s[..i], s[i..]);
    assert s[..i] + s[i..] == s;
  }
}
