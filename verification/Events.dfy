/** The handler's events, and the fixed surroundings of one parse. */
module Events {
  import opened Bytes
  import opened Strings

  type int32 = i: int | -0x8000_0000 <= i < 0x8000_0000
  type uint32 = i: int | 0 <= i < 0x1_0000_0000
  type int64 = i: int | -0x8000_0000_0000_0000 <= i < 0x8000_0000_0000_0000
  type uint64 = i: int | 0 <= i < 0x1_0000_0000_0000_0000

  datatype Event =
    | Null
    | Bool(b: bool)
    | Int(i: int32)
    | Uint(u: uint32)
    | Int64(i64: int64)
    | Uint64(u64: uint64)
    | Double(token: Text)
    | String(s: Text)
    | StartObject
    | Key(s: Text)
    | EndObject(count: nat)
    | StartArray
    | EndArray(count: nat)

  /**
    The text being parsed, the two parse flags, the handler's answer to its whole history of events, and
    the verdict of the floating-point conversion (finite or too big) on a number token.
   */
  datatype Env = Env(
    text: Text,
    trailingCommas: bool,
    stopWhenDone: bool,
    handler: seq<Event> -> bool,
    overflows: Text -> bool)

  datatype ParseResult = NoError | Error(code: ErrorCode, offset: nat)

  const U32: nat := 0x1_0000_0000

  /** `++count` on a 32-bit SizeType. */
  function Inc(n: nat): nat {
    (n + 1) % U32
  }
}
