/** RESP2 values, the limits on what a client may send, and the recursive encoding. */
module Resp {
  import opened Basics
  import opened Decimal

  datatype RespValue =
    | Unknown
    | SimpleString(text: Bytes)
    | Error(text: Bytes)
    | Integer(number: int64)
    | BulkString(text: Bytes)
    | NullBulkString
    | Array(elements: seq<RespValue>)
    | NullArray

  const MAX_BULK_SIZE: nat := 16 * 1024 * 1024
  const MAX_ARRAY_LENGTH: nat := 1024 * 1024
  const MAX_NESTING_DEPTH: nat := 4096

  const UNKNOWN_TYPE: Bytes := Ascii("-ERR unknown type") + CRLF
  const NULL_BULK_STRING: Bytes := [DOLLAR] + Ascii("-1") + CRLF
  const NULL_ARRAY: Bytes := [STAR] + Ascii("-1") + CRLF

  predicate CrlfAt(s: Bytes, i: int) {
    0 <= i && i + 1 < |s| && s[i] == CR && s[i + 1] == LF
  }

  predicate HasCrlf(s: Bytes) {
    exists i :: 0 <= i < |s| && CrlfAt(s, i)
  }

  /** A value the parser can ever produce inside `depth` enclosing arrays. */
  predicate WithinLimits(v: RespValue, depth: nat)
    decreases v
  {
    match v
    case Unknown => false
    case SimpleString(text) => !HasCrlf(text)
    case Error(text) => !HasCrlf(text)
    case Integer(_) => true
    case BulkString(text) => |text| <= MAX_BULK_SIZE
    case NullBulkString => true
    case NullArray => true
    case Array(elements) =>
      && |elements| <= MAX_ARRAY_LENGTH
      && (elements != [] ==> depth < MAX_NESTING_DEPTH)
      && forall e <- elements :: WithinLimits(e, depth + 1)
  }

  function Header(kind: byte, n: int): (h: Bytes)
    ensures |h| >= 3
  {
    [kind] + Print(n) + CRLF
  }

  /** The RESP2 encoding, by recursion on the value. */
  function Encode(v: RespValue): (b: Bytes)
    ensures b != []
    decreases v, 0
  {
    match v
    case Unknown => UNKNOWN_TYPE
    case SimpleString(text) => [PLUS] + text + CRLF
    case Error(text) => [MINUS] + text + CRLF
    case Integer(n) => Header(COLON, n)
    case BulkString(text) => Header(DOLLAR, |text|) + text + CRLF
    case NullBulkString => NULL_BULK_STRING
    case NullArray => NULL_ARRAY
    case Array(elements) => Header(STAR, |elements|) + EncodeAll(elements)
  }

  function EncodeAll(vs: seq<RespValue>): Bytes
    decreases vs, 1
  {
    if vs == [] then [] else Encode(vs[0]) + EncodeAll(vs[1..])
  }
}
