/** Bytes, fixed-width integers and the option type shared by every module. */
module Basics {

  datatype Option<+T> = None | Some(value: T)

  newtype byte = x: int | 0 <= x < 0x100

  type Bytes = seq<byte>

  const INT64_MAX: int := 0x7FFF_FFFF_FFFF_FFFF
  const INT64_MIN: int := -0x8000_0000_0000_0000

  type int64 = x: int | INT64_MIN <= x <= INT64_MAX

  /** Arithmetic on this type is checked: every intermediate result must fit in 64 bits. */
  newtype uint64 = x: int | 0 <= x <= 0xFFFF_FFFF_FFFF_FFFF

  const CR: byte := 13
  const LF: byte := 10
  const CRLF: Bytes := [CR, LF]
  const PLUS: byte := 43
  const MINUS: byte := 45
  const COLON: byte := 58
  const DOLLAR: byte := 36
  const STAR: byte := 42
  const DIGIT_0: byte := 48
  const DIGIT_9: byte := 57

  lemma Associates<T>(a: seq<T>, b: seq<T>, c: seq<T>)
    ensures a + b + c == a + (b + c)
  {
  }

  lemma DropFront<T>(a: seq<T>, b: seq<T>)
    ensures (a + b)[|a|..] == b
  {
  }

  lemma SplitAt<T>(s: seq<T>, i: nat)
    requires i < |s|
    ensures s == s[..i] + ([s[i]] + s[i + 1..])
  {
  }

  /** The bytes of an ASCII string literal. */
  function Ascii(text: string): (b: Bytes)
    requires forall c <- text :: c as int < 0x80
    ensures |b| == |text|
    ensures forall i :: 0 <= i < |text| ==> b[i] as int == text[i] as int
  {
    seq(|text|, i requires 0 <= i < |text| => assert text[i] in text; (text[i] as int) as byte)
  }
}
