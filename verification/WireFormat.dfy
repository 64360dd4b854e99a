/** The bytes of the protocol themselves, in place of the codec's own constants. */
module WireFormat {
  import opened Basics
  import opened Decimal
  import opened Resp

  /** The encoding of every kind of value, byte for byte. */
  lemma EncodedBytes(text: Bytes, n: int64, elements: seq<RespValue>)
    ensures Encode(SimpleString(text)) == Ascii("+") + text + Ascii("\r\n")
    ensures Encode(Error(text)) == Ascii("-") + text + Ascii("\r\n")
    ensures Encode(Integer(n)) == Ascii(":") + Print(n) + Ascii("\r\n")
    ensures Encode(BulkString(text)) == Ascii("$") + Print(|text|) + Ascii("\r\n") + text + Ascii("\r\n")
    ensures Encode(Array(elements)) == Ascii("*") + Print(|elements|) + Ascii("\r\n") + EncodeAll(elements)
    ensures Encode(NullBulkString) == Ascii("$-1\r\n") && Encode(NullArray) == Ascii("*-1\r\n")
    ensures Encode(Unknown) == Ascii("-ERR unknown type\r\n")
  {
    hide Print, Ascii;
    KindBytes();
    FixedBytes();
  }

  lemma FixedBytes()
    ensures NULL_BULK_STRING == Ascii("$-1\r\n") && NULL_ARRAY == Ascii("*-1\r\n")
    ensures UNKNOWN_TYPE == Ascii("-ERR unknown type\r\n")
  {
  }

  lemma KindBytes()
    ensures [PLUS] == Ascii("+") && [MINUS] == Ascii("-") && [COLON] == Ascii(":")
    ensures [DOLLAR] == Ascii("$") && [STAR] == Ascii("*") && CRLF == Ascii("\r\n")
  {
  }

  /** The decimal digits, and how longer numbers are built from them. */
  lemma PrintedDigits(n: nat)
    ensures n < 10 ==> Print(n) == Ascii(["0123456789"[n]])
    ensures n >= 10 ==> Print(n) == Print(n / 10) + Print(n % 10)
    ensures n > 0 ==> Print(0 - n as int) == Ascii("-") + Print(n)
  {
  }

  /** The limits are 16 MiB for a bulk string, 2^20 elements for an array, and 4096 nested arrays. */
  lemma Limits(text: Bytes, elements: seq<RespValue>, depth: nat)
    ensures WithinLimits(BulkString(text), depth) <==> |text| <= 16_777_216
    ensures WithinLimits(Array(elements), depth) <==>
            && |elements| <= 1_048_576 && (elements == [] || depth < 4096)
            && forall e <- elements :: WithinLimits(e, depth + 1)
    ensures WithinLimits(SimpleString(text), depth) <==> WithinLimits(Error(text), depth)
    ensures WithinLimits(SimpleString(text), depth) <==>
            !exists before, after :: text == before + Ascii("\r\n") + after
  {
    KindBytes();
    forall before, after | text == before + CRLF + after ensures HasCrlf(text) {
      assert CrlfAt(text, |before|);
    }
    if HasCrlf(text) {
      var i :| 0 <= i < |text| && CrlfAt(text, i);
      assert text == text[..i] + CRLF + text[i + 2..];
    }
  }
}
