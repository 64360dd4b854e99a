/** Decimal integers: the RESP integer token and the canonical printed form. */
module Decimal {
  import opened Basics

  predicate IsDigit(b: byte) {
    DIGIT_0 <= b <= DIGIT_9
  }

  predicate AllDigits(ds: Bytes) {
    forall i :: 0 <= i < |ds| ==> IsDigit(ds[i])
  }

  /** The number written by a string of decimal digits. */
  function DigitsValue(ds: Bytes): (n: nat)
    requires AllDigits(ds)
  {
    if ds == [] then 0
    else 10 * DigitsValue(ds[..|ds| - 1]) + (ds[|ds| - 1] - DIGIT_0) as int
  }

  predicate HasSign(token: Bytes) {
    token != [] && (token[0] == PLUS || token[0] == MINUS)
  }

  /** The digits of a token, its optional sign removed. */
  function Magnitude(token: Bytes): Bytes {
    if HasSign(token) then token[1..] else token
  }

  /** An optional sign, then one or more digits, with a value in the int64 range; nothing else. */
  predicate IsInt64Token(token: Bytes) {
    && Magnitude(token) != []
    && AllDigits(Magnitude(token))
    && INT64_MIN <= SignedValue(token) <= INT64_MAX
  }

  function SignedValue(token: Bytes): int
    requires AllDigits(Magnitude(token))
  {
    var magnitude: int := DigitsValue(Magnitude(token));
    if HasSign(token) && token[0] == MINUS then -magnitude else magnitude
  }

  function TokenValue(token: Bytes): Option<int64> {
    if IsInt64Token(token) then Some(SignedValue(token)) else None
  }

  /** What std::to_chars prints: no leading zero, no plus sign. */
  function PrintNat(n: nat): (ds: Bytes)
    ensures ds != [] && AllDigits(ds)
    decreases n
  {
    var last := (n % 10) as byte + DIGIT_0;
    if n < 10 then [last] else PrintNat(n / 10) + [last]
  }

  function Print(n: int): (token: Bytes)
    ensures token != []
  {
    if n < 0 then [MINUS] + PrintNat(-n) else PrintNat(n)
  }

  lemma {:induction false} PrintNatInverse(n: nat)
    ensures DigitsValue(PrintNat(n)) == n
  {
    if n >= 10 {
      PrintNatInverse(n / 10);
      assert PrintNat(n)[..|PrintNat(n)| - 1] == PrintNat(n / 10);
    }
  }

  /** Parsing inverts printing on the whole int64 range, the minimum included. */
  lemma PrintInverse(n: int)
    ensures TokenValue(Print(n)) == if INT64_MIN <= n <= INT64_MAX then Some(n) else None
  {
    PrintNatInverse(if n < 0 then -n else n);
    var token := Print(n);
    if n < 0 {
      assert token[1..] == PrintNat(-n);
    } else {
      assert IsDigit(token[0]);
    }
  }

  /** A token may carry a plus sign and leading zeros, or a minus sign and leading zeros: only the number
      counts. */
  lemma SignsAndZeros(zeros: nat, n: nat)
    ensures var padded := Zeros(zeros) + PrintNat(n);
            && TokenValue(Ascii("+") + padded) == (if n <= INT64_MAX then Some(n) else None)
            && TokenValue(padded) == (if n <= INT64_MAX then Some(n) else None)
            && TokenValue(Ascii("-") + padded) == (if n <= INT64_MAX + 1 then Some(0 - n as int) else None)
  {
    var padded := Zeros(zeros) + PrintNat(n);
    ZerosAddNothing(zeros, PrintNat(n));
    PrintNatInverse(n);
    hide PrintNat, DigitsValue, AllDigits, Zeros;
    assert Ascii("+") == [PLUS] && Ascii("-") == [MINUS];
    Signed(PLUS, padded);
    Signed(MINUS, padded);
  }

  /** A sign before digits, or none. */
  lemma Signed(sign: byte, digits: Bytes)
    requires (sign == PLUS || sign == MINUS) && digits != [] && AllDigits(digits)
    ensures var n: int := DigitsValue(digits);
            var value := if sign == MINUS then -n else n;
            && TokenValue([sign] + digits) == (if INT64_MIN <= value <= INT64_MAX then Some(value) else None)
            && TokenValue(digits) == (if n <= INT64_MAX then Some(n) else None)
  {
    assert ([sign] + digits)[1..] == digits;
    assert IsDigit(digits[0]);
  }

  function Zeros(k: nat): (ds: Bytes)
    ensures |ds| == k && forall d <- ds :: d as int == '0' as int
  {
    seq(k, _ => '0' as int as byte)
  }

  lemma {:induction false} ZerosAddNothing(k: nat, ds: Bytes)
    requires AllDigits(ds)
    ensures AllDigits(Zeros(k) + ds) && DigitsValue(Zeros(k) + ds) == DigitsValue(ds)
    decreases |ds| + k
  {
    if ds != [] {
      var init := ds[..|ds| - 1];
      ZerosAddNothing(k, init);
      assert (Zeros(k) + ds)[..|Zeros(k) + ds| - 1] == Zeros(k) + init;
    } else if k > 0 {
      ZerosAddNothing(k - 1, ds);
      assert (Zeros(k) + ds)[..k - 1] == Zeros(k - 1) + ds;
    }
  }

  /** What is no integer token: anything with a byte that is not a digit after the optional sign, and a sign
      alone or nothing. */
  lemma NoToken(token: Bytes, i: nat)
    ensures TokenValue([]) == None && TokenValue(Ascii("+")) == None && TokenValue(Ascii("-")) == None
    ensures i < |token| && !('0' as int <= token[i] as int <= '9' as int)
            && (i > 0 || (token[0] != Ascii("+")[0] && token[0] != Ascii("-")[0])) ==>
              TokenValue(token) == None
  {
    if i < |token| && HasSign(token) && i > 0 { assert Magnitude(token)[i - 1] == token[i]; }
  }

  function Pow10(k: nat): (p: nat)
    ensures p > 0
  {
    if k == 0 then 1 else 10 * Pow10(k - 1)
  }

  lemma {:induction false} PrintNatLength(n: nat, k: nat)
    requires 0 < k && n < Pow10(k)
    ensures |PrintNat(n)| <= k
  {
    if n >= 10 {
      assert k > 1 by { assert Pow10(1) == 10 * Pow10(0); }
      PrintNatLength(n / 10, k - 1);
    }
  }

  /** The 32-byte buffer handed to std::to_chars is never too small for a 64-bit integer. */
  lemma PrintFitsBuffer(n: int)
    requires INT64_MIN <= n < 0x1_0000_0000_0000_0000
    ensures |Print(n)| <= 20
  {
    assert Pow10(4) == 10_000;
    assert Pow10(8) == 100_000_000;
    assert Pow10(12) == 1_000_000_000_000;
    assert Pow10(16) == 10_000_000_000_000_000;
    assert Pow10(19) == 10_000_000_000_000_000_000;
    assert Pow10(20) == 100_000_000_000_000_000_000;
    if n < 0 {
      PrintNatLength(-n, 19);
    } else {
      PrintNatLength(n, 20);
    }
  }

  lemma {:induction false} PrefixValueBound(ds: Bytes, k: nat)
    requires AllDigits(ds) && k <= |ds|
    ensures DigitsValue(ds[..k]) <= DigitsValue(ds)
    decreases |ds|
  {
    if k < |ds| {
      PrefixValueBound(ds[..|ds| - 1], k);
      assert ds[..|ds| - 1][..k] == ds[..k];
    } else {
      assert ds[..k] == ds;
    }
  }

  /** Reading one more digit. */
  lemma OneMoreDigit(ds: Bytes, k: nat)
    requires k < |ds| && AllDigits(ds[..k]) && IsDigit(ds[k])
    ensures AllDigits(ds[..k + 1])
    ensures DigitsValue(ds[..k + 1]) == 10 * DigitsValue(ds[..k]) + (ds[k] - DIGIT_0) as int
  {
    assert ds[..k + 1][..k] == ds[..k];
  }

  /** The accumulating loop accepts exactly the int64 tokens, and no step overflows 64 bits. */
  method ParseInt64Token(token: Bytes) returns (result: Option<int64>)
    ensures result == TokenValue(token)
  {
    if |token| == 0 {
      return None;
    }
    var pos := 0;
    var negative := false;
    var sign := token[pos];
    if sign == PLUS || sign == MINUS {
      negative := sign == MINUS;
      pos := pos + 1;
      if pos >= |token| {
        return None;
      }
    }
    ghost var start := pos;
    ghost var digits := Magnitude(token);
    assert digits == token[start..];

    var int64Max: uint64 := 0x7FFF_FFFF_FFFF_FFFF;
    var int64MinAbs: uint64 := int64Max + 1;
    var limit := if negative then int64MinAbs else int64Max;
    var acc: uint64 := 0;
    while pos < |token|
      invariant start <= pos <= |token|
      invariant AllDigits(digits[..pos - start])
      invariant acc as int == DigitsValue(digits[..pos - start]) <= limit as int
    {
      hide DigitsValue;
      var c := token[pos];
      assert c == digits[pos - start];
      if c < DIGIT_0 || c > DIGIT_9 {
        return None;
      }
      OneMoreDigit(digits, pos - start);
      var digit := (c - DIGIT_0) as uint64;
      if acc > (limit - digit) / 10 {
        if AllDigits(digits) { PrefixValueBound(digits, pos - start + 1); }
        return None;
      }
      acc := acc * 10 + digit;
      pos := pos + 1;
    }
    assert digits[..pos - start] == digits;
    if !negative {
      return Some(acc as int);
    }
    if acc == int64MinAbs {
      return Some(INT64_MIN);
    }
    return Some(-(acc as int));
  }
}
