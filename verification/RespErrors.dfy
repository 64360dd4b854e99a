/** Which byte streams the parser rejects, as a relation of its own: the streams that have gone wrong at some
    item, whatever follows. */
module RespErrors {
  import opened Basics
  import opened Decimal
  import opened Resp
  import opened RespGrammar
  import WireFormat

  /** A line that starts an item: its kind byte, its text, and what follows its end. */
  predicate StartsLine(w: Bytes, kind: byte, line: Bytes, rest: Bytes) {
    w == [kind] + line + Ascii("\r\n") + rest && !HasCrlf(line)
  }

  /** The length of a bulk string is below -1 or above the limit, or its bytes are not followed by the end
      of a line. */
  predicate BrokenBulk(n: int, rest: Bytes) {
    n < -1 || n > 16_777_216 || (n >= 0 && |rest| >= n + 2 && rest[n..n + 2] != Ascii("\r\n"))
  }

  predicate BrokenLine(kind: byte, line: Bytes, rest: Bytes) {
    match TokenValue(line)
    case None => kind in Ascii(":$*")
    case Some(n) => ([kind] == Ascii("$") && BrokenBulk(n, rest)) || ([kind] == Ascii("*") && (n < -1 || n > 1_048_576))
  }

  /** The first item of `w` is no item of the protocol. */
  ghost predicate BadItem(w: Bytes) {
    w != [] && (w[0] !in Ascii("+-:$*")
                || exists line, rest :: StartsLine(w, w[0], line, rest) && BrokenLine(w[0], line, rest))
  }

  /** `w` goes wrong inside `depth` arrays: at its first item, by opening one array too many, or inside an
      array after fewer elements than this declares. */
  ghost predicate Breaks(w: Bytes, depth: nat)
    decreases |w|, 0
  {
    || BadItem(w)
    || exists h, n, body :: w == h + body && 0 < n <= 1_048_576 && IsHeader(h, STAR, n)
                            && (depth >= 4096 || BreaksWithin(body, n, depth + 1))
  }

  ghost predicate BreaksWithin(w: Bytes, n: nat, depth: nat)
    decreases |w|, 1
  {
    exists vs, done, rest :: w == done + rest && |vs| < n && DerivesAll(done, vs, depth) && Breaks(rest, depth)
  }

  // ---------------------------------------------------------------------------------------------
  // Items
  // ---------------------------------------------------------------------------------------------

  lemma LineIsRead(w: Bytes, kind: byte, line: Bytes, rest: Bytes)
    requires StartsLine(w, kind, line, rest) && IsKind(kind)
    ensures NextItem(w) == LineItem(kind, line, |line| + 3, rest)
  {
    WireFormat.KindBytes();
    LineEnds(line, rest);
    hide FindCrlf, LineItem, HasCrlf;
    assert w[1..] == line + CRLF + rest;
    assert w[|line| + 3..] == rest;
  }

  lemma LineItemInvalid(kind: byte, line: Bytes, used: nat, rest: Bytes)
    requires IsKind(kind)
    ensures LineItem(kind, line, used, rest).Invalid? <==> BrokenLine(kind, line, rest)
  {
    WireFormat.KindBytes();
    assert Ascii(":$*") == [COLON, DOLLAR, STAR];
    match TokenValue(line)
    case None =>
    case Some(n) => if kind == DOLLAR && n >= 0 { BulkInvalid(n, used, rest); }
  }

  lemma BulkInvalid(n: nat, used: nat, rest: Bytes)
    ensures BulkItem(n, used, rest).Invalid? <==> BrokenBulk(n, rest)
  {
    WireFormat.KindBytes();
    if |rest| >= n + 2 { assert rest[n..n + 2] == [rest[n], rest[n + 1]]; }
  }

  lemma KindsAre(b: byte)
    ensures IsKind(b) <==> b in Ascii("+-:$*")
  {
    WireFormat.KindBytes();
    assert Ascii("+-:$*") == [PLUS, MINUS, COLON, DOLLAR, STAR];
  }

  lemma InvalidIsBad(w: Bytes)
    ensures NextItem(w).Invalid? <==> BadItem(w)
  {
    if w != [] {
      KindsAre(w[0]);
      hide Ascii, LineItem, BrokenLine, HasCrlf, StartsLine;
      if IsKind(w[0]) {
        if BadItem(w) {
          var line, rest :| StartsLine(w, w[0], line, rest) && BrokenLine(w[0], line, rest);
          LineIsRead(w, w[0], line, rest);
          LineItemInvalid(w[0], line, |line| + 3, rest);
        }
        if NextItem(w).Invalid? {
          var line, rest := FirstLine(w);
          LineIsRead(w, w[0], line, rest);
          LineItemInvalid(w[0], line, |line| + 3, rest);
        }
      }
    }
  }

  lemma FirstLine(w: Bytes) returns (line: Bytes, rest: Bytes)
    requires w != [] && FindCrlf(w[1..]).Some?
    ensures StartsLine(w, w[0], line, rest)
  {
    WireFormat.KindBytes();
    var i := FindCrlf(w[1..]).value;
    line, rest := w[1..][..i], w[i + 3..];
    assert forall j :: 0 <= j < i ==> CrlfAt(line, j) ==> CrlfAt(w[1..], j);
    assert w == [w[0]] + line + CRLF + rest;
  }

  // ---------------------------------------------------------------------------------------------
  // Streams
  // ---------------------------------------------------------------------------------------------

  lemma {:induction false} MalformedBreaks(s: Bytes, depth: nat)
    requires ParseValue(s, depth).Malformed?
    ensures Breaks(s, depth)
    decreases |s|, 0
  {
    hide NextItem, ParseElements, BadItem, IsHeader, BreaksWithin;
    InvalidIsBad(s);
    var item := NextItem(s);
    if item.Open? {
      var h, body := s[..item.used], s[item.used..];
      ItemSound(s);
      assert s == h + body;
      if depth < 4096 { ElementsBreak(body, item.length, depth + 1); }
    }
  }

  lemma {:induction false} ElementsBreak(s: Bytes, n: nat, depth: nat)
    requires ParseElements(s, n, depth).Malformed?
    ensures BreaksWithin(s, n, depth)
    decreases |s|, 1
  {
    hide ParseValue, ParseElements, Breaks, Derives, DerivesAll;
    if n == 0 {
      NoElements(s, depth);
    } else {
      ElementsStep(s, n, depth);
      var first := ParseValue(s, depth);
      if first.Ready? {
        var k := first.consumed;
        ElementsBreak(s[k..], n - 1, depth);
        var vs, done, rest :| s[k..] == done + rest && |vs| < n - 1 && DerivesAll(done, vs, depth)
                              && Breaks(rest, depth);
        ParseSound(s, depth);
        DerivesAllCons(s[..k], first.value, done, vs, depth);
        Associates(s[..k], done, rest);
        assert s == s[..k] + s[k..];
        assert s == (s[..k] + done) + rest && |[first.value] + vs| < n;
      } else {
        MalformedBreaks(s, depth);
        var none: seq<RespValue> := [];
        NoFrames([], depth);
        assert s == [] + s && |none| < n && DerivesAll([], none, depth);
      }
    }
  }

  lemma {:induction false} BreaksMalformed(s: Bytes, depth: nat)
    requires Breaks(s, depth)
    ensures ParseValue(s, depth).Malformed?
    decreases |s|, 0
  {
    hide NextItem, ParseElements, BadItem, IsHeader, BreaksWithin;
    InvalidIsBad(s);
    if !BadItem(s) {
      var h, n, body :| s == h + body && 0 < n <= 1_048_576 && IsHeader(h, STAR, n)
                        && (depth >= 4096 || BreaksWithin(body, n, depth + 1));
      OpenComplete(h, n, body);
      HeaderNotEmpty(h, n);
      DropFront(h, body);
      if depth < 4096 { BreakInElements(body, n, depth + 1); }
    }
  }

  lemma HeaderNotEmpty(h: Bytes, n: nat)
    requires IsHeader(h, STAR, n)
    ensures |h| > 0
  {
  }

  lemma BreakInElements(s: Bytes, n: nat, depth: nat)
    requires BreaksWithin(s, n, depth)
    ensures ParseElements(s, n, depth).Malformed?
    decreases |s|, 2
  {
    hide ParseElements, Breaks, DerivesAll;
    var vs, done, rest :| s == done + rest && |vs| < n && DerivesAll(done, vs, depth) && Breaks(rest, depth);
    BreaksMalformed(rest, depth);
    FramesThenMalformed(done, vs, rest, n, depth);
  }

  /** Complete frames and then a value that is malformed. */
  lemma {:induction false} FramesThenMalformed(w: Bytes, vs: seq<RespValue>, rest: Bytes, n: nat, depth: nat)
    requires DerivesAll(w, vs, depth) && |vs| < n && ParseValue(rest, depth).Malformed?
    ensures ParseElements(w + rest, n, depth).Malformed?
    decreases |vs|
  {
    hide ParseValue, ParseElements, Derives, DerivesAll;
    ElementsStep(w + rest, n, depth);
    if vs == [] {
      NoFrames(w, depth);
      assert w + rest == rest;
    } else {
      var first, more := DerivesAllSplit(w, vs, depth);
      ParseComplete(first, vs[0], depth, more + rest);
      Associates(first, more, rest);
      DropFront(first, more + rest);
      FramesThenMalformed(more, vs[1..], rest, n - 1, depth);
    }
  }

  /** The parser rejects exactly the streams that break. */
  lemma MalformedExactly(s: Bytes)
    ensures ParseValue(s, 0).Malformed? <==> Breaks(s, 0)
  {
    hide ParseValue, Breaks;
    if ParseValue(s, 0).Malformed? { MalformedBreaks(s, 0); }
    if Breaks(s, 0) { BreaksMalformed(s, 0); }
  }

  /** So it waits for more bytes exactly when the stream neither breaks nor starts with a frame. */
  lemma WaitsExactly(s: Bytes)
    ensures ParseValue(s, 0).NeedMoreData? <==>
            !Breaks(s, 0) && forall v, n :: 0 <= n <= |s| ==> !Derives(s[..n], v, 0)
  {
    hide ParseValue, Breaks, Derives;
    MalformedExactly(s);
    forall v, n | 0 <= n <= |s| ensures Derives(s[..n], v, 0) <==> ParseValue(s, 0) == Ready(v, n) {
      ParserDecidesGrammar(s, v, n);
    }
    if ParseValue(s, 0).Ready? { ParserDecidesGrammar(s, ParseValue(s, 0).value, ParseValue(s, 0).consumed); }
  }
}
