/** The RESP2 grammar twice: as a relation between frames and values, and as a recursive-descent
    parser with three verdicts. The two are proved to agree, and the parser to invert the encoding. */
module RespGrammar {
  import opened Basics
  import opened Decimal
  import opened Resp

  datatype Verdict<+T> = Ready(value: T, consumed: nat) | NeedMoreData | Malformed

  // ---------------------------------------------------------------------------------------------
  // The grammar as a relation
  // ---------------------------------------------------------------------------------------------

  /** `w` is one kind byte, an integer token for `n`, and CRLF. */
  predicate IsHeader(w: Bytes, kind: byte, n: int) {
    && |w| >= 3
    && w[0] == kind
    && TokenValue(w[1..|w| - 2]) == Some(n)
    && w[|w| - 2..] == CRLF
  }

  /** `w` is a frame for a value without elements. */
  ghost predicate DerivesLeaf(w: Bytes, v: RespValue) {
    match v
    case Unknown => false
    case SimpleString(text) => w == [PLUS] + text + CRLF && !HasCrlf(text)
    case Error(text) => w == [MINUS] + text + CRLF && !HasCrlf(text)
    case Integer(n) => IsHeader(w, COLON, n)
    case BulkString(text) =>
      && |text| <= MAX_BULK_SIZE
      && exists h :: IsHeader(h, DOLLAR, |text|) && w == h + (text + CRLF)
    case NullBulkString => IsHeader(w, DOLLAR, -1)
    case NullArray => IsHeader(w, STAR, -1)
    case Array(elements) => elements == [] && IsHeader(w, STAR, 0)
  }

  /** `w` is, from its first byte to its last, a frame for `v` inside `depth` non-empty arrays. */
  ghost predicate Derives(w: Bytes, v: RespValue, depth: nat)
    decreases v, 0
  {
    if v.Array? && v.elements != [] then
      && |v.elements| <= MAX_ARRAY_LENGTH
      && depth < MAX_NESTING_DEPTH
      && exists h, body :: IsHeader(h, STAR, |v.elements|) && DerivesAll(body, v.elements, depth + 1) && w == h + body
    else
      DerivesLeaf(w, v)
  }

  /** `w` splits into one frame after another, one for each of `vs`. */
  ghost predicate DerivesAll(w: Bytes, vs: seq<RespValue>, depth: nat)
    decreases vs, 1
  {
    if vs == [] then w == []
    else exists first, rest :: Derives(first, vs[0], depth) && DerivesAll(rest, vs[1..], depth) && w == first + rest
  }

  // ---------------------------------------------------------------------------------------------
  // The grammar as a parser
  // ---------------------------------------------------------------------------------------------

  /** The position of the first CRLF pair. */
  function FindCrlf(s: Bytes): (r: Option<nat>)
    ensures r.Some? ==> CrlfAt(s, r.value) && forall i :: 0 <= i < r.value ==> !CrlfAt(s, i)
    ensures r.None? ==> forall i :: 0 <= i < |s| ==> !CrlfAt(s, i)
  {
    if |s| < 2 then None
    else if CrlfAt(s, 0) then Some(0)
    else
      assert forall i :: 0 < i < |s| ==> CrlfAt(s, i) == CrlfAt(s[1..], i - 1);
      match FindCrlf(s[1..])
      case None => None
      case Some(i) => Some(i + 1)
  }

  /** The next thing in a buffer: a whole value without elements, or the header of a non-empty array. */
  datatype Item = Leaf(value: RespValue, used: nat) | Open(length: nat, used: nat) | Incomplete | Invalid

  predicate IsKind(b: byte) {
    b == PLUS || b == MINUS || b == COLON || b == DOLLAR || b == STAR
  }

  function NextItem(s: Bytes): (r: Item)
    ensures r.Leaf? || r.Open? ==> 0 < r.used <= |s|
    ensures r.Open? ==> 0 < r.length <= MAX_ARRAY_LENGTH
  {
    if s == [] then Incomplete
    else if !IsKind(s[0]) then Invalid
    else
      match FindCrlf(s[1..])
      case None => Incomplete
      case Some(length) => LineItem(s[0], s[1..][..length], length + 3, s[length + 3..])
  }

  /** The item that starts with the kind byte and line given, `used` bytes long, before `rest`. */
  function LineItem(kind: byte, line: Bytes, used: nat, rest: Bytes): (r: Item)
    requires IsKind(kind)
    ensures r.Leaf? || r.Open? ==> used <= r.used <= used + |rest|
    ensures r.Open? ==> 0 < r.length <= MAX_ARRAY_LENGTH
  {
    if kind == PLUS then Leaf(SimpleString(line), used)
    else if kind == MINUS then Leaf(Error(line), used)
    else
      match TokenValue(line)
      case None => Invalid
      case Some(n) =>
        if kind == COLON then Leaf(Integer(n), used)
        else if n == -1 then Leaf(if kind == DOLLAR then NullBulkString else NullArray, used)
        else if n < 0 then Invalid
        else if kind == DOLLAR then BulkItem(n, used, rest)
        else if n > MAX_ARRAY_LENGTH then Invalid
        else if n == 0 then Leaf(Array([]), used)
        else Open(n, used)
  }

  function BulkItem(n: nat, used: nat, rest: Bytes): (r: Item)
    ensures r.Leaf? || r.Invalid? || r.Incomplete?
    ensures r.Leaf? ==> used <= r.used <= used + |rest|
  {
    if n > MAX_BULK_SIZE then Invalid
    else if |rest| < n + 2 then Incomplete
    else if rest[n] != CR || rest[n + 1] != LF then Invalid
    else Leaf(BulkString(rest[..n]), used + n + 2)
  }

  /** Parses one value at the start of `s`, itself inside `depth` non-empty arrays. */
  function ParseValue(s: Bytes, depth: nat): (r: Verdict<RespValue>)
    ensures r.Ready? ==> 0 < r.consumed <= |s|
    decreases |s|, 0
  {
    match NextItem(s)
    case Incomplete => NeedMoreData
    case Invalid => Malformed
    case Leaf(v, k) => Ready(v, k)
    case Open(n, k) =>
      if depth + 1 > MAX_NESTING_DEPTH then Malformed
      else
        match ParseElements(s[k..], n, depth + 1)
        case NeedMoreData => NeedMoreData
        case Malformed => Malformed
        case Ready(vs, m) => Ready(Array(vs), k + m)
  }

  /** Parses `n` values one after another. */
  function ParseElements(s: Bytes, n: nat, depth: nat): (r: Verdict<seq<RespValue>>)
    ensures r.Ready? ==> r.consumed <= |s| && |r.value| == n
    decreases |s|, 1
  {
    if n == 0 then Ready([], 0)
    else
      match ParseValue(s, depth)
      case NeedMoreData => NeedMoreData
      case Malformed => Malformed
      case Ready(v, k) => Prepend(v, k, ParseElements(s[k..], n - 1, depth))
  }

  function Prepend(v: RespValue, k: nat, rest: Verdict<seq<RespValue>>): Verdict<seq<RespValue>> {
    if rest.Ready? then Ready([v] + rest.value, k + rest.consumed) else rest
  }

  lemma NoElements(s: Bytes, depth: nat)
    ensures ParseElements(s, 0, depth) == Ready([], 0)
    ensures s[..0] == [] && DerivesAll(s[..0], [], depth)
  {
  }

  lemma NoFrames(w: Bytes, depth: nat)
    ensures DerivesAll(w, [], depth) <==> w == []
  {
  }

  /** One unfolding of ParseElements, for proofs that hide its definition. */
  lemma ElementsStep(s: Bytes, n: nat, depth: nat)
    requires n > 0
    ensures var first := ParseValue(s, depth);
            ParseElements(s, n, depth) == match first
              case NeedMoreData => NeedMoreData
              case Malformed => Malformed
              case Ready(v, k) => Prepend(v, k, ParseElements(s[k..], n - 1, depth))
  {
  }

  // ---------------------------------------------------------------------------------------------
  // Verdict stability
  // ---------------------------------------------------------------------------------------------

  lemma DropAppend(s: Bytes, tail: Bytes, k: nat)
    requires k <= |s|
    ensures (s + tail)[k..] == s[k..] + tail
  {
  }

  lemma FindCrlfExtends(s: Bytes, tail: Bytes)
    requires FindCrlf(s).Some?
    ensures FindCrlf(s + tail) == FindCrlf(s)
  {
    var i := FindCrlf(s).value;
    assert CrlfAt(s + tail, i);
    assert forall j :: 0 <= j < i ==> CrlfAt(s + tail, j) == CrlfAt(s, j);
  }

  lemma LineStable(kind: byte, line: Bytes, used: nat, rest: Bytes, tail: Bytes)
    requires IsKind(kind) && !LineItem(kind, line, used, rest).Incomplete?
    ensures LineItem(kind, line, used, rest + tail) == LineItem(kind, line, used, rest)
  {
    assert forall n: nat | n <= |rest| :: (rest + tail)[..n] == rest[..n];
  }

  lemma ItemStable(s: Bytes, tail: Bytes)
    requires !NextItem(s).Incomplete?
    ensures NextItem(s + tail) == NextItem(s)
  {
    if IsKind(s[0]) {
      DropAppend(s, tail, 1);
      FindCrlfExtends(s[1..], tail);
      var length := FindCrlf(s[1..]).value;
      hide FindCrlf, LineItem;
      assert (s[1..] + tail)[..length] == s[1..][..length];
      DropAppend(s, tail, length + 3);
      LineStable(s[0], s[1..][..length], length + 3, s[length + 3..], tail);
    }
  }

  /** Once the bytes received decide a verdict, no further byte changes it. */
  lemma {:induction false} VerdictStable(s: Bytes, tail: Bytes, depth: nat)
    requires !ParseValue(s, depth).NeedMoreData?
    ensures ParseValue(s + tail, depth) == ParseValue(s, depth)
    decreases |s|, 0
  {
    hide NextItem, ParseElements;
    ItemStable(s, tail);
    var item := NextItem(s);
    if item.Open? && depth + 1 <= MAX_NESTING_DEPTH {
      DropAppend(s, tail, item.used);
      ElementsStable(s[item.used..], item.length, tail, depth + 1);
    }
  }

  /** The same unfolding on an extended buffer whose first value is already decided. */
  lemma ElementsStepExtended(s: Bytes, n: nat, tail: Bytes, depth: nat)
    requires n > 0 && ParseValue(s + tail, depth) == ParseValue(s, depth)
    ensures var first := ParseValue(s, depth);
            ParseElements(s + tail, n, depth) == match first
              case NeedMoreData => NeedMoreData
              case Malformed => Malformed
              case Ready(v, k) => Prepend(v, k, ParseElements(s[k..] + tail, n - 1, depth))
  {
    hide ParseValue, ParseElements;
    ElementsStep(s + tail, n, depth);
    var first := ParseValue(s, depth);
    if first.Ready? { DropAppend(s, tail, first.consumed); }
  }

  lemma {:induction false} ElementsStable(s: Bytes, n: nat, tail: Bytes, depth: nat)
    requires !ParseElements(s, n, depth).NeedMoreData?
    ensures ParseElements(s + tail, n, depth) == ParseElements(s, n, depth)
    decreases |s|, 1
  {
    hide ParseValue, ParseElements;
    if n == 0 {
      NoElements(s, depth);
      NoElements(s + tail, depth);
    } else {
      ElementsStep(s, n, depth);
      VerdictStable(s, tail, depth);
      ElementsStepExtended(s, n, tail, depth);
      var first := ParseValue(s, depth);
      if first.Ready? {
        ElementsStable(s[first.consumed..], n - 1, tail, depth);
      }
    }
  }

  /** Every strict prefix of a complete frame asks for more data. */
  lemma StrictPrefixNeedsMore(s: Bytes, k: nat, depth: nat)
    requires ParseValue(s, depth).Ready? && k < ParseValue(s, depth).consumed
    ensures ParseValue(s[..k], depth) == NeedMoreData
  {
    assert s[..k] + s[k..] == s;
    if !ParseValue(s[..k], depth).NeedMoreData? {
      VerdictStable(s[..k], s[k..], depth);
    }
  }

  // ---------------------------------------------------------------------------------------------
  // The parser decides the grammar
  // ---------------------------------------------------------------------------------------------

  lemma DerivesAllCons(first: Bytes, v: RespValue, rest: Bytes, vs: seq<RespValue>, depth: nat)
    requires Derives(first, v, depth) && DerivesAll(rest, vs, depth)
    ensures DerivesAll(first + rest, [v] + vs, depth)
  {
  }

  lemma DerivesAllSplit(w: Bytes, vs: seq<RespValue>, depth: nat) returns (first: Bytes, rest: Bytes)
    requires DerivesAll(w, vs, depth) && vs != []
    ensures Derives(first, vs[0], depth) && DerivesAll(rest, vs[1..], depth) && w == first + rest
  {
    hide Derives;
    first, rest :| Derives(first, vs[0], depth) && DerivesAll(rest, vs[1..], depth) && w == first + rest;
  }

  lemma ItemSound(s: Bytes)
    ensures var item := NextItem(s);
            && (item.Leaf? ==> DerivesLeaf(s[..item.used], item.value))
            && (item.Open? ==> IsHeader(s[..item.used], STAR, item.length))
  {
    if s != [] && IsKind(s[0]) && FindCrlf(s[1..]).Some? {
      var length := FindCrlf(s[1..]).value;
      var line, h := s[1..][..length], length + 3;
      assert forall i :: 0 <= i < length ==> CrlfAt(line, i) ==> CrlfAt(s[1..], i);
      assert s[..h] == [s[0]] + line + CRLF;
      LineSound(s, s[0], line, h);
    }
  }

  lemma LineSound(s: Bytes, kind: byte, line: Bytes, h: nat)
    requires h <= |s| && s[..h] == [kind] + line + CRLF && IsKind(kind) && !HasCrlf(line)
    ensures var item := LineItem(kind, line, h, s[h..]);
            && (item.Leaf? ==> DerivesLeaf(s[..item.used], item.value))
            && (item.Open? ==> IsHeader(s[..item.used], STAR, item.length))
  {
    assert s[..h][1..h - 2] == line;
    var item := LineItem(kind, line, h, s[h..]);
    if item.Leaf? && item.value.BulkString? {
      BulkSound(s, TokenValue(line).value, h);
    }
  }

  lemma BulkSound(s: Bytes, n: nat, h: nat)
    requires h <= |s| && BulkItem(n, h, s[h..]).Leaf?
    ensures s[..h + n + 2] == s[..h] + (s[h..][..n] + CRLF)
  {
  }

  lemma TakeSplit(s: Bytes, h: nat, k: nat)
    requires h <= k <= |s|
    ensures s[..k] == s[..h] + s[h..][..k - h]
  {
  }

  lemma {:induction false} ParseSound(s: Bytes, depth: nat)
    requires ParseValue(s, depth).Ready?
    ensures Derives(s[..ParseValue(s, depth).consumed], ParseValue(s, depth).value, depth)
    decreases |s|, 0
  {
    hide NextItem, ParseElements, IsHeader, DerivesLeaf, DerivesAll;
    ItemSound(s);
    var item := NextItem(s);
    if item.Open? {
      var h := item.used;
      ElementsSound(s[h..], item.length, depth + 1);
      TakeSplit(s, h, ParseValue(s, depth).consumed);
    }
  }

  lemma {:induction false} ElementsSound(s: Bytes, n: nat, depth: nat)
    requires ParseElements(s, n, depth).Ready?
    ensures var r := ParseElements(s, n, depth); DerivesAll(s[..r.consumed], r.value, depth)
    decreases |s|, 1
  {
    hide ParseValue, ParseElements, Derives, DerivesAll;
    if n == 0 {
      NoElements(s, depth);
    } else {
      ElementsStep(s, n, depth);
      var first := ParseValue(s, depth);
      var k := first.consumed;
      var rest := ParseElements(s[k..], n - 1, depth);
      ParseSound(s, depth);
      ElementsSound(s[k..], n - 1, depth);
      TakeSplit(s, k, k + rest.consumed);
      DerivesAllCons(s[..k], first.value, s[k..][..rest.consumed], rest.value, depth);
    }
  }

  lemma LineEnds(line: Bytes, tail: Bytes)
    requires !HasCrlf(line)
    ensures FindCrlf(line + CRLF + tail) == Some(|line|)
    ensures (line + CRLF + tail)[..|line|] == line
    ensures (line + CRLF + tail)[|line| + 2..] == tail
  {
    var s := line + CRLF + tail;
    assert CrlfAt(s, |line|);
    assert forall i :: 0 <= i < |line| ==> CrlfAt(s, i) ==> CrlfAt(line, i);
  }

  lemma TokenHasNoCrlf(token: Bytes)
    requires IsInt64Token(token)
    ensures !HasCrlf(token)
  {
  }

  /** How the parser reads past a header. */
  lemma HeaderRead(w: Bytes, kind: byte, n: int64, tail: Bytes)
    requires IsHeader(w, kind, n) && kind in {COLON, DOLLAR, STAR}
    ensures NextItem(w + tail) == LineItem(kind, w[1..|w| - 2], |w|, tail)
  {
    var token := w[1..|w| - 2];
    TokenHasNoCrlf(token);
    LineEnds(token, tail);
    hide IsHeader, FindCrlf, LineItem, HasCrlf;
    assert w == [kind] + token + CRLF;
    assert (w + tail)[1..] == token + CRLF + tail;
    assert (w + tail)[|w|..] == tail;
  }

  lemma TextComplete(kind: byte, text: Bytes, tail: Bytes)
    requires !HasCrlf(text) && (kind == PLUS || kind == MINUS)
    ensures var w := [kind] + text + CRLF;
            NextItem(w + tail) == Leaf(if kind == PLUS then SimpleString(text) else Error(text), |w|)
  {
    var w := [kind] + text + CRLF;
    LineEnds(text, tail);
    assert (w + tail)[1..] == text + CRLF + tail;
  }

  lemma BulkComplete(h: Bytes, text: Bytes, tail: Bytes)
    requires IsHeader(h, DOLLAR, |text|) && |text| <= MAX_BULK_SIZE
    ensures NextItem(h + (text + CRLF) + tail) == Leaf(BulkString(text), |h| + |text| + 2)
  {
    HeaderRead(h, DOLLAR, |text|, text + CRLF + tail);
    Associates(h, text + CRLF, tail);
    DropFront(h, text + CRLF + tail);
    assert (text + CRLF + tail)[..|text|] == text;
  }

  lemma LeafComplete(w: Bytes, v: RespValue, tail: Bytes)
    requires DerivesLeaf(w, v)
    ensures NextItem(w + tail) == Leaf(v, |w|)
  {
    match v
    case SimpleString(text) => TextComplete(PLUS, text, tail);
    case Error(text) => TextComplete(MINUS, text, tail);
    case Integer(n) => HeaderRead(w, COLON, n, tail);
    case NullBulkString => HeaderRead(w, DOLLAR, -1, tail);
    case NullArray => HeaderRead(w, STAR, -1, tail);
    case Array(_) => HeaderRead(w, STAR, 0, tail);
    case BulkString(text) =>
      var h :| IsHeader(h, DOLLAR, |text|) && w == h + (text + CRLF);
      BulkComplete(h, text, tail);
  }

  lemma OpenComplete(h: Bytes, n: nat, tail: Bytes)
    requires 0 < n <= MAX_ARRAY_LENGTH && IsHeader(h, STAR, n)
    ensures NextItem(h + tail) == Open(n, |h|)
  {
    HeaderRead(h, STAR, n, tail);
  }

  lemma {:induction false} ParseComplete(w: Bytes, v: RespValue, depth: nat, tail: Bytes)
    requires Derives(w, v, depth)
    ensures ParseValue(w + tail, depth) == Ready(v, |w|)
    decreases v, 0
  {
    hide ParseElements, NextItem, IsHeader, DerivesLeaf;
    if v.Array? && v.elements != [] {
      var n := |v.elements|;
      var h, body :| IsHeader(h, STAR, n) && DerivesAll(body, v.elements, depth + 1) && w == h + body;
      OpenComplete(h, n, body + tail);
      Associates(h, body, tail);
      DropFront(h, body + tail);
      ElementsComplete(body, v.elements, depth + 1, tail);
    } else {
      LeafComplete(w, v, tail);
    }
  }

  lemma {:induction false} ElementsComplete(w: Bytes, vs: seq<RespValue>, depth: nat, tail: Bytes)
    requires DerivesAll(w, vs, depth)
    ensures ParseElements(w + tail, |vs|, depth) == Ready(vs, |w|)
    decreases vs, 1
  {
    hide ParseValue, ParseElements, Derives, DerivesAll;
    if vs == [] {
      NoElements(w + tail, depth);
      NoFrames(w, depth);
    } else {
      ElementsStep(w + tail, |vs|, depth);
      var first, rest := DerivesAllSplit(w, vs, depth);
      assert vs == [vs[0]] + vs[1..];
      Associates(first, rest, tail);
      DropFront(first, rest + tail);
      ParseComplete(first, vs[0], depth, rest + tail);
      ElementsComplete(rest, vs[1..], depth, tail);
    }
  }

  /** The parser is ready with `v` after `n` bytes exactly when those bytes are a frame for `v`. */
  lemma ParserDecidesGrammar(s: Bytes, v: RespValue, n: nat)
    ensures ParseValue(s, 0) == Ready(v, n) <==> n <= |s| && Derives(s[..n], v, 0)
  {
    hide ParseValue, Derives;
    if ParseValue(s, 0) == Ready(v, n) {
      ParseSound(s, 0);
    }
    if n <= |s| && Derives(s[..n], v, 0) {
      ParseComplete(s[..n], v, 0, s[n..]);
      assert s[..n] + s[n..] == s;
    }
  }

  /** A byte stream starts with at most one frame, and that frame has one meaning. */
  lemma GrammarUnambiguous(s: Bytes, v: RespValue, n: nat, v': RespValue, n': nat)
    requires n <= |s| && Derives(s[..n], v, 0)
    requires n' <= |s| && Derives(s[..n'], v', 0)
    ensures v == v' && n == n'
  {
    ParserDecidesGrammar(s, v, n);
    ParserDecidesGrammar(s, v', n');
  }

  /** Bytes reported malformed are no beginning of any frame, whatever follows. */
  lemma MalformedStartsNoFrame(s: Bytes, tail: Bytes, v: RespValue, n: nat)
    requires ParseValue(s, 0).Malformed? && n <= |s + tail|
    ensures !Derives((s + tail)[..n], v, 0)
  {
    hide ParseValue, Derives;
    VerdictStable(s, tail, 0);
    ParserDecidesGrammar(s + tail, v, n);
  }

  // ---------------------------------------------------------------------------------------------
  // Round trip
  // ---------------------------------------------------------------------------------------------

  lemma HeaderIsHeader(kind: byte, n: int64)
    ensures IsHeader(Header(kind, n), kind, n)
  {
    PrintInverse(n);
    assert Header(kind, n)[1..|Header(kind, n)| - 2] == Print(n);
  }

  lemma {:induction false} EncodeDerives(v: RespValue, depth: nat)
    requires WithinLimits(v, depth)
    ensures Derives(Encode(v), v, depth)
    decreases v, 0
  {
    match v
    case SimpleString(_) =>
    case Error(_) =>
    case Integer(n) => HeaderIsHeader(COLON, n);
    case BulkString(text) =>
      HeaderIsHeader(DOLLAR, |text|);
      var h := Header(DOLLAR, |text|);
      assert Encode(v) == h + (text + CRLF);
    case NullBulkString => MinusOneHeaders();
    case NullArray => MinusOneHeaders();
    case Array(elements) =>
      HeaderIsHeader(STAR, |elements|);
      EncodeAllDerives(elements, depth + 1);
      assert Encode(v) == Header(STAR, |elements|) + EncodeAll(elements);
      if elements == [] { assert Encode(v) == Header(STAR, 0); }
  }

  lemma MinusOneHeaders()
    ensures IsHeader(NULL_BULK_STRING, DOLLAR, -1) && IsHeader(NULL_ARRAY, STAR, -1)
  {
    HeaderIsHeader(DOLLAR, -1);
    HeaderIsHeader(STAR, -1);
    assert Print(-1) == Ascii("-1");
  }

  lemma {:induction false} EncodeAllDerives(vs: seq<RespValue>, depth: nat)
    requires forall v <- vs :: WithinLimits(v, depth)
    ensures DerivesAll(EncodeAll(vs), vs, depth)
    decreases vs, 1
  {
    if vs != [] {
      EncodeDerives(vs[0], depth);
      EncodeAllDerives(vs[1..], depth);
      assert EncodeAll(vs) == Encode(vs[0]) + EncodeAll(vs[1..]);
    }
  }

  lemma {:induction false} DerivesWithinLimits(w: Bytes, v: RespValue, depth: nat)
    requires Derives(w, v, depth)
    ensures WithinLimits(v, depth)
    decreases v, 0
  {
    if v.Array? && v.elements != [] {
      var h, body :| IsHeader(h, STAR, |v.elements|) && DerivesAll(body, v.elements, depth + 1) && w == h + body;
      DerivesAllWithinLimits(body, v.elements, depth + 1);
    }
  }

  lemma {:induction false} DerivesAllWithinLimits(w: Bytes, vs: seq<RespValue>, depth: nat)
    requires DerivesAll(w, vs, depth)
    ensures forall v <- vs :: WithinLimits(v, depth)
    decreases vs, 1
  {
    if vs != [] {
      var first, rest :| Derives(first, vs[0], depth) && DerivesAll(rest, vs[1..], depth) && w == first + rest;
      DerivesWithinLimits(first, vs[0], depth);
      DerivesAllWithinLimits(rest, vs[1..], depth);
    }
  }

  /** Round trip before any tail: the encoding parses back to the value, using exactly its own bytes,
      if and only if the value is within the limits. */
  lemma RoundTrip(v: RespValue, tail: Bytes)
    ensures ParseValue(Encode(v) + tail, 0) == Ready(v, |Encode(v)|) <==> WithinLimits(v, 0)
  {
    if WithinLimits(v, 0) {
      EncodeDerives(v, 0);
      ParseComplete(Encode(v), v, 0, tail);
    } else if ParseValue(Encode(v) + tail, 0) == Ready(v, |Encode(v)|) {
      ParseSound(Encode(v) + tail, 0);
      DerivesWithinLimits((Encode(v) + tail)[..|Encode(v)|], v, 0);
    }
  }
}
