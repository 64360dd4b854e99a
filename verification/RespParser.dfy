/** The incremental parser: a loop with an explicit stack of open arrays, proved to return exactly
    the verdict of the recursive grammar. */
module RespParser {
  import opened Basics
  import opened Decimal
  import opened Resp
  import opened RespGrammar

  /** An array whose last `remaining` elements have not been read yet. Room for all of them, `reserved`,
      is set aside when its header is read. */
  datatype ArrayFrame = ArrayFrame(reserved: nat, remaining: nat, elements: seq<RespValue>)

  /** What holds of the stack between two items: no frame is complete, and each has read all but
      `remaining` of the elements its header declared. */
  predicate FramesOpen(stack: seq<ArrayFrame>) {
    && |stack| <= MAX_NESTING_DEPTH
    && forall i :: 0 <= i < |stack| ==>
         && 0 < stack[i].remaining
         && stack[i].remaining + |stack[i].elements| == stack[i].reserved <= MAX_ARRAY_LENGTH
  }

  // ---------------------------------------------------------------------------------------------
  // What a stack still promises
  // ---------------------------------------------------------------------------------------------

  /** The verdict on `s` when `v` has just been completed at `pos` inside the arrays of `stack`. */
  ghost function Attach(s: Bytes, pos: nat, v: RespValue, stack: seq<ArrayFrame>): Verdict<RespValue>
    requires pos <= |s| && FramesOpen(stack)
    decreases |stack|
  {
    if stack == [] then Ready(v, pos)
    else
      var top := stack[|stack| - 1];
      match ParseElements(s[pos..], top.remaining - 1, |stack|)
      case NeedMoreData => NeedMoreData
      case Malformed => Malformed
      case Ready(vs, k) => Attach(s, pos + k, Array(top.elements + [v] + vs), stack[..|stack| - 1])
  }

  /** The verdict on `s` when the next value starts at `pos` inside the arrays of `stack`. */
  ghost function Resume(s: Bytes, pos: nat, stack: seq<ArrayFrame>): Verdict<RespValue>
    requires pos <= |s| && FramesOpen(stack)
  {
    match ParseValue(s[pos..], |stack|)
    case NeedMoreData => NeedMoreData
    case Malformed => Malformed
    case Ready(v, k) => Attach(s, pos + k, v, stack)
  }

  lemma AttachDone(s: Bytes, pos: nat, v: RespValue, stack: seq<ArrayFrame>)
    requires pos <= |s| && FramesOpen(stack) && stack != [] && stack[|stack| - 1].remaining == 1
    ensures var top := stack[|stack| - 1];
            Attach(s, pos, v, stack) == Attach(s, pos, Array(top.elements + [v]), stack[..|stack| - 1])
  {
    var top := stack[|stack| - 1];
    assert top.elements + [v] + [] == top.elements + [v];
  }

  /** One unfolding of Attach, for a stack given as its top and the rest. */
  lemma AttachStep(s: Bytes, pos: nat, v: RespValue, stack: seq<ArrayFrame>, rest: seq<ArrayFrame>, top: ArrayFrame)
    requires pos <= |s| && FramesOpen(rest) && FramesOpen(stack) && top.remaining > 0
    requires stack != [] && stack[..|stack| - 1] == rest && stack[|stack| - 1] == top
    ensures Attach(s, pos, v, stack) ==
            match ParseElements(s[pos..], top.remaining - 1, |stack|)
            case NeedMoreData => NeedMoreData
            case Malformed => Malformed
            case Ready(vs, k) => Attach(s, pos + k, Array(top.elements + [v] + vs), rest)
  {
    hide ParseElements, FramesOpen, RespGrammar.ParseValue, Resume;
  }

  /** Reading the first of the elements still open in `top`, then the others. */
  lemma ElementsThenAttach(s: Bytes, pos: nat, rest: seq<ArrayFrame>, top: ArrayFrame)
    requires pos <= |s| && FramesOpen(rest) && FramesOpen(rest + [top]) && top.remaining > 0
    ensures Resume(s, pos, rest + [top]) ==
            match ParseElements(s[pos..], top.remaining, |rest| + 1)
            case NeedMoreData => NeedMoreData
            case Malformed => Malformed
            case Ready(vs, k) => Attach(s, pos + k, Array(top.elements + vs), rest)
  {
    hide ParseValue, ParseElements, Attach, FramesOpen;
    var ArrayFrame(_, n, done) := top;
    ElementsStep(s[pos..], n, |rest| + 1);
    var first := ParseValue(s[pos..], |rest| + 1);
    if first.Ready? {
      AttachStep(s, pos + first.consumed, first.value, rest + [top], rest, top);
      assert s[pos..][first.consumed..] == s[pos + first.consumed..];
      var others := ParseElements(s[pos + first.consumed..], n - 1, |rest| + 1);
      if others.Ready? {
        Associates(done, [first.value], others.value);
      }
    }
  }

  lemma AttachMore(s: Bytes, pos: nat, v: RespValue, stack: seq<ArrayFrame>)
    requires pos <= |s| && FramesOpen(stack) && stack != [] && stack[|stack| - 1].remaining > 1
    ensures var top := stack[|stack| - 1];
            var stack' := stack[|stack| - 1 := top.(remaining := top.remaining - 1, elements := top.elements + [v])];
            FramesOpen(stack') && Attach(s, pos, v, stack) == Resume(s, pos, stack')
  {
    hide ParseValue, ParseElements, Attach, Resume;
    var top, rest := stack[|stack| - 1], stack[..|stack| - 1];
    var top' := top.(remaining := top.remaining - 1, elements := top.elements + [v]);
    assert stack == rest + [top] && stack[|stack| - 1 := top'] == rest + [top'];
    AttachStep(s, pos, v, stack, rest, top);
    ElementsThenAttach(s, pos, rest, top');
  }

  lemma ResumeOpen(s: Bytes, pos: nat, stack: seq<ArrayFrame>, n: nat, k: nat)
    requires pos <= |s| && FramesOpen(stack) && NextItem(s[pos..]) == Open(n, k) && |stack| < MAX_NESTING_DEPTH
    ensures var stack' := stack + [ArrayFrame(n, n, [])];
            FramesOpen(stack') && Resume(s, pos, stack) == Resume(s, pos + k, stack')
  {
    hide NextItem, ParseElements, Attach;
    assert s[pos..][k..] == s[pos + k..];
    ElementsThenAttach(s, pos + k, stack, ArrayFrame(n, n, []));
    var all := ParseElements(s[pos + k..], n, |stack| + 1);
    if all.Ready? { assert [] + all.value == all.value; }
  }

  // ---------------------------------------------------------------------------------------------
  // The loops
  // ---------------------------------------------------------------------------------------------

  method FindCrlfFrom(s: Bytes, start: nat) returns (r: Option<nat>)
    requires start <= |s|
    ensures r == match FindCrlf(s[start..]) case None => None case Some(i) => Some(start + i)
  {
    ghost var found := FindCrlf(s[start..]);
    assert forall j :: 0 <= j < |s| - start ==> CrlfAt(s[start..], j) == CrlfAt(s, start + j);
    if start >= |s| {
      return None;
    }
    var i := start;
    while i + 1 < |s|
      invariant start <= i <= |s|
      invariant forall j :: start <= j < i ==> !CrlfAt(s, j)
    {
      if s[i] == CR && s[i + 1] == LF {
        assert CrlfAt(s[start..], i - start);
        assert found.Some? && found.value == i - start;
        return Some(i);
      }
      i := i + 1;
    }
    assert forall j :: start <= j < |s| ==> !CrlfAt(s, j);
    return None;
  }

  /** Hands a completed value to the innermost open array, closing every array this completes. */
  method AttachValue(ghost s: Bytes, ghost pos: nat, value: RespValue, frames: seq<ArrayFrame>)
    returns (stack: seq<ArrayFrame>, root: Option<RespValue>)
    requires pos <= |s| && FramesOpen(frames)
    ensures FramesOpen(stack)
    ensures root.None? ==> stack != [] && Attach(s, pos, value, frames) == Resume(s, pos, stack)
    ensures root.Some? ==> stack == [] && Attach(s, pos, value, frames) == Ready(root.value, pos)
  {
    stack := frames;
    var current := value;
    while true
      invariant FramesOpen(stack)
      invariant Attach(s, pos, value, frames) == Attach(s, pos, current, stack)
      decreases |stack|
    {
      if |stack| == 0 {
        return stack, Some(current);
      }
      var frame := stack[|stack| - 1];
      if frame.remaining > 1 { AttachMore(s, pos, current, stack); } else { AttachDone(s, pos, current, stack); }
      frame := frame.(remaining := frame.remaining - 1, elements := frame.elements + [current]);
      if frame.remaining > 0 {
        return stack[|stack| - 1 := frame], None;
      }
      current := Array(frame.elements);
      stack := stack[..|stack| - 1];
    }
  }

  lemma LineAt(s: Bytes, pos: nat, lineEnd: nat)
    requires pos < |s| && IsKind(s[pos])
    requires pos < lineEnd && FindCrlf(s[pos + 1..]) == Some(lineEnd - pos - 1)
    ensures NextItem(s[pos..]) == LineItem(s[pos], s[pos + 1..lineEnd], lineEnd + 2 - pos, s[lineEnd + 2..])
  {
    assert s[pos..][1..] == s[pos + 1..];
    assert s[pos + 1..][..lineEnd - pos - 1] == s[pos + 1..lineEnd];
    assert s[pos..][lineEnd + 2 - pos..] == s[lineEnd + 2..];
  }

  lemma NoItem(s: Bytes, pos: nat)
    requires pos <= |s|
    ensures pos == |s| || (IsKind(s[pos]) && FindCrlf(s[pos + 1..]).None?) ==> NextItem(s[pos..]) == Incomplete
    ensures pos < |s| && !IsKind(s[pos]) ==> NextItem(s[pos..]) == Invalid
  {
  }

  /** What the next item decides about the whole run. */
  lemma ItemVerdict(s: Bytes, pos: nat, stack: seq<ArrayFrame>)
    requires pos <= |s| && FramesOpen(stack)
    ensures var item := NextItem(s[pos..]);
            && (item.Incomplete? ==> Resume(s, pos, stack) == NeedMoreData)
            && (item.Invalid? ==> Resume(s, pos, stack) == Malformed)
            && (item.Open? && |stack| == MAX_NESTING_DEPTH ==> Resume(s, pos, stack) == Malformed)
            && (item.Leaf? ==> Resume(s, pos, stack) == Attach(s, pos + item.used, item.value, stack))
  {
  }

  lemma RunStarts(s: Bytes)
    ensures ParseValue(s, 0) == Resume(s, 0, [])
  {
  }

  /** The switch on the type byte: one value without elements, or one array header. */
  method ReadItem(s: Bytes, start: nat) returns (item: Item)
    requires start < |s|
    ensures item == NextItem(s[start..])
  {
    hide NextItem, FindCrlf, TokenValue;
    NoItem(s, start);
    var kind, pos := s[start], start + 1;
    if !IsKind(kind) {
      return Invalid;
    }
    var lineEnd := FindCrlfFrom(s, pos);
    if lineEnd.None? {
      return Incomplete;
    }
    LineAt(s, start, lineEnd.value);
    if kind == PLUS || kind == MINUS {
      var text := s[pos..lineEnd.value];
      return Leaf(if kind == PLUS then SimpleString(text) else Error(text), lineEnd.value + 2 - start);
    }
    var number := ParseInt64Token(s[pos..lineEnd.value]);
    if number.None? {
      return Invalid;
    }
    var n: int := number.value;
    pos := lineEnd.value + 2;
    if kind == COLON {
      return Leaf(Integer(n), pos - start);
    }
    if n == -1 {
      return Leaf(if kind == DOLLAR then NullBulkString else NullArray, pos - start);
    }
    if kind == DOLLAR {
      if n < 0 || n > MAX_BULK_SIZE {
        return Invalid;
      }
      if |s| - pos < n + 2 {
        return Incomplete;
      }
      if s[pos + n] != CR || s[pos + n + 1] != LF {
        return Invalid;
      }
      assert s[pos..][..n] == s[pos..pos + n];
      return Leaf(BulkString(s[pos..pos + n]), pos + n + 2 - start);
    }
    if n < 0 || n > MAX_ARRAY_LENGTH {
      return Invalid;
    }
    if n == 0 {
      return Leaf(Array([]), pos - start);
    }
    return Open(n, pos - start);
  }

  /** The whole incremental parse: the stack machine refines the recursive grammar. */
  method ParseImpl(s: Bytes) returns (result: Verdict<RespValue>)
    ensures result == ParseValue(s, 0)
  {
    hide ParseValue, NextItem, Attach;
    var pos := 0;
    var stack: seq<ArrayFrame> := [];
    RunStarts(s);
    while true
      invariant pos <= |s| && FramesOpen(stack)
      invariant ParseValue(s, 0) == Resume(s, pos, stack)
      decreases |s| - pos
    {
      ItemVerdict(s, pos, stack);
      if pos >= |s| {
        NoItem(s, pos);
        return NeedMoreData;
      }
      var item := ReadItem(s, pos);
      match item
      case Incomplete => return NeedMoreData;
      case Invalid => return Malformed;
      case Leaf(value, used) =>
        var root;
        pos := pos + used;
        stack, root := AttachValue(s, pos, value, stack);
        if root.Some? {
          return Ready(root.value, pos);
        }
      case Open(length, used) =>
        if |stack| + 1 > MAX_NESTING_DEPTH {
          return Malformed;
        }
        ResumeOpen(s, pos, stack, length, used);
        stack := stack + [ArrayFrame(length, length, [])];
        pos := pos + used;
    }
  }

  // ---------------------------------------------------------------------------------------------
  // The buffered entry point
  // ---------------------------------------------------------------------------------------------

  /** A growing input buffer: bytes are committed at the back and consumed from the front. */
  class StreamBuffer {
    var data: Bytes

    constructor ()
      ensures data == []
    {
      data := [];
    }

    method Consume(n: nat)
      requires n <= |data|
      modifies this
      ensures data == old(data)[n..]
    {
      data := data[n..];
    }

    method Commit(received: Bytes)
      modifies this
      ensures data == old(data) + received
    {
      data := data + received;
    }
  }

  datatype ParsingResult = IsReady | IsNeedMoreData | IsError

  /** Buffer and output change only on a complete value; in particular a malformed buffer is kept. */
  method Parse(buffer: StreamBuffer, previous: RespValue) returns (result: ParsingResult, outValue: RespValue)
    modifies buffer
    ensures match ParseValue(old(buffer.data), 0)
            case Ready(v, n) => result == IsReady && outValue == v && buffer.data == old(buffer.data)[n..]
            case NeedMoreData => result == IsNeedMoreData && outValue == previous && buffer.data == old(buffer.data)
            case Malformed => result == IsError && outValue == previous && buffer.data == old(buffer.data)
  {
    var verdict := ParseImpl(buffer.data);
    match verdict
    case Ready(v, n) =>
      buffer.Consume(n);
      return IsReady, v;
    case NeedMoreData => return IsNeedMoreData, previous;
    case Malformed => return IsError, previous;
  }
}
