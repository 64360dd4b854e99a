/** The iterative serializer and the size estimator: two explicit-stack traversals, both proved
    against the recursive encoding. */
module RespSerializer {
  import opened Basics
  import opened Decimal
  import opened Resp

  /** The number of values in a tree. */
  ghost function Nodes(v: RespValue): (n: nat)
    ensures n > 0
    decreases v, 0
  {
    1 + if v.Array? then NodesOfAll(v.elements) else 0
  }

  ghost function NodesOfAll(vs: seq<RespValue>): nat
    decreases vs, 1
  {
    if vs == [] then 0 else Nodes(vs[0]) + NodesOfAll(vs[1..])
  }

  // ---------------------------------------------------------------------------------------------
  // The size estimate
  // ---------------------------------------------------------------------------------------------

  ghost function SumLengths(stack: seq<RespValue>): nat {
    if stack == [] then 0 else |Encode(stack[|stack| - 1])| + SumLengths(stack[..|stack| - 1])
  }

  ghost function SumNodes(stack: seq<RespValue>): nat {
    if stack == [] then 0 else Nodes(stack[|stack| - 1]) + SumNodes(stack[..|stack| - 1])
  }

  method EstimateSerializedSize(root: RespValue) returns (total: nat)
    ensures total == |Encode(root)|
  {
    total := 0;
    var stack := [root];
    while |stack| > 0
      invariant total + SumLengths(stack) == |Encode(root)|
      decreases SumNodes(stack)
    {
      var value := stack[|stack| - 1];
      stack := stack[..|stack| - 1];
      match value
      case SimpleString(text) => total := total + 1 + |text| + |CRLF|;
      case Error(text) => total := total + 1 + |text| + |CRLF|;
      case Integer(n) => total := total + 1 + |Print(n)| + |CRLF|;
      case BulkString(text) => total := total + 1 + |Print(|text|)| + |CRLF| + |text| + |CRLF|;
      case NullBulkString => total := total + |NULL_BULK_STRING|;
      case NullArray => total := total + |NULL_ARRAY|;
      case Unknown => total := total + |UNKNOWN_TYPE|;
      case Array(elements) =>
        total := total + 1 + |Print(|elements|)| + |CRLF|;
        ghost var base := stack;
        var i := |elements|;
        assert elements[|elements|..] == [];
        while i > 0
          invariant 0 <= i <= |elements|
          invariant SumLengths(stack) == SumLengths(base) + |EncodeAll(elements[i..])|
          invariant SumNodes(stack) == SumNodes(base) + NodesOfAll(elements[i..])
        {
          assert elements[i - 1..][1..] == elements[i..];
          ghost var pushed := stack;
          stack := stack + [elements[i - 1]];
          assert stack[..|stack| - 1] == pushed;
          i := i - 1;
        }
        assert elements[0..] == elements;
    }
  }

  // ---------------------------------------------------------------------------------------------
  // The serializer
  // ---------------------------------------------------------------------------------------------

  /** An array whose elements before `nextIndex` have been written or are being written. */
  datatype ArrayFrame = ArrayFrame(elements: seq<RespValue>, nextIndex: nat)

  predicate FramesValid(stack: seq<ArrayFrame>) {
    forall i :: 0 <= i < |stack| ==> stack[i].nextIndex <= |stack[i].elements|
  }

  /** What is still to be written once the current value is done, innermost array first. */
  ghost function Pending(stack: seq<ArrayFrame>): Bytes
    requires FramesValid(stack)
  {
    if stack == [] then []
    else
      var top := stack[|stack| - 1];
      EncodeAll(top.elements[top.nextIndex..]) + Pending(stack[..|stack| - 1])
  }

  /** The number of values in the open arrays that have not been visited. */
  ghost function Unvisited(stack: seq<ArrayFrame>): nat
    requires FramesValid(stack)
  {
    if stack == [] then 0
    else
      var top := stack[|stack| - 1];
      NodesOfAll(top.elements[top.nextIndex..]) + Unvisited(stack[..|stack| - 1])
  }

  /** The bytes written for `v` before any element of it. */
  function Opening(v: RespValue): Bytes {
    if v.Array? then Header(STAR, |v.elements|) else Encode(v)
  }

  lemma EncodeOpening(v: RespValue)
    ensures Encode(v) == Opening(v) + if v.Array? then EncodeAll(v.elements) else []
  {
  }

  /** Moving the top frame on to its next element. */
  lemma PendingNext(stack: seq<ArrayFrame>)
    requires FramesValid(stack) && stack != []
    requires stack[|stack| - 1].nextIndex < |stack[|stack| - 1].elements|
    ensures var top := stack[|stack| - 1];
            var stack' := stack[|stack| - 1 := top.(nextIndex := top.nextIndex + 1)];
            && FramesValid(stack')
            && Pending(stack) == Encode(top.elements[top.nextIndex]) + Pending(stack')
            && Unvisited(stack) == Nodes(top.elements[top.nextIndex]) + Unvisited(stack')
  {
    var top := stack[|stack| - 1];
    var stack' := stack[|stack| - 1 := top.(nextIndex := top.nextIndex + 1)];
    assert stack'[..|stack| - 1] == stack[..|stack| - 1];
    var rest := top.elements[top.nextIndex..];
    assert rest[0] == top.elements[top.nextIndex] && rest[1..] == top.elements[top.nextIndex + 1..];
  }

  lemma PendingPush(stack: seq<ArrayFrame>, elements: seq<RespValue>)
    requires FramesValid(stack) && elements != []
    ensures var stack' := stack + [ArrayFrame(elements, 1)];
            && FramesValid(stack')
            && EncodeAll(elements) + Pending(stack) == Encode(elements[0]) + Pending(stack')
            && NodesOfAll(elements) + Unvisited(stack) == Nodes(elements[0]) + Unvisited(stack')
  {
    var stack' := stack + [ArrayFrame(elements, 1)];
    assert stack'[..|stack|] == stack;
  }

  lemma PendingPop(stack: seq<ArrayFrame>)
    requires FramesValid(stack) && stack != []
    requires stack[|stack| - 1].nextIndex == |stack[|stack| - 1].elements|
    ensures FramesValid(stack[..|stack| - 1])
    ensures Pending(stack) == Pending(stack[..|stack| - 1])
    ensures Unvisited(stack) == Unvisited(stack[..|stack| - 1])
  {
    var top := stack[|stack| - 1];
    assert top.elements[top.nextIndex..] == [];
  }

  method AppendNonArray(out: Bytes, value: RespValue) returns (out': Bytes)
    requires !value.Array?
    ensures out' == out + Encode(value)
  {
    match value
    case SimpleString(text) => out' := out + ([PLUS] + text + CRLF);
    case Error(text) => out' := out + ([MINUS] + text + CRLF);
    case Integer(n) => out' := out + ([COLON] + Print(n) + CRLF);
    case BulkString(text) => out' := out + ([DOLLAR] + Print(|text|) + CRLF + text + CRLF);
    case NullBulkString => out' := out + NULL_BULK_STRING;
    case NullArray => out' := out + NULL_ARRAY;
    case Unknown => out' := out + UNKNOWN_TYPE;
  }

  lemma Regroup(out: Bytes, opening: Bytes, content: Bytes, pending: Bytes)
    ensures out + (opening + content + pending) == out + opening + (content + pending)
    ensures content == [] ==> out + (opening + content + pending) == out + opening + pending
  {
  }

  /** The output is the recursive encoding, and the capacity reserved for it is exactly its length. */
  method SerializeIterative(root: RespValue) returns (out: Bytes, capacity: nat)
    ensures out == Encode(root) && capacity == |out|
  {
    out := [];
    capacity := EstimateSerializedSize(root);
    var stack: seq<ArrayFrame> := [];
    var current := root;
    while true
      invariant FramesValid(stack)
      invariant out + (Encode(current) + Pending(stack)) == Encode(root)
      decreases Nodes(current) + Unvisited(stack)
    {
      hide Encode, EncodeAll, Pending, Unvisited;
      ghost var before := stack;
      EncodeOpening(current);
      Regroup(out, Opening(current), if current.Array? then EncodeAll(current.elements) else [], Pending(stack));
      if current.Array? {
        out := out + ([STAR] + Print(|current.elements|) + CRLF);
        if |current.elements| > 0 {
          PendingPush(stack, current.elements);
          stack := stack + [ArrayFrame(current.elements, 1)];
          current := current.elements[0];
          continue;
        }
      } else {
        out := AppendNonArray(out, current);
      }
      assert out + Pending(stack) == Encode(root);

      var advanced := false;
      while |stack| > 0
        invariant FramesValid(stack) && !advanced
        invariant Pending(stack) == Pending(before) && Unvisited(stack) == Unvisited(before)
        decreases |stack|
      {
        var frame := stack[|stack| - 1];
        if frame.nextIndex < |frame.elements| {
          PendingNext(stack);
          current := frame.elements[frame.nextIndex];
          stack := stack[|stack| - 1 := frame.(nextIndex := frame.nextIndex + 1)];
          advanced := true;
          break;
        }
        PendingPop(stack);
        stack := stack[..|stack| - 1];
      }
      if !advanced {
        return;
      }
    }
  }
}
