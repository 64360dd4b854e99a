/** One client session: a bounded buffer, a parse loop and a read loop. However the network splits the
    client's bytes into reads, the replies are a function of the bytes alone. */
module Sessions {
  import opened Basics
  import opened Resp
  import opened RespGrammar
  import opened RespParser
  import RespSerializer

  /** How values become commands and commands become replies; `W` is the state of the whole server. */
  datatype Server<!W, !C> = Server(toCommand: RespValue -> Option<C>, execute: (W, C) -> (W, RespValue))

  datatype ReadResult = NewMessage | CloseConnection | ReadError | MessageTooLarge

  const INVALID_COMMAND: RespValue := Error(Ascii("ERR invalid command"))
  const MALFORMED_REQUEST: RespValue := Error(Ascii("ERR malformed request"))
  const REQUEST_TOO_LARGE: RespValue := Error(Ascii("ERR request is too large"))

  // ---------------------------------------------------------------------------------------------
  // The replies to a byte stream
  // ---------------------------------------------------------------------------------------------

  /** The verdict on the next frame when at most `max` bytes of it may be buffered. */
  function NextVerdict(stream: Bytes, max: nat): Verdict<RespValue> {
    ParseValue(if |stream| <= max then stream else stream[..max], 0)
  }

  /** The values of the complete frames at the start of a stream. */
  function ValuesOf(stream: Bytes, max: nat): seq<RespValue>
    decreases |stream|
  {
    var next := NextVerdict(stream, max);
    if next.Ready? then [next.value] + ValuesOf(stream[next.consumed..], max) else []
  }

  /** What follows the complete frames. */
  function RestOf(stream: Bytes, max: nat): (rest: Bytes)
    ensures |rest| <= |stream| && !NextVerdict(rest, max).Ready?
    decreases |stream|
  {
    var next := NextVerdict(stream, max);
    if next.Ready? then RestOf(stream[next.consumed..], max) else stream
  }

  function Respond<W, C>(server: Server<W, C>, world: W, value: RespValue): (W, RespValue) {
    match server.toCommand(value)
    case None => (world, INVALID_COMMAND)
    case Some(command) => server.execute(world, command)
  }

  /** One reply for each value, in order. */
  function RespondAll<W, C>(server: Server<W, C>, world: W, values: seq<RespValue>): (r: (W, seq<RespValue>))
    ensures |r.1| == |values|
    decreases |values|
  {
    if values == [] then (world, [])
    else
      var (world', reply) := Respond(server, world, values[0]);
      var (world'', replies) := RespondAll(server, world', values[1..]);
      (world'', [reply] + replies)
  }

  /** A value that is no command changes nothing and is told so. */
  lemma NoCommandAnswered<W, C>(server: Server<W, C>, world: W, value: RespValue)
    requires server.toCommand(value).None?
    ensures Respond(server, world, value) == (world, Error(Ascii("ERR invalid command")))
  {
  }

  /** The error that ends a session, if any. */
  function FinalError(rest: Bytes, max: nat): seq<RespValue> {
    if NextVerdict(rest, max).Malformed? then [MALFORMED_REQUEST]
    else if |rest| >= max then [REQUEST_TOO_LARGE]
    else []
  }

  /** The final server state and all replies to a stream. */
  function Serve<W, C>(server: Server<W, C>, world: W, stream: Bytes, max: nat): (W, seq<RespValue>) {
    var (world', replies) := RespondAll(server, world, ValuesOf(stream, max));
    (world', replies + FinalError(RestOf(stream, max), max))
  }

  /** What a client is told when its session ends with an error. */
  lemma FinalErrorTold(rest: Bytes, max: nat)
    ensures NextVerdict(rest, max).Malformed? ==> FinalError(rest, max) == [Error(Ascii("ERR malformed request"))]
    ensures !NextVerdict(rest, max).Malformed? && |rest| >= max ==>
              FinalError(rest, max) == [Error(Ascii("ERR request is too large"))]
    ensures !NextVerdict(rest, max).Malformed? && |rest| < max ==> FinalError(rest, max) == []
  {
  }

  // ---------------------------------------------------------------------------------------------
  // The stream and the grammar
  // ---------------------------------------------------------------------------------------------

  /** The values are those of a sequence of frames that ends where the rest begins. */
  lemma {:induction false} ValuesAreFrames(stream: Bytes, max: nat)
    ensures var n := |stream| - |RestOf(stream, max)|;
            stream[n..] == RestOf(stream, max) && DerivesAll(stream[..n], ValuesOf(stream, max), 0)
    decreases |stream|
  {
    hide ParseValue, Derives, DerivesAll;
    NoFrames([], 0);
    var next := NextVerdict(stream, max);
    if next.Ready? {
      var prefix := if |stream| <= max then stream else stream[..max];
      var k := next.consumed;
      ValuesAreFrames(stream[k..], max);
      var n := |stream| - |RestOf(stream, max)|;
      ParseSound(prefix, 0);
      assert prefix[..k] == stream[..k];
      TakeSplit(stream, k, n);
      DerivesAllCons(stream[..k], next.value, stream[k..][..n - k], ValuesOf(stream[k..], max), 0);
      assert stream[n..] == stream[k..][n - k..];
    } else {
      assert stream[..0] == [];
    }
  }

  /** A complete frame that fits is read off the front, whatever follows it. */
  lemma FrameServed(frame: Bytes, v: RespValue, more: Bytes, max: nat)
    requires Derives(frame, v, 0) && |frame| <= max
    ensures ValuesOf(frame + more, max) == [v] + ValuesOf(more, max)
    ensures RestOf(frame + more, max) == RestOf(more, max)
  {
    hide ParseValue, Derives;
    var stream := frame + more;
    var tail := if |stream| <= max then more else more[..max - |frame|];
    ParseComplete(frame, v, 0, tail);
    assert (if |stream| <= max then stream else stream[..max]) == frame + tail;
    assert stream[|frame|..] == more;
  }

  /** `frames` are complete frames of at most `max` bytes for `values`. */
  ghost predicate FitFrames(frames: seq<Bytes>, values: seq<RespValue>, max: nat) {
    && |frames| == |values|
    && forall i :: 0 <= i < |frames| ==> Derives(frames[i], values[i], 0) && |frames[i]| <= max
  }

  function Concat(frames: seq<Bytes>): Bytes {
    if frames == [] then [] else frames[0] + Concat(frames[1..])
  }

  lemma {:induction false} FramesServed(frames: seq<Bytes>, values: seq<RespValue>, tail: Bytes, max: nat)
    requires FitFrames(frames, values, max)
    ensures ValuesOf(Concat(frames) + tail, max) == values + ValuesOf(tail, max)
    ensures RestOf(Concat(frames) + tail, max) == RestOf(tail, max)
  {
    hide ValuesOf, RestOf, Derives;
    if frames == [] {
      assert Concat(frames) + tail == tail;
      assert values + ValuesOf(tail, max) == ValuesOf(tail, max);
    } else {
      Associates(frames[0], Concat(frames[1..]), tail);
      FrameServed(frames[0], values[0], Concat(frames[1..]) + tail, max);
      FramesServed(frames[1..], values[1..], tail, max);
      assert values + ValuesOf(tail, max) == [values[0]] + (values[1..] + ValuesOf(tail, max));
    }
  }

  /** Pipelined frames that each fit are all answered and never refused. */
  lemma PipelineNeverRefused<W, C>(server: Server<W, C>, world: W, frames: seq<Bytes>, values: seq<RespValue>, max: nat)
    requires FitFrames(frames, values, max) && max > 0
    ensures Serve(server, world, Concat(frames), max) == RespondAll(server, world, values)
  {
    FramesServed(frames, values, [], max);
    assert Concat(frames) + [] == Concat(frames);
    assert values + [] == values;
    var replies := RespondAll(server, world, values).1;
    assert replies + [] == replies;
    EmptyUndecided();
  }

  lemma EmptyUndecided()
    ensures ParseValue([], 0) == NeedMoreData
  {
  }

  /** After complete frames that fit, a frame of more than `max` bytes is refused as soon as the stream
      supplies that many; and nothing else is ever refused as too large. */
  lemma OversizedExactlyRefused(frames: seq<Bytes>, values: seq<RespValue>, rest: Bytes, max: nat)
    requires FitFrames(frames, values, max)
    ensures FinalError(RestOf(Concat(frames) + rest, max), max) == [REQUEST_TOO_LARGE]
            && ValuesOf(Concat(frames) + rest, max) == values
            <==> |rest| >= max && ParseValue(rest[..max], 0) == NeedMoreData
  {
    hide ParseValue, Derives, FitFrames, Concat;
    FramesServed(frames, values, rest, max);
    assert Ascii("ERR malformed request") != Ascii("ERR request is too large");
    var next := NextVerdict(rest, max);
    if next.Ready? {
      assert |values + ValuesOf(rest, max)| > |values|;
    } else {
      assert values + [] == values;
    }
    if |rest| == max { assert rest[..max] == rest; }
  }

  /** After answering the frames that fit, the session refuses a longer one and ends. */
  lemma LongFrameRefused<W, C>(server: Server<W, C>, world: W, frames: seq<Bytes>, values: seq<RespValue>,
                               long: Bytes, v: RespValue, more: Bytes, max: nat)
    requires FitFrames(frames, values, max) && Derives(long, v, 0) && |long| > max
    ensures Serve(server, world, Concat(frames) + (long + more), max) ==
            var (world', replies) := RespondAll(server, world, values); (world', replies + [REQUEST_TOO_LARGE])
  {
    hide ParseValue, Derives, FitFrames, Concat, RespondAll;
    ParseComplete(long, v, 0, more);
    StrictPrefixNeedsMore(long + more, max, 0);
    OversizedExactlyRefused(frames, values, long + more, max);
  }

  // ---------------------------------------------------------------------------------------------
  // The session
  // ---------------------------------------------------------------------------------------------

  /** What is buffered and undecided is undecided within the whole stream, and the other way round. */
  lemma BufferDecides(buffer: Bytes, unread: Bytes, max: nat)
    requires |buffer| <= max
    ensures !ParseValue(buffer, 0).NeedMoreData? ==> NextVerdict(buffer + unread, max) == ParseValue(buffer, 0)
    ensures |buffer| == max || unread == [] ==> NextVerdict(buffer + unread, max) == ParseValue(buffer, 0)
  {
    hide ParseValue;
    var visible := if |buffer + unread| <= max then unread else unread[..max - |buffer|];
    assert (if |buffer + unread| <= max then buffer + unread else (buffer + unread)[..max]) == buffer + visible;
    if !ParseValue(buffer, 0).NeedMoreData? {
      VerdictStable(buffer, visible, 0);
    }
    if |buffer| == max || unread == [] {
      assert buffer + visible == buffer;
    }
  }

  /** A complete frame in front is answered first. */
  lemma ServeNext<W, C>(server: Server<W, C>, world: W, stream: Bytes, max: nat)
    requires NextVerdict(stream, max).Ready?
    ensures var Ready(v, n) := NextVerdict(stream, max);
            var (world', reply) := Respond(server, world, v);
            var (world'', replies) := Serve(server, world', stream[n..], max);
            Serve(server, world, stream, max) == (world'', [reply] + replies)
  {
    hide ParseValue, FinalError, Respond;
    var Ready(v, n) := NextVerdict(stream, max);
    var values := ValuesOf(stream[n..], max);
    assert ValuesOf(stream, max) == [v] + values;
    assert ([v] + values)[0] == v && ([v] + values)[1..] == values;
    var (world', reply) := Respond(server, world, v);
    var replies, final := RespondAll(server, world', values).1, FinalError(RestOf(stream, max), max);
    assert [reply] + replies + final == [reply] + (replies + final);
  }

  lemma ServeEnds<W, C>(server: Server<W, C>, world: W, stream: Bytes, max: nat)
    requires !NextVerdict(stream, max).Ready?
    ensures Serve(server, world, stream, max) == (world, FinalError(stream, max))
  {
    hide NextVerdict, FinalError;
    assert [] + FinalError(stream, max) == FinalError(stream, max);
  }

  /** What a verdict on the buffer means for all that is owed. */
  lemma BufferedVerdict<W, C>(server: Server<W, C>, world: W, buffer: Bytes, unread: Bytes, max: nat)
    requires |buffer| <= max
    ensures ParseValue(buffer, 0).Malformed? ==>
              Serve(server, world, buffer + unread, max) == (world, [MALFORMED_REQUEST])
    ensures ParseValue(buffer, 0).NeedMoreData? && |buffer| == max ==>
              Serve(server, world, buffer + unread, max) == (world, [REQUEST_TOO_LARGE])
    ensures ParseValue(buffer, 0).NeedMoreData? && |buffer| < max && unread == [] ==>
              Serve(server, world, buffer + unread, max) == (world, [])
    ensures ParseValue(buffer, 0).Ready? ==>
              var Ready(v, n) := ParseValue(buffer, 0);
              var (world', reply) := Respond(server, world, v);
              var (world'', replies) := Serve(server, world', buffer[n..] + unread, max);
              Serve(server, world, buffer + unread, max) == (world'', [reply] + replies)
  {
    hide ParseValue, NextVerdict, Serve, Respond;
    BufferDecides(buffer, unread, max);
    if ParseValue(buffer, 0).Ready? {
      ServeNext(server, world, buffer + unread, max);
      DropAppend(buffer, unread, ParseValue(buffer, 0).consumed);
    } else if ParseValue(buffer, 0).Malformed? || |buffer| == max || unread == [] {
      ServeEnds(server, world, buffer + unread, max);
      if unread == [] { assert buffer + unread == buffer; }
    }
  }

  lemma NothingReplied(replies: seq<RespValue>, sent: Bytes)
    ensures [] + replies == replies && [] + sent == sent && EncodeEach([]) == []
  {
  }

  lemma EncodeOneMore(replies: seq<RespValue>, reply: RespValue, more: seq<RespValue>)
    ensures EncodeEach(replies + [reply]) == EncodeEach(replies) + [Encode(reply)]
    ensures replies + ([reply] + more) == replies + [reply] + more
  {
  }

  function EncodeEach(replies: seq<RespValue>): (r: seq<Bytes>)
    ensures |r| == |replies| && forall i :: 0 <= i < |r| ==> r[i] == Encode(replies[i])
  {
    if replies == [] then [] else EncodeEach(replies[..|replies| - 1]) + [Encode(replies[|replies| - 1])]
  }

  lemma {:induction false} ConcatEncoded(replies: seq<RespValue>)
    ensures Concat(EncodeEach(replies)) == EncodeAll(replies)
  {
    if replies != [] {
      ConcatEncoded(replies[1..]);
      var messages := EncodeEach(replies);
      assert messages[1..] == EncodeEach(replies[1..]);
    }
  }

  /** The client recovers the replies: what the session writes parses, frame by frame, into exactly the
      values it replied with, provided these are within the limits. */
  lemma RepliesRecovered(replies: seq<RespValue>, later: Bytes)
    requires forall v <- replies :: WithinLimits(v, 0)
    ensures ParseElements(Concat(EncodeEach(replies)) + later, |replies|, 0) == Ready(replies, |EncodeAll(replies)|)
  {
    hide ParseElements, Derives, WithinLimits;
    ConcatEncoded(replies);
    EncodeAllDerives(replies, 0);
    ElementsComplete(EncodeAll(replies), replies, 0, later);
  }

  class Session<!W(0), !C> {
    const server: Server<W, C>
    const maxMessageSize: nat
    const buffer: StreamBuffer
    var world: W
    /** The bytes the client sends before it closes or the connection breaks, as far as unread. */
    var unread: Bytes
    const endsInError: bool
    var written: seq<Bytes>

    constructor (server: Server<W, C>, world: W, maxMessageSize: nat, sent: Bytes, endsInError: bool)
      ensures Bounded() && fresh(buffer) && buffer.data == [] && written == []
      ensures this.server == server && this.world == world && unread == sent
      ensures this.maxMessageSize == if maxMessageSize == 0 then 1 else maxMessageSize
    {
      this.server, this.world, this.endsInError := server, world, endsInError;
      this.maxMessageSize := if maxMessageSize == 0 then 1 else maxMessageSize;
      buffer := new StreamBuffer();
      unread, written := sent, [];
    }

    /** The buffer never outgrows the message size. */
    ghost predicate Bounded()
      reads this, buffer
    {
      |buffer.data| <= maxMessageSize && 0 < maxMessageSize
    }

    /** The replies still owed: to the buffered bytes and all that will follow. */
    ghost function Owed(): (W, seq<RespValue>)
      reads this, buffer
    {
      Serve(server, world, buffer.data + unread, maxMessageSize)
    }

    /** One read: some nonempty part of what is unread, of any length the buffer has room for. */
    method Read() returns (result: ReadResult)
      requires Bounded()
      modifies this`unread, buffer
      ensures Bounded() && buffer.data + unread == old(buffer.data + unread)
      ensures result == MessageTooLarge <==> |old(buffer.data)| == maxMessageSize
      ensures result == NewMessage ==> |unread| < |old(unread)|
      ensures result == CloseConnection || result == ReadError ==> old(unread) == []
      ensures result != NewMessage ==> buffer.data == old(buffer.data)
    {
      if |buffer.data| >= maxMessageSize {
        return MessageTooLarge;
      }
      var availableCapacity := maxMessageSize - |buffer.data|;
      if |unread| == 0 {
        return if endsInError then ReadError else CloseConnection;
      }
      var nbytes :| 1 <= nbytes <= availableCapacity && nbytes <= |unread|;
      buffer.Commit(unread[..nbytes]);
      unread := unread[nbytes..];
      return NewMessage;
    }

    method Write(value: RespValue)
      modifies this`written
      ensures written == old(written) + [Encode(value)]
    {
      var message, _ := RespSerializer.SerializeIterative(value);
      written := written + [message];
    }

    /** Answers one value. */
    method Answer(value: RespValue)
      modifies this`written, this`world
      ensures var (world', reply) := Respond(server, old(world), value);
              world == world' && written == old(written) + [Encode(reply)]
    {
      var command := server.toCommand(value);
      if command.None? {
        Write(INVALID_COMMAND);
      } else {
        var (world', response) := server.execute(world, command.value);
        world := world';
        Write(response);
      }
    }

    /** The whole session. Whatever sizes the reads have, it ends in the state and with the replies that
        the client's bytes alone determine. */
    method Run()
      requires Bounded() && buffer.data == [] && written == []
      modifies this, buffer
      ensures var (world', replies) := Serve(server, old(world), old(unread), maxMessageSize);
              world == world' && written == EncodeEach(replies)
    {
      hide Serve, ParseValue, Encode, EncodeEach, Respond;
      ghost var replied: seq<RespValue> := [];
      ghost var total := Owed();
      NothingReplied(total.1, unread);
      while true
        invariant Bounded() && written == EncodeEach(replied)
        invariant total == (Owed().0, replied + Owed().1)
        decreases |unread|
      {
        var closeSession := false;
        ghost var pending := unread;
        while |buffer.data| > 0
          invariant Bounded() && written == EncodeEach(replied) && unread == pending
          invariant total == (Owed().0, replied + Owed().1)
          decreases |buffer.data|
        {
          BufferedVerdict(server, world, buffer.data, unread, maxMessageSize);
          var result, value := Parse(buffer, Unknown);
          if result == IsNeedMoreData {
            break;
          }
          if result == IsError {
            EncodeOneMore(replied, MALFORMED_REQUEST, []);
            Write(MALFORMED_REQUEST);
            closeSession := true;
            break;
          }
          ghost var reply := Respond(server, world, value).1;
          Answer(value);
          EncodeOneMore(replied, reply, Owed().1);
          replied := replied + [reply];
        }
        if closeSession {
          return;
        }
        EmptyUndecided();
        BufferedVerdict(server, world, buffer.data, unread, maxMessageSize);
        EncodeOneMore(replied, REQUEST_TOO_LARGE, []);
        var readingResult := Read();
        if readingResult == MessageTooLarge {
          Write(REQUEST_TOO_LARGE);
          return;
        }
        if readingResult != NewMessage {
          return;
        }
      }
    }
  }
}
