/** A session on the sharded cache, among all others: the commands of one client, each at its turn among
    whatever the other sessions and the sweeps do. */
module CacheServers {
  import opened Basics
  import opened Resp
  import opened ShardModel
  import opened ShardSteps
  import opened Interleaving
  import opened Coherence
  import opened MultiDel
  import opened Answers
  import opened ShardRuns
  import opened Decimal
  import opened ServerInfo
  import opened WireFormat
  import opened Sessions

  type KeyedAction = a: Action | IsKeyed(a) witness GetKey([])

  /** A command as the executor takes it; the fixed ones do not touch a shard. */
  datatype Request = OnKey(action: KeyedAction) | Delete(args: seq<Bytes>) | Info | Fixed(reply: RespValue)

  /** What the others do before the session's next step on a shard, and the clock at that step. */
  datatype Turn = Turn(others: seq<Event>, now: int, later: int)

  /** The shards, the turns to come, and the trace so far with its replies. */
  datatype World = World(shards: seq<Shard>, turns: seq<Turn>, trace: seq<Event>, replies: seq<Reply>)

  /** The cache and the session's place in it: the session runs on the thread of its home shard, if any. */
  datatype Config = Config(shardCount: nat, budget: nat, hash: Hash, home: Option<nat>,
                           toCommand: RespValue -> Option<Request>)

  predicate Runnable(w: World) {
    |w.shards| > 0 && forall t <- w.turns :: InRange(|w.shards|, t.others)
  }

  function Next(turns: seq<Turn>): Turn {
    if turns == [] then Turn([], 0, 0) else turns[0]
  }

  /** The turns that are left after `n` of them. */
  function Later(turns: seq<Turn>, n: nat): seq<Turn> {
    if |turns| <= n then [] else turns[n..]
  }

  /** Events that happen next, and their replies. */
  function RunEvents(w: World, events: seq<Event>, turns: seq<Turn>): World
    requires InRange(|w.shards|, events)
  {
    var (shards, replies) := RunAll(w.shards, events);
    World(shards, turns, w.trace + events, w.replies + replies)
  }

  /** One step of the session on the shard of its key, after the others had their turn. */
  function OwnEvent(w: World, hash: Hash, action: KeyedAction): Event
    requires |w.shards| > 0
  {
    Dispatch(action, Next(w.turns).now, Next(w.turns).later, hash, |w.shards|)
  }

  /** The session's own shard, if it runs on one of these. */
  function HomeShard(home: Option<nat>, n: nat): Option<nat> {
    if home.Some? && home.value < n then home else None
  }

  /** A DEL whose hops to the shards are the session's next turns. */
  function CallOf(args: seq<Bytes>, home: Option<nat>, turns: seq<Turn>, n: nat): Call {
    Call(args, home, seq(n, i => if home == Some(i) || i < 0 || i >= |turns| then [] else turns[i].others))
  }

  /** What the executor does for a DEL: the others have a turn, then the batches go to the shards. */
  function DelCall(c: Config, w: World, args: seq<Bytes>): (call: Call)
    requires Runnable(w)
    ensures FitsServer(call, |w.shards|)
  {
    CallOf(args, HomeShard(c.home, |w.shards|), Later(w.turns, 1), |w.shards|)
  }

  /** What runs before INFO reads each of the shards. */
  function InfoBetween(w: World): (between: seq<seq<Event>>)
    requires Runnable(w)
    ensures FitsShards(w.shards, between)
  {
    var turns := Later(w.turns, 1);
    seq(|w.shards|, i => if i < 0 || i >= |turns| then [] else turns[i].others)
  }

  function InfoLine(name: Bytes, n: nat): Bytes {
    name + Print(n) + CRLF
  }

  function InfoText(total: Stats): Bytes {
    Ascii("# Memory\r\n") + InfoLine(Ascii("used_bytes:"), total.usedBytes) + InfoLine(Ascii("keys:"), total.keyCount)
    + InfoLine(Ascii("evictions:"), total.evictions) + InfoLine(Ascii("expired:"), total.expired)
    + InfoLine(Ascii("max_memory_bytes:"), total.maxMemoryBytes) + Ascii("memory_model:payload_bytes\r\n")
  }

  const OK: RespValue := SimpleString(Ascii("OK"))
  const SYNTAX_ERROR: RespValue := Error(Ascii("ERR syntax error"))
  const NOT_AN_INTEGER: RespValue := Error(Ascii("ERR value is not an integer or out of range"))

  /** Numbers beyond 64 bits do not occur in replies of the program. */
  function NumberReply(n: int): RespValue {
    if INT64_MIN <= n <= INT64_MAX then Integer(n) else Unknown
  }

  function ToResp(action: Action, reply: Reply): RespValue {
    match reply
    case Value(found) => if found.Some? then BulkString(found.value) else NullBulkString
    case Done => OK
    case NotSet => NullBulkString
    case Refused => if action.SetKey? && action.mode.UnknownOption? then SYNTAX_ERROR else NOT_AN_INTEGER
    case Number(n) => NumberReply(n)
    case _ => Unknown
  }

  function Execute(c: Config, w: World, request: Request): (World, RespValue) {
    if !Runnable(w) then (w, Unknown)
    else
      match request
      case Fixed(reply) => (w, reply)
      case OnKey(action) =>
        var w' := RunEvents(w, Next(w.turns).others + [OwnEvent(w, c.hash, action)], Later(w.turns, 1));
        (w', ToResp(action, w'.replies[|w'.replies| - 1]))
      case Delete(args) =>
        var n, call := |w.shards|, DelCall(c, w, args);
        var first := RunEvents(w, Next(w.turns).others, Later(w.turns, 1 + n));
        (RunEvents(first, DelTrace(call, c.hash, n, n), Later(w.turns, 1 + n)),
         NumberReply(CountBelow(first.shards, call, c.hash, n, None)))
      case Info =>
        var n, between := |w.shards|, InfoBetween(w);
        var first := RunEvents(w, Next(w.turns).others, Later(w.turns, 1 + n));
        OthersInRange(between, n, n);
        (RunEvents(first, Others(between, n), Later(w.turns, 1 + n)),
         BulkString(InfoText(SumStats(InfoSamples(first.shards, between)))))
  }

  /** The cache as a server for sessions. */
  function CacheServer(c: Config): Server<World, Request> {
    Server(c.toCommand, (w, request) => Execute(c, w, request))
  }

  function Start(c: Config, turns: seq<Turn>): World {
    World(EmptyShards(c.shardCount, c.budget), turns, [], [])
  }

  // ---------------------------------------------------------------------------------------------
  // One trace of the server
  // ---------------------------------------------------------------------------------------------

  /** All that has happened is one trace of the dispatch from empty shards, and all that is to come from
      the others is dispatched too. */
  ghost predicate OneTrace(w: World, c: Config) {
    && ServerTrace(w.trace, c.hash, c.shardCount)
    && (w.shards, w.replies) == RunAll(EmptyShards(c.shardCount, c.budget), w.trace)
    && forall t <- w.turns :: ServerTrace(t.others, c.hash, c.shardCount)
  }

  ghost predicate Extends(w: World, w': World) {
    w.trace <= w'.trace && w.replies <= w'.replies && |w.trace| == |w.replies| && |w'.trace| == |w'.replies|
  }

  lemma OneTraceRuns(w: World, c: Config)
    requires OneTrace(w, c)
    ensures Runnable(w) && |w.shards| == c.shardCount && |w.trace| == |w.replies|
  {
    hide RunAll;
    forall t <- w.turns ensures InRange(c.shardCount, t.others) {
      assert ServerTrace(t.others, c.hash, c.shardCount);
    }
  }

  /** Events of the dispatch continue the trace. */
  lemma EventsExtend(w: World, c: Config, events: seq<Event>, turns: seq<Turn>)
    requires OneTrace(w, c) && ServerTrace(events, c.hash, c.shardCount)
    requires forall t <- turns :: t in w.turns
    requires |w.shards| == c.shardCount
    ensures var w' := RunEvents(w, events, turns); OneTrace(w', c) && Extends(w, w')
  {
    hide RunAll, Issued;
    RunAllAppend(EmptyShards(c.shardCount, c.budget), w.trace, events);
    assert ServerTrace(w.trace + events, c.hash, c.shardCount);
  }

  lemma OthersIssued(w: World, c: Config)
    requires OneTrace(w, c)
    ensures ServerTrace(Next(w.turns).others, c.hash, c.shardCount)
    ensures forall n: nat :: forall t <- Later(w.turns, n) :: t in w.turns
  {
    hide RunAll;
    assert w.turns != [] ==> w.turns[0] in w.turns;
  }

  /** The session's own step after the others'. */
  lemma OwnEventIssued(w: World, c: Config, action: KeyedAction)
    requires OneTrace(w, c) && |w.shards| == c.shardCount > 0
    ensures ServerTrace(Next(w.turns).others + [OwnEvent(w, c.hash, action)], c.hash, c.shardCount)
  {
    hide RunAll, GetShardIndex;
    OthersIssued(w, c);
    assert Issued(OwnEvent(w, c.hash, action), c.hash, c.shardCount);
  }

  /** The batches of a DEL are dispatched, and so is what runs between them. */
  lemma {:induction false} DelTraceIssued(call: Call, hash: Hash, n: nat, i: nat)
    requires FitsServer(call, n) && i <= n && forall j :: 0 <= j < n ==> ServerTrace(call.between[j], hash, n)
    ensures ServerTrace(DelTrace(call, hash, n, i), hash, n)
  {
    hide Bucket, GetShardIndex;
    if i == 0 {
      if call.home.Some? { BatchIssued(call.args, hash, n, call.home.value); }
    } else {
      DelTraceIssued(call, hash, n, i - 1);
      BatchIssued(if call.home == Some(i - 1) then [] else call.args, hash, n, i - 1);
      assert Bucket([], hash, n, i - 1) == [] by { BucketOwned([], hash, n, i - 1); }
    }
  }

  lemma BatchIssued(args: seq<Bytes>, hash: Hash, n: nat, i: nat)
    requires n > 0
    ensures Issued(DelEvent(i, Bucket(args, hash, n, i)), hash, n)
  {
  }

  lemma DelCallIssued(c: Config, w: World, args: seq<Bytes>)
    requires OneTrace(w, c) && Runnable(w) && |w.shards| == c.shardCount
    ensures var call := DelCall(c, w, args);
            && (forall j :: 0 <= j < c.shardCount ==> ServerTrace(call.between[j], c.hash, c.shardCount))
            && OthersRouted(call, c.hash, c.shardCount)
            && ServerTrace(DelTrace(call, c.hash, c.shardCount, c.shardCount), c.hash, c.shardCount)
  {
    hide RunAll, DelTrace;
    var call := DelCall(c, w, args);
    forall j | 0 <= j < c.shardCount ensures ServerTrace(call.between[j], c.hash, c.shardCount) {
      var turns := Later(w.turns, 1);
      if j < |turns| { assert turns[j] in w.turns; }
    }
    forall j | 0 <= j < c.shardCount ensures SentToOwner(call.between[j], c.hash, c.shardCount) {
      DispatchRoutes(call.between[j], c.hash, c.shardCount);
    }
    DelTraceIssued(call, c.hash, c.shardCount, c.shardCount);
  }

  lemma RequestExtends(w: World, c: Config, request: Request)
    requires OneTrace(w, c)
    ensures var w' := Execute(c, w, request).0; OneTrace(w', c) && Extends(w, w')
  {
    hide OneTrace, RunEvents, DelTrace, DelCall, OwnEvent, ServerTrace, CountBelow, InRange;
    OneTraceRuns(w, c);
    OthersIssued(w, c);
    match request
    case Fixed(_) =>
    case OnKey(action) =>
      OwnEventIssued(w, c, action);
      EventsExtend(w, c, Next(w.turns).others + [OwnEvent(w, c.hash, action)], Later(w.turns, 1));
    case Delete(args) => DeleteExtends(w, c, args);
    case Info => InfoExtends(w, c);
  }

  lemma {:induction false} OthersAreIssued(between: seq<seq<Event>>, hash: Hash, n: nat, k: nat)
    requires k <= |between| && n > 0 && forall j :: 0 <= j < |between| ==> ServerTrace(between[j], hash, n)
    ensures ServerTrace(Others(between, k), hash, n)
  {
    if k > 0 { OthersAreIssued(between, hash, n, k - 1); }
  }

  lemma InfoExtends(w: World, c: Config)
    requires OneTrace(w, c)
    ensures var w' := Execute(c, w, Info).0; OneTrace(w', c) && Extends(w, w')
  {
    hide OneTrace, Issued, RunAll, InfoSamples, InfoText, SumStats;
    OneTraceRuns(w, c);
    OthersIssued(w, c);
    var n, between, later := c.shardCount, InfoBetween(w), Later(w.turns, 1 + c.shardCount);
    InfoBetweenIssued(w, c);
    OthersAreIssued(between, c.hash, n, n);
    EventsExtend(w, c, Next(w.turns).others, later);
    var first := RunEvents(w, Next(w.turns).others, later);
    EventsExtend(first, c, Others(between, n), later);
  }

  lemma InfoBetweenIssued(w: World, c: Config)
    requires OneTrace(w, c) && Runnable(w) && |w.shards| == c.shardCount
    ensures forall j :: 0 <= j < c.shardCount ==> ServerTrace(InfoBetween(w)[j], c.hash, c.shardCount)
  {
    hide RunAll;
    var turns := Later(w.turns, 1);
    forall j | 0 <= j < c.shardCount ensures ServerTrace(InfoBetween(w)[j], c.hash, c.shardCount) {
      if j < |turns| { assert turns[j] in w.turns; }
    }
  }

  lemma DeleteExtends(w: World, c: Config, args: seq<Bytes>)
    requires OneTrace(w, c)
    ensures var w' := Execute(c, w, Delete(args)).0; OneTrace(w', c) && Extends(w, w')
  {
    hide OneTrace, DelTrace, DelCall, CountBelow, Issued, RunAll;
    OneTraceRuns(w, c);
    OthersIssued(w, c);
    DelCallIssued(c, w, args);
    var n, call, later := c.shardCount, DelCall(c, w, args), Later(w.turns, 1 + c.shardCount);
    EventsExtend(w, c, Next(w.turns).others, later);
    var first := RunEvents(w, Next(w.turns).others, later);
    EventsExtend(first, c, DelTrace(call, c.hash, n, n), later);
  }

  /** The others have the turns they are given: before the session's own event, before each batch of a DEL but
      that of its own shard, and before each shard that INFO reads; and no turn is had twice. */
  lemma TurnsTaken(w: World, c: Config, action: KeyedAction, args: seq<Bytes>)
    requires Runnable(w) && |w.turns| > |w.shards|
    ensures var w', turn := Execute(c, w, OnKey(action)).0, w.turns[0];
            && w'.turns == w.turns[1..]
            && w'.trace == w.trace + (turn.others + [Event(GetShardIndex(c.hash, action.key, |w.shards|),
                                                           Step(action, turn.now, turn.later))])
    ensures var w', call := Execute(c, w, Delete(args)).0, DelCall(c, w, args);
            && w'.turns == w.turns[1 + |w.shards|..]
            && w'.trace == w.trace + w.turns[0].others + DelTrace(call, c.hash, |w.shards|, |w.shards|)
            && call.args == args && call.home == OwnShard(c, |w.shards|)
            && forall j :: 0 <= j < |w.shards| ==>
                 call.between[j] == if call.home == Some(j) then [] else w.turns[1 + j].others
    ensures var w', between := Execute(c, w, Info).0, InfoBetween(w);
            && w'.turns == w.turns[1 + |w.shards|..]
            && w'.trace == w.trace + w.turns[0].others + Others(between, |w.shards|)
            && forall j :: 0 <= j < |w.shards| ==> between[j] == w.turns[1 + j].others
  {
    hide DelTrace, Others, GetShardIndex, RunAll, InfoSamples, InfoText, CountBelow, InRange;
    OthersInRange(InfoBetween(w), |w.shards|, |w.shards|);
  }

  /** The session runs on the thread of its home shard only if there is such a shard. */
  function OwnShard(c: Config, n: nat): Option<nat> {
    match c.home
    case Some(i) => if i < n then Some(i) else None
    case None => None
  }

  lemma ValueExtends(w: World, c: Config, v: RespValue)
    requires OneTrace(w, c)
    ensures var w' := Respond(CacheServer(c), w, v).0; OneTrace(w', c) && Extends(w, w')
  {
    hide OneTrace, Execute;
    OneTraceRuns(w, c);
    if c.toCommand(v).Some? { RequestExtends(w, c, c.toCommand(v).value); }
  }

  lemma {:induction false} ValuesExtend(w: World, c: Config, values: seq<RespValue>)
    requires OneTrace(w, c)
    ensures var w' := RespondAll(CacheServer(c), w, values).0; OneTrace(w', c) && Extends(w, w')
    decreases |values|
  {
    hide OneTrace, Respond;
    OneTraceRuns(w, c);
    if values != [] {
      ValueExtends(w, c, values[0]);
      ValuesExtend(Respond(CacheServer(c), w, values[0]).0, c, values[1..]);
    }
  }

  lemma StartIsOneTrace(c: Config, turns: seq<Turn>)
    requires c.shardCount > 0 && forall t <- turns :: ServerTrace(t.others, c.hash, c.shardCount)
    ensures OneTrace(Start(c, turns), c)
  {
    NoEvents(EmptyShards(c.shardCount, c.budget));
  }

  /** Whatever bytes a client sends, and whatever the others do at its turns, all that happens on the
      shards is one trace of the dispatch. */
  lemma SessionIsOneTrace(c: Config, turns: seq<Turn>, stream: Bytes, max: nat)
    requires c.shardCount > 0 && forall t <- turns :: ServerTrace(t.others, c.hash, c.shardCount)
    ensures OneTrace(Serve(CacheServer(c), Start(c, turns), stream, max).0, c)
  {
    hide OneTrace, ValuesOf, RespondAll;
    StartIsOneTrace(c, turns);
    ValuesExtend(Start(c, turns), c, ValuesOf(stream, max));
  }

  lemma {:induction false} RespondAllSplit<W, C>(server: Server<W, C>, world: W, values: seq<RespValue>, i: nat)
    requires i < |values|
    ensures var (before, _) := RespondAll(server, world, values[..i]);
            var (after, reply) := Respond(server, before, values[i]);
            && RespondAll(server, world, values).1[i] == reply
            && RespondAll(server, world, values).0 == RespondAll(server, after, values[i + 1..]).0
    decreases i
  {
    hide Respond;
    if i > 0 {
      var world' := Respond(server, world, values[0]).0;
      assert values[..i][1..] == values[1..][..i - 1] && values[1..][i..] == values[i + 1..];
      RespondAllSplit(server, world', values[1..], i - 1);
    }
  }

  // ---------------------------------------------------------------------------------------------
  // What a client is told
  // ---------------------------------------------------------------------------------------------

  /** The answer to a command on a key, byte string by byte string, from the shard as the command found it. */
  ghost predicate Told(reply: RespValue, s: Shard, step: Step)
    requires IsKeyed(step.action)
  {
    match step.action
    case GetKey(key) =>
      if reply.BulkString? then exists e <- s.entries :: e.key == key && e.value == reply.text && Lives(e, step.now)
      else reply == NullBulkString && !HasLive(s, key, step.now)
    case SetKey(key, _, mode) =>
      reply == SetReply(mode, HasLive(s, key, step.now))
    case ExpireKey(key, seconds) =>
      if seconds.None? then reply == NoNumberTold()
      else reply == Integer(if exists e <- s.entries :: e.key == key then 1 else 0)
    case TtlKey(key) =>
      && (!HasLive(s, key, step.now) ==> reply == Integer(-2))
      && forall e <- s.entries :: e.key == key && Lives(e, step.now) ==> TimeTold(reply, e.expireAt, step.later)
  }

  function SetReply(mode: SetMode, live: bool): RespValue {
    match mode
    case Plain => SimpleString(Ascii("OK"))
    case ForSeconds(_) => SimpleString(Ascii("OK"))
    case IfAbsent => if live then NullBulkString else SimpleString(Ascii("OK"))
    case IfPresent => if live then SimpleString(Ascii("OK")) else NullBulkString
    case UnknownOption => Error(Ascii("ERR syntax error"))
    case NotANumber => NoNumberTold()
  }

  function NoNumberTold(): RespValue {
    Error(Ascii("ERR value is not an integer or out of range"))
  }

  /** The time left to a deadline, in whole seconds, where it is a 64-bit number. */
  predicate TimeTold(reply: RespValue, deadline: Option<int>, later: int) {
    if deadline.None? then reply == Integer(-1)
    else if deadline.value <= later then reply == Integer(0)
    else
      deadline.value - later < 0x8000_0000_0000_0000 * 1_000_000_000 ==>
        && reply.Integer? && 0 <= reply.number
        && reply.number * 1_000_000_000 <= deadline.value - later < (reply.number + 1) * 1_000_000_000
  }

  /** The reply a step gives is the right answer. */
  lemma StepTold(s: Shard, step: Step)
    requires WellFormed(s) && IsKeyed(step.action)
    ensures Told(ToResp(step.action, Apply(s, step).1), s, step)
  {
    hide Apply, HasLive, WellFormed, Ascii, NothingWritten;
    match step.action
    case GetKey(key) => GetTold(s, key, step);
    case SetKey(key, value, mode) => SetAnswer(s, key, value, mode, step.now, step.later);
    case ExpireKey(key, seconds) => ExpireAnswer(s, key, seconds, step.now, step.later);
    case TtlKey(key) => TtlTold(s, key, step);
  }

  lemma GetTold(s: Shard, key: Bytes, step: Step)
    requires WellFormed(s) && step.action == GetKey(key)
    ensures Told(ToResp(step.action, Apply(s, step).1), s, step)
  {
    hide HasLive, WellFormed, NothingWritten, Get;
    GetAnswer(s, key, step.now, step.later);
  }

  lemma TtlTold(s: Shard, key: Bytes, step: Step)
    requires WellFormed(s) && step.action == TtlKey(key)
    ensures Told(ToResp(step.action, Apply(s, step).1), s, step)
  {
    hide HasLive, WellFormed, NothingWritten, Apply;
    TtlAnswer(s, key, step.now, step.later);
  }

  /** The shards before and after the first `t` events. */
  function ShardsAt(c: Config, trace: seq<Event>, t: nat): seq<Shard>
    requires InRange(c.shardCount, trace) && t <= |trace|
  {
    RunAll(EmptyShards(c.shardCount, c.budget), trace[..t]).0
  }

  /** In one trace, a command on a key is told what it should be. */
  lemma EventTold(w: World, c: Config, t: nat)
    requires OneTrace(w, c) && t < |w.trace| == |w.replies| && IsKeyed(w.trace[t].step.action)
    ensures var Event(shard, step) := w.trace[t];
            && shard == GetShardIndex(c.hash, step.action.key, c.shardCount)
            && Told(ToResp(step.action, w.replies[t]), ShardsAt(c, w.trace, t)[shard], step)
            && ShardsAt(c, w.trace, t + 1)[shard] == Apply(ShardsAt(c, w.trace, t)[shard], step).0
  {
    hide RunAll, Told, Apply, ToResp, Routed, GetShardIndex, WellFormed;
    var start := EmptyShards(c.shardCount, c.budget);
    var Event(shard, step) := w.trace[t];
    BeginningIssued(w.trace, c.hash, c.shardCount, t);
    ServerKeepsRouting(c.shardCount, c.budget, w.trace[..t], c.hash);
    ReplyAt(start, w.trace, t);
    StepTold(ShardsAt(c, w.trace, t)[shard], step);
    assert w.trace[..t + 1] == w.trace[..t] + [w.trace[t]];
    RunAllAppend(start, w.trace[..t], [w.trace[t]]);
    RunAllOne(ShardsAt(c, w.trace, t), w.trace[t]);
  }

  /** The world after a session's first commands. */
  function WorldAfter(c: Config, turns: seq<Turn>, values: seq<RespValue>, i: nat): World
    requires i <= |values|
  {
    RespondAll(CacheServer(c), Start(c, turns), values[..i]).0
  }

  /** Where the `i`-th command stands between those before and after it. */
  lemma CommandStands(c: Config, turns: seq<Turn>, stream: Bytes, max: nat, i: nat, request: Request)
    requires c.shardCount > 0 && forall turn <- turns :: ServerTrace(turn.others, c.hash, c.shardCount)
    requires i < |ValuesOf(stream, max)| && c.toCommand(ValuesOf(stream, max)[i]) == Some(request)
    ensures var (w, replies) := Serve(CacheServer(c), Start(c, turns), stream, max);
            var before := WorldAfter(c, turns, ValuesOf(stream, max), i);
            var (after, reply) := Execute(c, before, request);
            && OneTrace(before, c) && OneTrace(after, c) && OneTrace(w, c)
            && Extends(before, after) && Extends(after, w) && i < |replies| && replies[i] == reply
  {
    var server, start, values := CacheServer(c), Start(c, turns), ValuesOf(stream, max);
    hide OneTrace, ValuesOf, RespondAll, Execute, FinalError, RestOf;
    var before := RespondAll(server, start, values[..i]).0;
    var after := Respond(server, before, values[i]).0;
    StartIsOneTrace(c, turns);
    ValuesExtend(start, c, values[..i]);
    RespondAllSplit(server, start, values, i);
    ValueExtends(before, c, values[i]);
    ValuesExtend(after, c, values[i + 1..]);
  }

  /** The answer to the `i`-th command a client sends, when this is on a key: it comes from one event of the
      one trace, on the owner of the key, later than all that the client's earlier commands did, and says
      what that shard held. */
  lemma AnsweredOnKey(c: Config, turns: seq<Turn>, stream: Bytes, max: nat, i: nat, action: KeyedAction)
    returns (t: nat)
    requires c.shardCount > 0 && forall turn <- turns :: ServerTrace(turn.others, c.hash, c.shardCount)
    requires i < |ValuesOf(stream, max)| && c.toCommand(ValuesOf(stream, max)[i]) == Some(OnKey(action))
    ensures var (w, replies) := Serve(CacheServer(c), Start(c, turns), stream, max);
            var earlier := WorldAfter(c, turns, ValuesOf(stream, max), i).trace;
            && OneTrace(w, c) && earlier <= w.trace && |earlier| <= t < |w.trace| == |w.replies|
            && w.trace[t].step.action == action && i < |replies|
            && var Event(shard, step) := w.trace[t];
               && shard == GetShardIndex(c.hash, action.key, c.shardCount)
               && Told(replies[i], ShardsAt(c, w.trace, t)[shard], step)
               && ShardsAt(c, w.trace, t + 1)[shard] == Apply(ShardsAt(c, w.trace, t)[shard], step).0
               && replies[i] == ToResp(action, w.replies[t])
  {
    hide OneTrace, ValuesOf, RespondAll, Execute, ToResp, Told, Serve, ShardsAt, Apply, GetShardIndex;
    CommandStands(c, turns, stream, max, i, OnKey(action));
    var w := Serve(CacheServer(c), Start(c, turns), stream, max).0;
    t := KeyAnswered(WorldAfter(c, turns, ValuesOf(stream, max), i), c, action);
    OneTraceRuns(w, c);
    EventTold(w, c, t);
  }

  /** A command that touches no shard gets its fixed answer. */
  lemma AnsweredFixed(c: Config, turns: seq<Turn>, stream: Bytes, max: nat, i: nat, answer: RespValue)
    requires c.shardCount > 0 && forall turn <- turns :: ServerTrace(turn.others, c.hash, c.shardCount)
    requires i < |ValuesOf(stream, max)| && c.toCommand(ValuesOf(stream, max)[i]) == Some(Fixed(answer))
    ensures var replies := Serve(CacheServer(c), Start(c, turns), stream, max).1;
            i < |replies| && replies[i] == answer
  {
    hide OneTrace, ValuesOf, RespondAll, Serve;
    CommandStands(c, turns, stream, max, i, Fixed(answer));
    OneTraceRuns(WorldAfter(c, turns, ValuesOf(stream, max), i), c);
  }

  lemma KeyAnswered(w: World, c: Config, action: KeyedAction) returns (t: nat)
    requires OneTrace(w, c)
    ensures var (w', reply) := Execute(c, w, OnKey(action));
            && |w.trace| <= t < |w'.trace| == |w'.replies| && w'.trace[t].step.action == action
            && reply == ToResp(action, w'.replies[t])
  {
    hide OneTrace, ToResp;
    OneTraceRuns(w, c);
    RequestExtends(w, c, OnKey(action));
    t := |Execute(c, w, OnKey(action)).0.trace| - 1;
  }

  /** A value that a client's GET returns is the last one acknowledged to anyone before that event, not
      deleted since and before its deadline; and a null is returned only if the key's shard has no live entry
      for it. */
  lemma AnsweredGetNeverStale(c: Config, turns: seq<Turn>, stream: Bytes, max: nat, i: nat, key: Bytes)
    returns (t: nat)
    requires c.shardCount > 0 && forall turn <- turns :: ServerTrace(turn.others, c.hash, c.shardCount)
    requires i < |ValuesOf(stream, max)| && c.toCommand(ValuesOf(stream, max)[i]) == Some(OnKey(GetKey(key)))
    ensures var (w, replies) := Serve(CacheServer(c), Start(c, turns), stream, max);
            && OneTrace(w, c) && |WorldAfter(c, turns, ValuesOf(stream, max), i).trace| <= t < |w.trace| == |w.replies|
            && w.trace[t].step.action == GetKey(key) && i < |replies|
            && var now, known := w.trace[t].step.now, TraceHistory(None, w.trace[..t], w.replies[..t], key);
               match replies[i]
               case BulkString(v) => known.Some? && known.value.value == v
                                     && (known.value.deadline.None? || now < known.value.deadline.value)
               case NullBulkString =>
                 !HasLive(ShardsAt(c, w.trace, t)[GetShardIndex(c.hash, key, c.shardCount)], key, now)
               case _ => false
  {
    t := AnsweredOnKey(c, turns, stream, max, i, GetKey(key));
    hide OneTrace, ValuesOf, RespondAll, Serve, ShardsAt, Apply, TraceHistory, HasLive, GetShardIndex;
    var w := Serve(CacheServer(c), Start(c, turns), stream, max).0;
    OneTraceGet(w, c, t);
  }

  lemma OneTraceGet(w: World, c: Config, t: nat)
    requires OneTrace(w, c) && t < |w.trace| == |w.replies| && w.trace[t].step.action.GetKey?
    ensures GetCoherent(w.replies[t], TraceHistory(None, w.trace[..t], w.replies[..t], w.trace[t].step.action.key),
                        w.trace[t].step.now)
  {
    hide RunAll, TraceHistory, GetCoherent;
    ServerGetNeverStale(c.shardCount, c.budget, w.trace, c.hash, t);
  }

  /** The answer to a DEL: the number of distinct arguments that were resident on their shards when the batches
      ran, one batch for each shard and all of them in the trace; left alone, the number resident anywhere,
      none of which stays while the rest keeps its order. */
  lemma AnsweredDelete(c: Config, turns: seq<Turn>, stream: Bytes, max: nat, i: nat, args: seq<Bytes>)
    returns (p: nat, call: Call)
    requires c.shardCount > 0 && forall turn <- turns :: ServerTrace(turn.others, c.hash, c.shardCount)
    requires i < |ValuesOf(stream, max)| && c.toCommand(ValuesOf(stream, max)[i]) == Some(Delete(args))
    ensures var (w, replies) := Serve(CacheServer(c), Start(c, turns), stream, max);
            && OneTrace(w, c) && i < |replies|
            && call.args == args && call.home == OwnShard(c, c.shardCount)
            && FitsServer(call, c.shardCount) && OthersRouted(call, c.hash, c.shardCount)
            && |WorldAfter(c, turns, ValuesOf(stream, max), i).trace| <= p
            && var done := DelTrace(call, c.hash, c.shardCount, c.shardCount);
               && p + |done| <= |w.trace| && w.trace[p..p + |done|] == done
               && DeleteTold(replies[i], c, call, ShardsAt(c, w.trace, p), ShardsAt(c, w.trace, p + |done|))
  {
    hide OneTrace, ValuesOf, RespondAll, Execute, Serve, ShardsAt, DelTrace, DeleteTold;
    CommandStands(c, turns, stream, max, i, Delete(args));
    var before := WorldAfter(c, turns, ValuesOf(stream, max), i);
    p, call := DeleteAnswered(before, c, args);
    var w := Serve(CacheServer(c), Start(c, turns), stream, max).0;
    var after, n := Execute(c, before, Delete(args)).0, |DelTrace(call, c.hash, c.shardCount, c.shardCount)|;
    OneTraceRuns(w, c);
    ShardsAtBeginning(c, after, w, p);
    ShardsAtBeginning(c, after, w, p + n);
    assert w.trace[p..p + n] == after.trace[p..p + n];
  }

  lemma DeleteAnswered(w: World, c: Config, args: seq<Bytes>) returns (p: nat, call: Call)
    requires OneTrace(w, c)
    ensures var (w', reply) := Execute(c, w, Delete(args));
            && call.args == args && call.home == OwnShard(c, c.shardCount)
            && FitsServer(call, c.shardCount) && OthersRouted(call, c.hash, c.shardCount)
            && OneTrace(w', c) && |w.trace| <= p
            && var done := DelTrace(call, c.hash, c.shardCount, c.shardCount);
               && p + |done| <= |w'.trace| && w'.trace[p..p + |done|] == done
               && DeleteTold(reply, c, call, ShardsAt(c, w'.trace, p), ShardsAt(c, w'.trace, p + |done|))
  {
    hide OneTrace, DelTrace, DelCall, CountBelow, Issued, RunAll, ShardsAt, DeleteTold, Routed, WellFormed;
    OneTraceRuns(w, c);
    OthersIssued(w, c);
    DelCallIssued(c, w, args);
    DeleteExtends(w, c, args);
    var n, later := c.shardCount, Later(w.turns, 1 + c.shardCount);
    call := DelCall(c, w, args);
    CallArgs(c, w, args);
    EventsExtend(w, c, Next(w.turns).others, later);
    var first := RunEvents(w, Next(w.turns).others, later);
    var done := DelTrace(call, c.hash, n, n);
    var w' := RunEvents(first, done, later);
    p := |first.trace|;
    OneTraceShards(first, c);
    OneTraceShards(w', c);
    assert w'.trace == first.trace + done;
    ShardsAtBeginning(c, first, w', p);
    CountTold(c, call, first.shards);
  }

  lemma CallArgs(c: Config, w: World, args: seq<Bytes>)
    requires Runnable(w)
    ensures DelCall(c, w, args).args == args && DelCall(c, w, args).home == OwnShard(c, |w.shards|)
  {
  }

  /** The shards of a world are those after its whole trace, routed and well-formed. */
  lemma OneTraceShards(w: World, c: Config)
    requires OneTrace(w, c)
    ensures w.shards == ShardsAt(c, w.trace, |w.trace|) && |w.shards| == c.shardCount
    ensures Routed(w.shards, c.hash) && AllWellFormed(w.shards)
  {
    hide RunAll, Routed, AllWellFormed;
    assert w.trace[..|w.trace|] == w.trace;
    ServerKeepsRouting(c.shardCount, c.budget, w.trace, c.hash);
  }

  lemma CountTold(c: Config, call: Call, model: seq<Shard>)
    requires FitsServer(call, |model|) && OthersRouted(call, c.hash, |model|)
    requires Routed(model, c.hash) && AllWellFormed(model)
    ensures DeleteTold(NumberReply(CountBelow(model, call, c.hash, |model|, None)), c, call, model,
                       RunAll(model, DelTrace(call, c.hash, |model|, |model|)).0)
  {
    hide RunAll, DelTrace, CountBelow, ResidentAtBatches, FitsServer, OthersRouted, Routed, AllWellFormed, Undisturbed,
      Remove, AllKeys;
    CountsResidents(model, call, c.hash, |model|);
    if Undisturbed(call) { DelIsFlat(model, call, c.hash); }
  }

  lemma ShardsAtBeginning(c: Config, u: World, w: World, t: nat)
    requires OneTrace(u, c) && OneTrace(w, c) && u.trace <= w.trace && t <= |u.trace|
    ensures ShardsAt(c, u.trace, t) == ShardsAt(c, w.trace, t)
  {
    assert u.trace[..t] == w.trace[..t];
  }

  /** What a DEL is told, and what it leaves if nothing else ran between its batches. */
  ghost predicate DeleteTold(reply: RespValue, c: Config, call: Call, model: seq<Shard>, after: seq<Shard>) {
    && FitsServer(call, |model|) && |after| == |model|
    && var count := ResidentAtBatches(model, call, c.hash, |model|);
       && (count <= 0x7FFF_FFFF_FFFF_FFFF ==> reply == Integer(count))
       && (Undisturbed(call) ==>
             && count == |KeySet(call.args) * AllKeys(model, |model|)|
             && forall j :: 0 <= j < |model| ==>
                  after[j] == model[j].(entries := Remove(model[j].entries, KeySet(call.args))))
  }

  /** A line of a text gives this number under this name. */
  ghost predicate HasLine(text: Bytes, name: Bytes, n: int) {
    exists before, after :: text == before + (name + Print(n) + Ascii("\r\n")) + after
  }

  /** The text of an INFO reply, for these shards as it found them one after another. */
  ghost predicate InfoTold(reply: RespValue, model: seq<Shard>, between: seq<seq<Event>>)
    requires FitsShards(model, between)
  {
    var total := SumStats(InfoSamples(model, between));
    && reply.BulkString? && total.usedBytes <= total.maxMemoryBytes
    && HasLine(reply.text, Ascii("used_bytes:"), total.usedBytes) && HasLine(reply.text, Ascii("keys:"), total.keyCount)
    && HasLine(reply.text, Ascii("evictions:"), total.evictions)
    && HasLine(reply.text, Ascii("expired:"), total.expired)
    && HasLine(reply.text, Ascii("max_memory_bytes:"), total.maxMemoryBytes)
  }

  lemma InfoLines(t: Stats)
    ensures var text := InfoText(t);
            && HasLine(text, Ascii("used_bytes:"), t.usedBytes) && HasLine(text, Ascii("keys:"), t.keyCount)
            && HasLine(text, Ascii("evictions:"), t.evictions) && HasLine(text, Ascii("expired:"), t.expired)
            && HasLine(text, Ascii("max_memory_bytes:"), t.maxMemoryBytes)
  {
    var head, end := Ascii("# Memory\r\n"), Ascii("memory_model:payload_bytes\r\n");
    var used, keys := InfoLine(Ascii("used_bytes:"), t.usedBytes), InfoLine(Ascii("keys:"), t.keyCount);
    var evicted, expired := InfoLine(Ascii("evictions:"), t.evictions), InfoLine(Ascii("expired:"), t.expired);
    var most := InfoLine(Ascii("max_memory_bytes:"), t.maxMemoryBytes);
    KindBytes();
    assert InfoText(t) == head + used + keys + evicted + expired + most + end;
    hide InfoText, Ascii, Print;
    LineWithin(head, Ascii("used_bytes:"), t.usedBytes, keys + evicted + expired + most + end);
    LineWithin(head + used, Ascii("keys:"), t.keyCount, evicted + expired + most + end);
    LineWithin(head + used + keys, Ascii("evictions:"), t.evictions, expired + most + end);
    LineWithin(head + used + keys + evicted, Ascii("expired:"), t.expired, most + end);
    LineWithin(head + used + keys + evicted + expired, Ascii("max_memory_bytes:"), t.maxMemoryBytes, end);
    SixParts(head, used, keys, evicted, expired, most, end);
  }

  lemma LineWithin(before: Bytes, name: Bytes, n: nat, after: Bytes)
    ensures HasLine(before + InfoLine(name, n) + after, name, n)
  {
    KindBytes();
    assert before + InfoLine(name, n) + after == before + (name + Print(n) + Ascii("\r\n")) + after;
  }

  lemma SixParts(a: Bytes, b: Bytes, c: Bytes, d: Bytes, e: Bytes, f: Bytes, g: Bytes)
    ensures var all := a + b + c + d + e + f + g;
            && all == a + b + (c + d + e + f + g) && all == a + b + c + (d + e + f + g)
            && all == a + b + c + d + (e + f + g) && all == a + b + c + d + e + (f + g)
  {
  }

  /** The answer to an INFO: five numbers, each the sum over the shards of what they held when they were read,
      one after another, with anything in between. */
  lemma AnsweredInfo(c: Config, turns: seq<Turn>, stream: Bytes, max: nat, i: nat)
    returns (p: nat, between: seq<seq<Event>>)
    requires c.shardCount > 0 && forall turn <- turns :: ServerTrace(turn.others, c.hash, c.shardCount)
    requires i < |ValuesOf(stream, max)| && c.toCommand(ValuesOf(stream, max)[i]) == Some(Info)
    ensures var (w, replies) := Serve(CacheServer(c), Start(c, turns), stream, max);
            && OneTrace(w, c) && i < |replies| && |WorldAfter(c, turns, ValuesOf(stream, max), i).trace| <= p
            && |between| == c.shardCount
            && var others := Others(between, c.shardCount);
               && p + |others| <= |w.trace| && w.trace[p..p + |others|] == others
               && FitsShards(ShardsAt(c, w.trace, p), between)
               && InfoTold(replies[i], ShardsAt(c, w.trace, p), between)
  {
    hide OneTrace, ValuesOf, RespondAll, Execute, Serve, ShardsAt, Others, InfoTold, FitsShards;
    CommandStands(c, turns, stream, max, i, Info);
    var before := WorldAfter(c, turns, ValuesOf(stream, max), i);
    p, between := InfoAnswered(before, c);
    var w := Serve(CacheServer(c), Start(c, turns), stream, max).0;
    var after, n := Execute(c, before, Info).0, |Others(between, c.shardCount)|;
    OneTraceRuns(w, c);
    ShardsAtBeginning(c, after, w, p);
    assert w.trace[p..p + n] == after.trace[p..p + n];
  }

  lemma InfoAnswered(w: World, c: Config) returns (p: nat, between: seq<seq<Event>>)
    requires OneTrace(w, c)
    ensures var (w', reply) := Execute(c, w, Info);
            && OneTrace(w', c) && |w.trace| <= p && |between| == c.shardCount
            && var others := Others(between, c.shardCount);
               && p + |others| <= |w'.trace| && w'.trace[p..p + |others|] == others
               && FitsShards(ShardsAt(c, w'.trace, p), between) && InfoTold(reply, ShardsAt(c, w'.trace, p), between)
  {
    hide OneTrace, Issued, RunAll, ShardsAt, InfoSamples, InfoText, SumStats, Routed, WellFormed, HasLine, Ascii;
    OneTraceRuns(w, c);
    OthersIssued(w, c);
    InfoBetweenIssued(w, c);
    InfoExtends(w, c);
    var n, later := c.shardCount, Later(w.turns, 1 + c.shardCount);
    between := InfoBetween(w);
    EventsExtend(w, c, Next(w.turns).others, later);
    var first := RunEvents(w, Next(w.turns).others, later);
    OthersInRange(between, n, n);
    var w' := RunEvents(first, Others(between, n), later);
    p := |first.trace|;
    OneTraceShards(first, c);
    assert w'.trace == first.trace + Others(between, n);
    ShardsAtBeginning(c, first, w', p);
    InfoFits(first.shards, between);
    InfoLines(SumStats(InfoSamples(first.shards, between)));
  }
}
