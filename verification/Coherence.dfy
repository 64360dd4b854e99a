/** What a client can conclude from the replies it has seen: a resident key holds exactly what the
    acknowledged commands on it say, so a reply is never stale. */
module Coherence {
  import opened Basics
  import opened ShardModel
  import opened ShardSteps
  import opened Interleaving

  /** What the acknowledged commands say about a key. */
  datatype Written = Written(value: Bytes, deadline: Option<int>)

  /** One command and its reply: an acknowledged SET writes, an EXPIRE that found the key moves its
      deadline, a DEL forgets; lookups, sweeps and refused commands say nothing. */
  function Observe(known: Option<Written>, step: Step, reply: Reply, key: Bytes): Option<Written> {
    match step.action
    case SetKey(k, value, mode) =>
      if k != key || reply != Done then known
      else Some(Written(value, if mode.ForSeconds? then Some(step.now + mode.seconds * TICKS_PER_SECOND) else None))
    case ExpireKey(k, seconds) =>
      if k != key || reply != Number(1) || seconds.None? || known.None? then known
      else Some(Written(known.value.value, Some(step.now + seconds.value * TICKS_PER_SECOND)))
    case DelKeys(keys) => if key in keys then None else known
    case _ => known
  }

  function History(known: Option<Written>, steps: seq<Step>, replies: seq<Reply>, key: Bytes): Option<Written>
    requires |steps| == |replies|
    decreases |steps|
  {
    if steps == [] then known
    else History(Observe(known, steps[0], replies[0], key), steps[1..], replies[1..], key)
  }

  /** If the key is resident, it holds what is known of it. */
  ghost predicate Agrees(es: seq<Entry>, key: Bytes, known: Option<Written>) {
    forall e <- es :: e.key == key ==> known == Some(Written(e.value, e.expireAt))
  }

  lemma AgreesSet(s: Shard, k: Bytes, value: Bytes, expireAt: Option<int>, key: Bytes, known: Option<Written>)
    requires k != key ==> Agrees(s.entries, key, known)
    ensures Agrees(Set(s, k, value, expireAt).entries, key, if k == key then Some(Written(value, expireAt)) else known)
  {
    var written := [Entry(k, value, expireAt)] + Without(s.entries, k);
    assert forall e <- Trim(written, s.budget) :: e in written;
  }

  lemma AgreesGet(s: Shard, k: Bytes, now: int, key: Bytes, known: Option<Written>)
    requires Agrees(s.entries, key, known)
    ensures Agrees(Get(s, k, now).0.entries, key, known)
  {
    hide Without;
  }

  lemma {:induction false} AgreesDelAll(s: Shard, keys: seq<Bytes>, key: Bytes, known: Option<Written>)
    requires Agrees(s.entries, key, known)
    ensures Agrees(DelAll(s, keys).0.entries, key, if key in keys then None else known)
    decreases |keys|
  {
    if keys != [] {
      hide Without;
      assert keys == [keys[0]] + keys[1..];
      AgreesDelAll(Del(s, keys[0]).0, keys[1..], key, if keys[0] == key then None else known);
    }
  }

  lemma {:induction false} AgreesDeadline(es: seq<Entry>, k: Bytes, deadline: int, key: Bytes, known: Option<Written>)
    requires Agrees(es, key, known)
    ensures k != key ==> Agrees(WithDeadline(es, k, deadline), key, known)
    ensures k == key && known.Some? ==>
              Agrees(WithDeadline(es, k, deadline), key, Some(Written(known.value.value, Some(deadline))))
  {
    if es != [] {
      assert es[0] in es;
      assert forall e <- es[1..] :: e in es;
      AgreesDeadline(es[1..], k, deadline, key, known);
    }
  }

  lemma SetStepAgrees(s: Shard, step: Step, key: Bytes, known: Option<Written>)
    requires step.action.SetKey? && Agrees(s.entries, key, known)
    ensures Agrees(Apply(s, step).0.entries, key, Observe(known, step, Apply(s, step).1, key))
  {
    hide Set, Get, Agrees;
    var SetKey(k, value, mode) := step.action;
    AgreesGet(s, k, step.now, key, known);
    AgreesSet(s, k, value, if mode.ForSeconds? then Deadline(Some(mode.seconds), step.now) else None, key, known);
    AgreesSet(Get(s, k, step.now).0, k, value, None, key, known);
  }

  lemma StepAgrees(s: Shard, step: Step, key: Bytes, known: Option<Written>)
    requires Agrees(s.entries, key, known)
    ensures Agrees(Apply(s, step).0.entries, key, Observe(known, step, Apply(s, step).1, key))
  {
    hide Get, Set, Without, WithDeadline, Find, DelAll;
    match step.action
    case SetKey(_, _, _) => SetStepAgrees(s, step, key, known);
    case GetKey(k) => AgreesGet(s, k, step.now, key, known);
    case DelKeys(keys) => AgreesDelAll(s, keys, key, known);
    case ExpireKey(k, seconds) =>
      if seconds.Some? {
        AgreesDeadline(s.entries, k, step.now + seconds.value * TICKS_PER_SECOND, key, known);
        if k !in Keys(s.entries) { DeadlineAbsent(s.entries, k, step.now + seconds.value * TICKS_PER_SECOND); }
      }
    case TtlKey(k) =>
    case SampleStats =>
    case SweepExpired =>
  }

  lemma {:induction false} RunAgrees(s: Shard, steps: seq<Step>, key: Bytes, known: Option<Written>)
    requires Agrees(s.entries, key, known)
    ensures Agrees(Run(s, steps).0.entries, key, History(known, steps, Run(s, steps).1, key))
    decreases |steps|
  {
    hide Apply, Agrees, Observe;
    if steps != [] {
      var (s', reply) := Apply(s, steps[0]);
      StepAgrees(s, steps[0], key, known);
      RunAgrees(s', steps[1..], key, Observe(known, steps[0], reply, key));
      assert Run(s, steps).1[1..] == Run(s', steps[1..]).1;
    }
  }

  /** A value found is the one known, before its deadline. */
  ghost predicate GetCoherent(reply: Reply, known: Option<Written>, now: int) {
    reply.Value? && (reply.value.Some? ==>
      && known.Some? && known.value.value == reply.value.value
      && (known.value.deadline.Some? ==> now < known.value.deadline.value))
  }

  /** A deadline told is the one known: -1 for none, else the whole seconds left. */
  ghost predicate TtlCoherent(reply: Reply, known: Option<Written>, later: int) {
    reply.Number? && (reply.n != -2 ==>
      && known.Some?
      && (reply.n == -1 <==> known.value.deadline.None?)
      && (known.value.deadline.Some? ==>
            var left := known.value.deadline.value - later;
            if left <= 0 then reply.n == 0
            else reply.n * TICKS_PER_SECOND <= left < (reply.n + 1) * TICKS_PER_SECOND))
  }

  /** After any history of an initially empty shard, a GET that finds a value returns the last one
      acknowledged and not deleted since, before its deadline. */
  lemma GetNeverStale(budget: nat, steps: seq<Step>, key: Bytes, now: int)
    ensures var (s, replies) := Run(Empty(budget), steps);
            GetCoherent(Value(Get(s, key, now).1), History(None, steps, replies, key), now)
  {
    RunAgrees(Empty(budget), steps, key, None);
    hide Run, History;
  }

  /** A TTL reply tells the last acknowledged deadline. */
  lemma TtlNeverStale(budget: nat, steps: seq<Step>, key: Bytes, now: int, later: int)
    ensures var (s, replies) := Run(Empty(budget), steps);
            TtlCoherent(Number(Ttl(s, key, now, later).1), History(None, steps, replies, key), later)
  {
    RunAgrees(Empty(budget), steps, key, None);
    hide Run, History;
  }

  // ---------------------------------------------------------------------------------------------
  // The whole server
  // ---------------------------------------------------------------------------------------------

  /** What the commands of a whole trace, on all shards, say about a key. */
  function TraceHistory(known: Option<Written>, trace: seq<Event>, replies: seq<Reply>, key: Bytes): Option<Written>
    requires |trace| == |replies|
    decreases |trace|
  {
    if trace == [] then known
    else TraceHistory(Observe(known, trace[0].step, replies[0], key), trace[1..], replies[1..], key)
  }

  /** Steps on other keys say nothing about this one. */
  lemma ObserveOther(known: Option<Written>, step: Step, reply: Reply, key: Bytes)
    requires key !in KeysOf(step.action)
    ensures Observe(known, step, reply, key) == known
  {
  }

  /** Under the dispatch, only the owner of a key has anything to say about it. */
  lemma {:induction false} OwnerKnows(known: Option<Written>, trace: seq<Event>, replies: seq<Reply>, key: Bytes,
                                      hash: Hash, shardCount: nat)
    requires |trace| == |replies| && shardCount > 0 && SentToOwner(trace, hash, shardCount)
    ensures var owner := GetShardIndex(hash, key, shardCount);
            TraceHistory(known, trace, replies, key)
            == History(known, StepsOf(trace, owner), RepliesOf(trace, replies, owner), key)
    decreases |trace|
  {
    if trace != [] {
      hide Observe, KeysOf, GetShardIndex;
      var owner := GetShardIndex(hash, key, shardCount);
      var known' := Observe(known, trace[0].step, replies[0], key);
      OwnerKnows(known', trace[1..], replies[1..], key, hash, shardCount);
      if trace[0].shard == owner {
        assert StepsOf(trace, owner)[1..] == StepsOf(trace[1..], owner);
        assert RepliesOf(trace, replies, owner)[1..] == RepliesOf(trace[1..], replies[1..], owner);
      } else {
        assert OwnsKeys(trace[0], hash, shardCount);
        ObserveOther(known, trace[0].step, replies[0], key);
      }
    }
  }

  /** After any trace of the server, a resident key holds what the whole trace says about it. */
  lemma ServerAgrees(n: nat, budget: nat, trace: seq<Event>, key: Bytes, hash: Hash)
    requires ServerTrace(trace, hash, n)
    ensures var (shards, replies) := RunAll(EmptyShards(n, budget), trace);
            Agrees(shards[GetShardIndex(hash, key, n)].entries, key, TraceHistory(None, trace, replies, key))
  {
    hide RunAll, Run, Agrees, History, TraceHistory, GetShardIndex;
    var owner := GetShardIndex(hash, key, n);
    DispatchRoutes(trace, hash, n);
    ShardRunsAlone(EmptyShards(n, budget), trace, owner);
    OwnerKnows(None, trace, RunAll(EmptyShards(n, budget), trace).1, key, hash, n);
    EmptyAgrees(budget, key);
    RunAgrees(Empty(budget), StepsOf(trace, owner), key, None);
  }

  lemma EmptyAgrees(budget: nat, key: Bytes)
    ensures Agrees(Empty(budget).entries, key, None)
  {
  }

  /** Every GET of every trace, on any number of shards and among any other commands and sweeps, that finds
      a value returns the last one acknowledged anywhere before it and not deleted since, before its
      deadline. */
  lemma ServerGetNeverStale(n: nat, budget: nat, trace: seq<Event>, hash: Hash, t: nat)
    requires ServerTrace(trace, hash, n) && t < |trace| && trace[t].step.action.GetKey?
    ensures var replies := RunAll(EmptyShards(n, budget), trace).1;
            GetCoherent(replies[t], TraceHistory(None, trace[..t], replies[..t], trace[t].step.action.key),
                        trace[t].step.now)
  {
    hide RunAll, TraceHistory, GetShardIndex;
    var step := trace[t].step;
    BeginningIssued(trace, hash, n, t);
    ServerAgrees(n, budget, trace[..t], step.action.key, hash);
    ReplyAt(EmptyShards(n, budget), trace, t);
  }

  lemma BeginningIssued(trace: seq<Event>, hash: Hash, n: nat, t: nat)
    requires ServerTrace(trace, hash, n) && t < |trace|
    ensures ServerTrace(trace[..t], hash, n)
    ensures IsKeyed(trace[t].step.action) ==> trace[t].shard == GetShardIndex(hash, trace[t].step.action.key, n)
  {
    assert Issued(trace[t], hash, n);
  }

  /** The same for every TTL of every trace: it tells the last deadline acknowledged anywhere. */
  lemma ServerTtlNeverStale(n: nat, budget: nat, trace: seq<Event>, hash: Hash, t: nat)
    requires ServerTrace(trace, hash, n) && t < |trace| && trace[t].step.action.TtlKey?
    ensures var replies := RunAll(EmptyShards(n, budget), trace).1;
            TtlCoherent(replies[t], TraceHistory(None, trace[..t], replies[..t], trace[t].step.action.key),
                        trace[t].step.later)
  {
    hide RunAll, TraceHistory, GetShardIndex;
    var step := trace[t].step;
    BeginningIssued(trace, hash, n, t);
    ServerAgrees(n, budget, trace[..t], step.action.key, hash);
    ReplyAt(EmptyShards(n, budget), trace, t);
  }
}
