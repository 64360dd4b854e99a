/** Many shards under one interleaving of atomic per-shard steps: commands of all sessions and the
    background sweeps. */
module Interleaving {
  import opened Basics
  import opened ShardModel
  import opened ShardSteps
  import opened ShardRuns

  type Hash = Bytes -> nat

  /** The hash is arbitrary; a single shard needs none. */
  function GetShardIndex(hash: Hash, key: Bytes, shardCount: nat): (i: nat)
    requires shardCount > 0
    ensures i < shardCount
  {
    if shardCount == 1 then 0 else hash(key) % shardCount
  }

  /** The index is what is left of the hash when whole rounds of the shards are taken away. */
  lemma ShardOfHash(hash: Hash, key: Bytes, shardCount: nat)
    requires shardCount > 0
    ensures exists rounds: nat :: hash(key) == rounds * shardCount + GetShardIndex(hash, key, shardCount)
  {
    var rounds := hash(key) / shardCount;
    assert hash(key) == rounds * shardCount + hash(key) % shardCount;
  }

  /** Every shard is some hash's choice. */
  lemma EveryShardSelected(key: Bytes, shardCount: nat, i: nat) returns (hash: Hash)
    requires i < shardCount
    ensures GetShardIndex(hash, key, shardCount) == i
  {
    hash := _ => i;
  }

  /** One atomic step on one shard. */
  datatype Event = Event(shard: nat, step: Step)

  predicate InRange(shardCount: nat, trace: seq<Event>) {
    forall e <- trace :: e.shard < shardCount
  }

  /** The final shards and the replies, one per event. */
  function RunAll(shards: seq<Shard>, trace: seq<Event>): (r: (seq<Shard>, seq<Reply>))
    requires InRange(|shards|, trace)
    ensures |r.0| == |shards| && |r.1| == |trace|
    decreases |trace|
  {
    if trace == [] then (shards, [])
    else
      var Event(i, step) := trace[0];
      var (s, reply) := Apply(shards[i], step);
      var (shards', replies) := RunAll(shards[i := s], trace[1..]);
      (shards', [reply] + replies)
  }

  /** What one shard sees of a trace. */
  function StepsOf(trace: seq<Event>, i: nat): seq<Step> {
    if trace == [] then []
    else if trace[0].shard == i then [trace[0].step] + StepsOf(trace[1..], i)
    else StepsOf(trace[1..], i)
  }

  /** The replies one shard gives. */
  function RepliesOf(trace: seq<Event>, replies: seq<Reply>, i: nat): (r: seq<Reply>)
    requires |replies| == |trace|
    ensures |r| == |StepsOf(trace, i)|
  {
    if trace == [] then []
    else if trace[0].shard == i then [replies[0]] + RepliesOf(trace[1..], replies[1..], i)
    else RepliesOf(trace[1..], replies[1..], i)
  }

  /** Each shard behaves as if its own steps were the only ones. */
  lemma {:induction false} ShardRunsAlone(shards: seq<Shard>, trace: seq<Event>, i: nat)
    requires InRange(|shards|, trace) && i < |shards|
    ensures RunAll(shards, trace).0[i] == Run(shards[i], StepsOf(trace, i)).0
    ensures RepliesOf(trace, RunAll(shards, trace).1, i) == Run(shards[i], StepsOf(trace, i)).1
    decreases |trace|
  {
    if trace != [] {
      hide Apply;
      var Event(j, step) := trace[0];
      var shards' := shards[j := Apply(shards[j], step).0];
      ShardRunsAlone(shards', trace[1..], i);
      assert RunAll(shards, trace).1[1..] == RunAll(shards', trace[1..]).1;
      if j == i {
        assert StepsOf(trace, i)[1..] == StepsOf(trace[1..], i);
      }
    }
  }

  /** Two interleavings in which every shard sees the same steps, clock readings included, end in the
      same state and give every shard's steps the same replies. */
  lemma InterleavingIrrelevant(shards: seq<Shard>, trace: seq<Event>, trace': seq<Event>)
    requires InRange(|shards|, trace) && InRange(|shards|, trace')
    requires forall i :: 0 <= i < |shards| ==> StepsOf(trace, i) == StepsOf(trace', i)
    ensures RunAll(shards, trace).0 == RunAll(shards, trace').0
    ensures forall i :: 0 <= i < |shards| ==>
              RepliesOf(trace, RunAll(shards, trace).1, i) == RepliesOf(trace', RunAll(shards, trace').1, i)
  {
    forall i | 0 <= i < |shards|
      ensures RunAll(shards, trace).0[i] == RunAll(shards, trace').0[i]
      ensures RepliesOf(trace, RunAll(shards, trace).1, i) == RepliesOf(trace', RunAll(shards, trace').1, i)
    {
      ShardRunsAlone(shards, trace, i);
      ShardRunsAlone(shards, trace', i);
    }
  }

  lemma RunAllCons(shards: seq<Shard>, e: Event, trace: seq<Event>)
    requires InRange(|shards|, [e] + trace)
    ensures var (s, reply) := Apply(shards[e.shard], e.step);
            var (shards', replies) := RunAll(shards[e.shard := s], trace);
            RunAll(shards, [e] + trace) == (shards', [reply] + replies)
  {
    hide Apply;
    assert ([e] + trace)[1..] == trace;
  }

  lemma NoEvents(shards: seq<Shard>)
    ensures InRange(|shards|, []) && RunAll(shards, []) == (shards, [])
  {
  }

  lemma RunAllOne(shards: seq<Shard>, e: Event)
    requires e.shard < |shards|
    ensures var (s, reply) := Apply(shards[e.shard], e.step);
            RunAll(shards, [e]) == (shards[e.shard := s], [reply])
  {
    hide Apply, RunAll;
    assert [e] + [] == [e] && InRange(|shards|, [e] + []);
    RunAllCons(shards, e, []);
    var (s, reply) := Apply(shards[e.shard], e.step);
    NoEvents(shards[e.shard := s]);
    assert [reply] + [] == [reply];
  }

  lemma {:induction false} RunAllAppend(shards: seq<Shard>, a: seq<Event>, b: seq<Event>)
    requires InRange(|shards|, a) && InRange(|shards|, b)
    ensures var (mid, replies) := RunAll(shards, a);
            RunAll(shards, a + b) == (RunAll(mid, b).0, replies + RunAll(mid, b).1)
    decreases |a|
  {
    if a == [] {
      assert a + b == b && [] + RunAll(shards, b).1 == RunAll(shards, b).1;
    } else {
      hide Apply;
      var (s, reply) := Apply(shards[a[0].shard], a[0].step);
      assert a + b == [a[0]] + (a[1..] + b) && a == [a[0]] + a[1..];
      assert InRange(|shards|, a + b);
      RunAllCons(shards, a[0], a[1..] + b);
      RunAllCons(shards, a[0], a[1..]);
      RunAllAppend(shards[a[0].shard := s], a[1..], b);
      var (mid, replies) := RunAll(shards[a[0].shard := s], a[1..]);
      Associates([reply], replies, RunAll(mid, b).1);
    }
  }

  /** Each reply is that of its own step on the shards as the earlier steps left them. */
  lemma ReplyAt(shards: seq<Shard>, trace: seq<Event>, t: nat)
    requires InRange(|shards|, trace) && t < |trace|
    ensures var (before, replies) := RunAll(shards, trace[..t]);
            && RunAll(shards, trace).1[..t] == replies
            && RunAll(shards, trace).1[t] == Apply(before[trace[t].shard], trace[t].step).1
  {
    hide Apply, RunAll;
    var before := RunAll(shards, trace[..t]).0;
    assert trace == trace[..t] + trace[t..] && trace[t..] == [trace[t]] + trace[t + 1..];
    RunAllAppend(shards, trace[..t], trace[t..]);
    RunAllCons(before, trace[t], trace[t + 1..]);
  }

  // ---------------------------------------------------------------------------------------------
  // Routing
  // ---------------------------------------------------------------------------------------------

  /** Every resident key is in the shard its hash selects. */
  ghost predicate Routed(shards: seq<Shard>, hash: Hash) {
    |shards| > 0 && forall i :: 0 <= i < |shards| ==> KeysBelong(shards[i].entries, hash, i, |shards|)
  }

  ghost predicate KeysBelong(es: seq<Entry>, hash: Hash, i: nat, shardCount: nat)
    requires shardCount > 0
  {
    forall k <- Keys(es) :: GetShardIndex(hash, k, shardCount) == i
  }

  /** The keys an action is about. */
  function KeysOf(action: Action): set<Bytes> {
    match action
    case GetKey(key) => {key}
    case SetKey(key, _, _) => {key}
    case DelKeys(keys) => KeySet(keys)
    case ExpireKey(key, _) => {key}
    case TtlKey(key) => {key}
    case SampleStats => {}
    case SweepExpired => {}
  }

  ghost predicate SentToOwner(trace: seq<Event>, hash: Hash, shardCount: nat)
    requires shardCount > 0
  {
    forall e <- trace :: OwnsKeys(e, hash, shardCount)
  }

  ghost predicate OwnsKeys(e: Event, hash: Hash, shardCount: nat)
    requires shardCount > 0
  {
    forall k <- KeysOf(e.step.action) :: GetShardIndex(hash, k, shardCount) == e.shard
  }

  // ---------------------------------------------------------------------------------------------
  // Dispatch
  // ---------------------------------------------------------------------------------------------

  /** The commands on a single key. */
  predicate IsKeyed(action: Action) {
    action.GetKey? || action.SetKey? || action.ExpireKey? || action.TtlKey?
  }

  /** Where the executor sends a command on a single key. */
  function Dispatch(action: Action, now: int, later: int, hash: Hash, shardCount: nat): Event
    requires IsKeyed(action) && shardCount > 0
  {
    Event(GetShardIndex(hash, action.key, shardCount), Step(action, now, later))
  }

  /** The keys of a list that a shard owns, in order: its share of a DEL. */
  function Bucket(keys: seq<Bytes>, hash: Hash, shardCount: nat, i: nat): seq<Bytes>
    requires shardCount > 0
  {
    if keys == [] then []
    else
      var init, last := keys[..|keys| - 1], keys[|keys| - 1];
      Bucket(init, hash, shardCount, i) + if GetShardIndex(hash, last, shardCount) == i then [last] else []
  }

  /** A bucket takes the keys in their order, each as often as it occurs. */
  lemma {:induction false} BucketOrder(a: seq<Bytes>, b: seq<Bytes>, hash: Hash, n: nat, i: nat)
    requires n > 0
    ensures Bucket(a + b, hash, n, i) == Bucket(a, hash, n, i) + Bucket(b, hash, n, i)
    ensures forall key :: Bucket([key], hash, n, i) == if GetShardIndex(hash, key, n) == i then [key] else []
    decreases |b|
  {
    hide GetShardIndex;
    if b == [] {
      assert a + b == a;
    } else {
      var init, last := b[..|b| - 1], b[|b| - 1];
      assert (a + b)[..|a + b| - 1] == a + init;
      BucketOrder(a, init, hash, n, i);
    }
  }

  lemma {:induction false} BucketKeys(keys: seq<Bytes>, hash: Hash, n: nat, i: nat)
    requires n > 0
    ensures forall k :: k in KeySet(Bucket(keys, hash, n, i)) <==> k in keys && GetShardIndex(hash, k, n) == i
  {
    if keys != [] {
      BucketKeys(keys[..|keys| - 1], hash, n, i);
      assert keys == keys[..|keys| - 1] + [keys[|keys| - 1]];
    }
  }

  /** What the server ever runs on a shard: commands on single keys, shares of DELs, samples for INFO
      and sweeps. */
  ghost predicate Issued(e: Event, hash: Hash, shardCount: nat)
    requires shardCount > 0
  {
    match e.step.action
    case DelKeys(keys) => exists args :: keys == Bucket(args, hash, shardCount, e.shard)
    case SampleStats => true
    case SweepExpired => true
    case _ => e == Dispatch(e.step.action, e.step.now, e.step.later, hash, shardCount)
  }

  ghost predicate ServerTrace(trace: seq<Event>, hash: Hash, shardCount: nat) {
    shardCount > 0 && InRange(shardCount, trace) && forall e <- trace :: Issued(e, hash, shardCount)
  }

  /** The dispatch sends every key to the one shard that owns it. */
  lemma DispatchRoutes(trace: seq<Event>, hash: Hash, shardCount: nat)
    requires ServerTrace(trace, hash, shardCount)
    ensures SentToOwner(trace, hash, shardCount)
  {
    hide GetShardIndex, Bucket, KeySet;
    forall e <- trace ensures OwnsKeys(e, hash, shardCount) {
      assert Issued(e, hash, shardCount);
      if e.step.action.DelKeys? {
        var args :| e.step.action.keys == Bucket(args, hash, shardCount, e.shard);
        BucketKeys(args, hash, shardCount, e.shard);
      }
    }
  }

  // ---------------------------------------------------------------------------------------------
  // What routing keeps
  // ---------------------------------------------------------------------------------------------

  lemma GetKeys(s: Shard, key: Bytes, now: int)
    ensures Keys(Get(s, key, now).0.entries) <= Keys(s.entries)
  {
  }

  lemma SetKeys(s: Shard, key: Bytes, value: Bytes, expireAt: Option<int>)
    ensures Keys(Set(s, key, value, expireAt).entries) <= Keys(s.entries) + {key}
  {
  }

  /** Only a SET can make a key resident, and only its own. */
  lemma StepKeys(s: Shard, step: Step)
    requires WellFormed(s)
    ensures Keys(Apply(s, step).0.entries) <= Keys(s.entries) + if step.action.SetKey? then {step.action.key} else {}
  {
    hide Without, Distinct, Payload, Set, Get, DelAll, Alive, WithDeadline, Remove;
    match step.action
    case GetKey(key) => GetKeys(s, key, step.now);
    case SetKey(key, value, mode) =>
      GetKeys(s, key, step.now);
      SetKeys(s, key, value, if mode.ForSeconds? then Deadline(Some(mode.seconds), step.now) else None);
      SetKeys(Get(s, key, step.now).0, key, value, None);
    case DelKeys(keys) => DelAllExact(s, keys);
    case ExpireKey(key, seconds) =>
      if seconds.Some? { DeadlineKeeps(s.entries, key, step.now + seconds.value * TICKS_PER_SECOND); }
    case TtlKey(key) => WithoutKeys(s.entries, key);
    case SampleStats =>
    case SweepExpired =>
  }

  ghost predicate AllWellFormed(shards: seq<Shard>) {
    forall i :: 0 <= i < |shards| ==> WellFormed(shards[i])
  }

  function EmptyShards(n: nat, budget: nat): (r: seq<Shard>)
    ensures |r| == n
  {
    seq(n, _ => Empty(budget))
  }

  lemma EmptyRouted(n: nat, budget: nat, hash: Hash)
    requires n > 0
    ensures Routed(EmptyShards(n, budget), hash) && AllWellFormed(EmptyShards(n, budget))
  {
  }

  /** From empty shards on, whatever commands and sweeps are interleaved, every resident key is in the
      shard its hash selects, and every shard is within its budget. */
  lemma ServerKeepsRouting(n: nat, budget: nat, trace: seq<Event>, hash: Hash)
    requires ServerTrace(trace, hash, n)
    ensures Routed(RunAll(EmptyShards(n, budget), trace).0, hash)
    ensures AllWellFormed(RunAll(EmptyShards(n, budget), trace).0)
  {
    hide Routed, AllWellFormed, RunAll;
    DispatchRoutes(trace, hash, n);
    EmptyRouted(n, budget, hash);
    RoutingKept(EmptyShards(n, budget), trace, hash);
  }

  /** Keys never leave the shard their hash selects, whatever else is interleaved. */
  lemma {:induction false} RoutingKept(shards: seq<Shard>, trace: seq<Event>, hash: Hash)
    requires InRange(|shards|, trace) && Routed(shards, hash) && AllWellFormed(shards)
    requires SentToOwner(trace, hash, |shards|)
    ensures Routed(RunAll(shards, trace).0, hash) && AllWellFormed(RunAll(shards, trace).0)
    decreases |trace|
  {
    if trace != [] {
      hide Apply, WellFormed;
      var Event(i, step) := trace[0];
      StepKeys(shards[i], step);
      StepProgress(shards[i], step);
      assert trace[0] in trace && OwnsKeys(trace[0], hash, |shards|);
      RoutingKept(shards[i := Apply(shards[i], step).0], trace[1..], hash);
    }
  }
}
