/** The shards of a server as disjoint heap structures, and the commands that span them. */
module ShardPools {
  import opened Basics
  import opened ShardModel
  import opened ShardSteps
  import opened ShardRuns
  import opened Interleaving
  import opened LruShards
  import opened MultiDel
  import opened ServerInfo
  import ShardProcessing

  class ShardPool {
    const shards: seq<LruShard>
    const hash: Hash
    ghost var Model: seq<Shard>
    ghost var Repr: set<object>

    /** The shards are disjoint heap structures and `Model` is what they represent. */
    ghost predicate Valid()
      reads this, shards, Repr
    {
      && |shards| > 0 && |Model| == |shards| && PairwiseDisjoint(shards) && this !in Repr
      && (forall i :: 0 <= i < |shards| ==> shards[i].Repr <= Repr)
      && (forall i :: 0 <= i < |shards| ==> shards[i].Valid() && shards[i].Abs() == Model[i])
    }

    /** There is always at least one shard, and at first all are empty. */
    constructor (shardCount: nat, maxMemoryBytesPerShard: nat, hash: Hash)
      ensures Valid() && fresh(Repr) && this.hash == hash
      ensures |shards| == if shardCount == 0 then 1 else shardCount
      ensures Model == EmptyShards(|shards|, maxMemoryBytesPerShard) && Routed(Model, hash)
    {
      hide LruShard.Valid, LruShard.Abs, Routed;
      var count := if shardCount == 0 then 1 else shardCount;
      var workers := NewShards(count, maxMemoryBytesPerShard);
      shards := workers;
      this.hash := hash;
      Model := EmptyShards(count, maxMemoryBytesPerShard);
      Repr := set s <- workers, o <- s.Repr :: o;
      EmptyRouted(count, maxMemoryBytesPerShard, hash);
      new;
      assert forall i :: 0 <= i < |shards| ==> shards[i] in workers;
    }

    lemma PoolWellFormed()
      requires Valid()
      ensures AllWellFormed(Model)
    {
      forall i | 0 <= i < |shards| ensures WellFormed(Model[i]) {
        ValidIsWellFormed(shards[i]);
      }
    }

    /** One atomic step on one shard. */
    method RunOnShard(i: nat, step: Step) returns (reply: Reply)
      requires Valid() && i < |shards|
      modifies this`Model, this`Repr, Repr
      ensures Valid() && fresh(Repr - old(Repr))
      ensures |Model| == |old(Model)| && reply == Apply(old(Model)[i], step).1
      ensures Model == old(Model)[i := Apply(old(Model)[i], step).0]
    {
      hide LruShard.Valid, LruShard.Abs, Apply;
      reply := ShardProcessing.ExecuteStep(shards[i], step);
      Model := Model[i := Apply(Model[i], step).0];
      Repr := Repr + shards[i].Repr;
    }

    /** Any interleaving of steps on the linked shards is that of the abstract ones, so whatever holds of
        all abstract traces holds of the server. */
    method ExecuteTrace(trace: seq<Event>) returns (replies: seq<Reply>)
      requires Valid() && InRange(|shards|, trace)
      modifies this`Model, this`Repr, Repr
      ensures Valid() && fresh(Repr - old(Repr))
      ensures |Model| == |old(Model)| && (Model, replies) == RunAll(old(Model), trace)
      ensures Routed(old(Model), hash) && SentToOwner(trace, hash, |shards|) ==> Routed(Model, hash)
    {
      hide LruShard.Valid, LruShard.Abs, Apply, RunAll, Valid, Continued, InRange;
      PoolSize();
      replies := [];
      if Routed(Model, hash) && SentToOwner(trace, hash, |shards|) {
        PoolWellFormed();
        RoutingKept(Model, trace, hash);
      }
      TraceStart(Model, trace);
      for i := 0 to |trace|
        invariant Valid() && fresh(Repr - old(Repr)) && |Model| == |shards| == |old(Model)|
        invariant InRange(|shards|, trace[i..])
        invariant RunAll(old(Model), trace) == Continued(replies, RunAll(Model, trace[i..]))
      {
        TraceStep(Model, trace[i..], replies);
        assert trace[i..][0] == trace[i] && trace[i..][1..] == trace[i + 1..];
        var reply := RunOnShard(trace[i].shard, trace[i].step);
        replies := replies + [reply];
      }
      TraceEnd(Model, trace, replies);
    }

    /** GET, SET, EXPIRE and TTL run on the shard that owns their key. */
    method ExecuteKeyCommand(action: Action, now: int, later: int) returns (reply: Reply)
      requires Valid() && IsKeyed(action)
      modifies this`Model, this`Repr, Repr
      ensures Valid() && fresh(Repr - old(Repr))
      ensures |Model| == |old(Model)|
      ensures (Model, [reply]) == RunAll(old(Model), [Dispatch(action, now, later, hash, |shards|)])
      ensures Routed(old(Model), hash) ==> Routed(Model, hash)
    {
      hide LruShard.Valid, LruShard.Abs, Apply, RunAll, GetShardIndex;
      var shardIndex := GetShardIndex(hash, action.key, |shards|);
      ghost var e := Dispatch(action, now, later, hash, |shards|);
      RunAllOne(Model, e);
      if Routed(Model, hash) {
        PoolWellFormed();
        RoutingKept(Model, [e], hash);
      }
      reply := RunOnShard(shardIndex, Step(action, now, later));
    }

    /** DEL over one shard or many. Nothing is assumed about what runs between its batches, except that it
        comes from the same dispatch; left alone, it is the deletion from one flat map. */
    method ExecuteDel(c: Call) returns (deletedCount: nat)
      requires Valid() && Routed(Model, hash) && FitsServer(c, |shards|) && OthersRouted(c, hash, |shards|)
      modifies this`Model, this`Repr, Repr
      ensures Valid() && fresh(Repr - old(Repr)) && |Model| == |old(Model)| == |shards|
      ensures Model == RunAll(old(Model), DelTrace(c, hash, |shards|, |shards|)).0 && Routed(Model, hash)
      ensures deletedCount == ResidentAtBatches(old(Model), c, hash, |shards|)
      ensures Undisturbed(c) ==> deletedCount == Hits(KeySet(c.args), AllKeys(old(Model), |shards|))
      ensures Undisturbed(c) ==> forall i :: 0 <= i < |shards| ==>
                Model[i] == old(Model)[i].(entries := Remove(old(Model)[i].entries, KeySet(c.args)))
    {
      hide *;
      assert |Model| == |shards| > 0 by { PoolSize(); }
      PoolWellFormed();
      CountsResidents(Model, c, hash, |shards|);
      DelTraceRoutes(c, hash, |shards|, |shards|);
      RoutingKept(Model, DelTrace(c, hash, |shards|, |shards|), hash);
      if Undisturbed(c) { DelIsFlat(Model, c, hash); }
      if |shards| == 1 {
        deletedCount := ExecuteDelSingle(c);
      } else {
        deletedCount := ExecuteDelMulti(c);
      }
    }

    lemma PoolSize()
      requires Valid()
      ensures |Model| == |shards| > 0
    {
    }

    /** With one shard there is one batch, holding all the arguments. */
    method ExecuteDelSingle(c: Call) returns (deletedCount: nat)
      requires Valid() && FitsServer(c, |shards|) && |shards| == 1
      modifies this`Model, this`Repr, Repr
      ensures Valid() && fresh(Repr - old(Repr)) && |Model| == |old(Model)| == |shards|
      ensures Model == RunAll(old(Model), DelTrace(c, hash, |shards|, |shards|)).0
      ensures deletedCount == CountBelow(old(Model), c, hash, |shards|, None)
    {
      hide LruShard.Valid, LruShard.Abs, Valid, RunAll, DelAll, InRange, FitsServer, DelTrace, Bucket, CountBelow;
      PoolSize();
      SingleBatch(Model, c, hash);
      FitsTurn(c, 1, 0);
      if c.home.None? {
        var others := ExecuteTrace(c.between[0]);
      }
      deletedCount := RunDelOnShard(0, c.args);
    }

    method ExecuteDelMulti(c: Call) returns (deletedCount: nat)
      requires Valid() && FitsServer(c, |shards|)
      modifies this`Model, this`Repr, Repr
      ensures Valid() && fresh(Repr - old(Repr)) && |Model| == |old(Model)| == |shards|
      ensures Model == RunAll(old(Model), DelTrace(c, hash, |shards|, |shards|)).0
      ensures deletedCount == CountBelow(old(Model), c, hash, |shards|, None)
    {
      hide LruShard.Valid, LruShard.Abs, Valid, RunAll, DelAll, InRange, FitsServer, DelTrace, Bucket, CountBelow,
        CountAt;
      PoolSize();
      FitsTurn(c, |shards|, 0);
      ghost var model := Model;
      var keysByShard := SplitByShard(c.args, hash, |shards|);
      var local := 0;
      if c.home.Some? {
        var home := c.home.value;
        FirstBatch(model, c, hash);
        CountSkips(model, c, hash, |shards|, home);
        local := RunBatch(home, keysByShard[home]);
        keysByShard := keysByShard[home := []];
      } else {
        NoHome(model, c, hash);
      }
      forall j | 0 <= j < |shards| ensures keysByShard[j] == Batch(c, hash, |shards|, j) {
        BatchOf(c, hash, |shards|, j);
      }
      LoopStarts(model, c, hash);
      var remote := RunRemaining(model, c, keysByShard);
      deletedCount := local + remote;
    }

    /** The hop from shard to shard, over the batches that are left. */
    method RunRemaining(ghost model: seq<Shard>, c: Call, keysByShard: seq<seq<Bytes>>) returns (deletedCount: nat)
      requires Valid() && |keysByShard| == |shards| == |model| && Reached(model, c, hash, 0, Model, 0)
      requires forall j :: 0 <= j < |shards| ==> keysByShard[j] == Batch(c, hash, |shards|, j)
      modifies this`Model, this`Repr, Repr
      ensures Valid() && fresh(Repr - old(Repr))
      ensures Reached(model, c, hash, |shards|, Model, deletedCount)
    {
      hide LruShard.Valid, LruShard.Abs, Valid, RunAll, DelAll, InRange, FitsServer, Batch, Reached;
      PoolSize();
      deletedCount := 0;
      for i := 0 to |shards|
        invariant Valid() && fresh(Repr - old(Repr)) && |Model| == |shards|
        invariant Reached(model, c, hash, i, Model, deletedCount)
      {
        NextTurn(model, c, hash, i, Model, deletedCount, keysByShard[i]);
        var count := RunTurn(c.between[i], i, keysByShard[i]);
        deletedCount := deletedCount + count;
      }
    }

    /** What the others do before the hop, and then the batch. */
    method RunTurn(others: seq<Event>, i: nat, keys: seq<Bytes>) returns (count: nat)
      requires Valid() && i < |shards| && InRange(|shards|, others)
      modifies this`Model, this`Repr, Repr
      ensures Valid() && fresh(Repr - old(Repr)) && |Model| == |old(Model)| == |shards|
      ensures var before := RunAll(old(Model), others).0;
              Model == before[i := DelAll(before[i], keys).0] && count == DelAll(before[i], keys).1
    {
      hide LruShard.Valid, LruShard.Abs, Valid, RunAll, DelAll, InRange;
      PoolSize();
      var replies := ExecuteTrace(others);
      count := RunBatch(i, keys);
    }

    /** An empty batch is not sent at all. */
    method RunBatch(i: nat, keys: seq<Bytes>) returns (count: nat)
      requires Valid() && i < |shards|
      modifies this`Model, this`Repr, Repr
      ensures Valid() && fresh(Repr - old(Repr))
      ensures |Model| == |old(Model)| && count == DelAll(old(Model)[i], keys).1
      ensures Model == old(Model)[i := DelAll(old(Model)[i], keys).0]
    {
      if |keys| == 0 {
        count := 0;
      } else {
        count := RunDelOnShard(i, keys);
      }
    }

    method RunDelOnShard(i: nat, keys: seq<Bytes>) returns (count: nat)
      requires Valid() && i < |shards|
      modifies this`Model, this`Repr, Repr
      ensures Valid() && fresh(Repr - old(Repr))
      ensures |Model| == |old(Model)| && count == DelAll(old(Model)[i], keys).1
      ensures Model == old(Model)[i := DelAll(old(Model)[i], keys).0]
    {
      hide LruShard.Valid, LruShard.Abs, Apply, DelAll, Valid;
      PoolSize();
      DelReply(Model[i], keys);
      var reply := RunOnShard(i, Step(DelKeys(keys), 0, 0));
      count := reply.n;
    }

    /** INFO: one sample from each shard in turn, with anything else in between. Its totals are those of
        the samples, and never more bytes used than there are. */
    method ProcessInfoCommand(between: seq<seq<Event>>) returns (total: Stats)
      requires Valid() && FitsShards(Model, between)
      modifies this`Model, this`Repr, Repr
      ensures Valid() && fresh(Repr - old(Repr)) && |Model| == |old(Model)| == |shards|
      ensures InRange(|shards|, Others(between, |shards|))
      ensures Model == RunAll(old(Model), Others(between, |shards|)).0
      ensures total == SumStats(InfoSamples(old(Model), between))
      ensures total.usedBytes <= total.maxMemoryBytes
    {
      hide LruShard.Valid, LruShard.Abs, Valid, RunAll, InRange, FitsShards, InfoSamples, Others, SumStats;
      PoolSize();
      PoolWellFormed();
      ghost var model := Model;
      FitsAll(model, between);
      InfoFits(model, between);
      NoSamples(between);
      NoEvents(model);
      ghost var samples := InfoSamples(model, between);
      assert samples[..0] == [] && samples[..|samples|] == samples;
      total := Stats(0, 0, 0, 0, 0);
      for i := 0 to |shards|
        invariant Valid() && fresh(Repr - old(Repr)) && |Model| == |shards|
        invariant InRange(|shards|, Others(between, i)) && Model == RunAll(model, Others(between, i)).0
        invariant total == SumStats(samples[..i])
      {
        OneMoreSample(model, between, i);
        var others := ExecuteTrace(between[i]);
        var shardStats := SampleOnShard(i);
        total := AddStats(total, shardStats);
      }
    }

    method SampleOnShard(i: nat) returns (stats: Stats)
      requires Valid() && i < |shards|
      modifies this`Model, this`Repr, Repr
      ensures Valid() && fresh(Repr - old(Repr))
      ensures Model == old(Model) && i < |Model| && stats == StatsOf(Model[i])
    {
      hide LruShard.Valid, LruShard.Abs, StatsOf, Valid;
      PoolSize();
      var reply := RunOnShard(i, Step(SampleStats, 0, 0));
      stats := reply.stats;
    }
  }

  lemma FitsAll(model: seq<Shard>, between: seq<seq<Event>>)
    requires FitsShards(model, between)
    ensures |between| == |model| && forall i :: 0 <= i < |between| ==> InRange(|model|, between[i])
  {
  }

  lemma DelReply(s: Shard, keys: seq<Bytes>)
    ensures var (s', n) := DelAll(s, keys); Apply(s, Step(DelKeys(keys), 0, 0)) == (s', Number(n)) && n >= 0
  {
  }

  function Continued(replies: seq<Reply>, rest: (seq<Shard>, seq<Reply>)): (seq<Shard>, seq<Reply>) {
    (rest.0, replies + rest.1)
  }

  lemma TraceStart(shards: seq<Shard>, trace: seq<Event>)
    requires InRange(|shards|, trace)
    ensures trace[0..] == trace && RunAll(shards, trace) == Continued([], RunAll(shards, trace[0..]))
  {
    assert trace[0..] == trace && [] + RunAll(shards, trace).1 == RunAll(shards, trace).1;
  }

  lemma TraceStep(shards: seq<Shard>, trace: seq<Event>, replies: seq<Reply>)
    requires trace != [] && InRange(|shards|, trace)
    ensures trace[0].shard < |shards| && InRange(|shards|, trace[1..])
    ensures var (s, reply) := Apply(shards[trace[0].shard], trace[0].step);
            Continued(replies, RunAll(shards, trace))
            == Continued(replies + [reply], RunAll(shards[trace[0].shard := s], trace[1..]))
  {
    hide Apply, RunAll;
    var (s, reply) := Apply(shards[trace[0].shard], trace[0].step);
    assert trace == [trace[0]] + trace[1..];
    RunAllCons(shards, trace[0], trace[1..]);
    Associates(replies, [reply], RunAll(shards[trace[0].shard := s], trace[1..]).1);
  }

  lemma TraceEnd(shards: seq<Shard>, trace: seq<Event>, replies: seq<Reply>)
    ensures InRange(|shards|, trace[|trace|..])
    ensures Continued(replies, RunAll(shards, trace[|trace|..])) == (shards, replies)
  {
    assert trace[|trace|..] == [];
    assert replies + [] == replies;
  }

  ghost predicate PairwiseDisjoint(shards: seq<LruShard>)
    reads shards
  {
    forall i, j :: 0 <= i < j < |shards| ==> shards[i].Repr !! shards[j].Repr
  }

  ghost predicate IsNew(shard: LruShard, maxMemoryBytes: nat)
    reads shard, shard.Repr
  {
    shard.Valid() && shard.Abs() == Empty(maxMemoryBytes)
  }

  method NewShards(count: nat, maxMemoryBytes: nat) returns (shards: seq<LruShard>)
    ensures |shards| == count && PairwiseDisjoint(shards)
    ensures forall s <- shards :: IsNew(s, maxMemoryBytes) && fresh(s.Repr)
  {
    hide LruShard.Valid, LruShard.Abs;
    shards := [];
    for i := 0 to count
      invariant |shards| == i && PairwiseDisjoint(shards)
      invariant forall s <- shards :: IsNew(s, maxMemoryBytes) && fresh(s.Repr)
    {
      var shard := new LruShard(maxMemoryBytes);
      shards := shards + [shard];
    }
  }

  /** Groups the arguments by the shard that owns them. */
  method SplitByShard(args: seq<Bytes>, hash: Hash, n: nat) returns (keysByShard: seq<seq<Bytes>>)
    requires n > 0
    ensures |keysByShard| == n
    ensures forall i :: 0 <= i < n ==> keysByShard[i] == Bucket(args, hash, n, i)
  {
    keysByShard := seq(n, _ => []);
    for a := 0 to |args|
      invariant |keysByShard| == n
      invariant forall i :: 0 <= i < n ==> keysByShard[i] == Bucket(args[..a], hash, n, i)
    {
      assert args[..a + 1][..a] == args[..a];
      var shardIndex := GetShardIndex(hash, args[a], n);
      keysByShard := keysByShard[shardIndex := keysByShard[shardIndex] + [args[a]]];
    }
    assert args[..|args|] == args;
  }
}
