/** DEL over several shards: one batch per shard, each atomic, with anything else between them. */
module MultiDel {
  import opened Basics
  import opened ShardModel
  import opened ShardSteps
  import opened ShardRuns
  import opened Interleaving

  /** A DEL with its session's own shard, if it runs on that shard's thread, and what other sessions and
      sweeps do before it gets its turn on each shard. */
  datatype Call = Call(args: seq<Bytes>, home: Option<nat>, between: seq<seq<Event>>)

  /** The own shard's batch comes first and without a hop, so nothing comes between at its turn. */
  predicate FitsServer(c: Call, n: nat) {
    && n > 0 && |c.between| == n
    && (forall i :: 0 <= i < n ==> InRange(n, c.between[i]))
    && (c.home.Some? ==> c.home.value < n && c.between[c.home.value] == [])
  }

  function DelEvent(i: nat, keys: seq<Bytes>): Event {
    Event(i, Step(DelKeys(keys), 0, 0))
  }

  /** The keys sent when shard `i` has its turn. */
  function Batch(c: Call, hash: Hash, n: nat, i: nat): seq<Bytes>
    requires n > 0
  {
    if c.home == Some(i) then [] else Bucket(c.args, hash, n, i)
  }

  /** Everything that happens until the shards below `i` have had their turn. */
  function DelTrace(c: Call, hash: Hash, n: nat, i: nat): (r: seq<Event>)
    requires FitsServer(c, n) && i <= n
    ensures InRange(n, r)
  {
    if i == 0 then
      if c.home.None? then [] else [DelEvent(c.home.value, Bucket(c.args, hash, n, c.home.value))]
    else
      DelTrace(c, hash, n, i - 1) + c.between[i - 1] + [DelEvent(i - 1, Batch(c, hash, n, i - 1))]
  }

  /** The shards at the moment the batch of shard `i` runs. */
  function AtBatch(model: seq<Shard>, c: Call, hash: Hash, i: nat): (r: seq<Shard>)
    requires FitsServer(c, |model|) && i < |model|
    ensures |r| == |model|
  {
    if c.home == Some(i) then model else RunAll(model, DelTrace(c, hash, |model|, i) + c.between[i]).0
  }

  function CountAt(model: seq<Shard>, c: Call, hash: Hash, i: nat): nat
    requires FitsServer(c, |model|) && i < |model|
  {
    DelAll(AtBatch(model, c, hash, i)[i], Bucket(c.args, hash, |model|, i)).1
  }

  /** What the batches of the shards below `n` report together, without that of shard `skip`. */
  function CountBelow(model: seq<Shard>, c: Call, hash: Hash, n: nat, skip: Option<nat>): nat
    requires FitsServer(c, |model|) && n <= |model|
  {
    if n == 0 then 0
    else CountBelow(model, c, hash, n - 1, skip) + if skip == Some(n - 1) then 0 else CountAt(model, c, hash, n - 1)
  }

  lemma {:induction false} CountSkips(model: seq<Shard>, c: Call, hash: Hash, n: nat, skip: nat)
    requires FitsServer(c, |model|) && n <= |model|
    ensures CountBelow(model, c, hash, n, None) == CountBelow(model, c, hash, n, Some(skip))
            + if skip < n then CountAt(model, c, hash, skip) else 0
  {
    hide CountAt, FitsServer;
    if n > 0 { CountSkips(model, c, hash, n - 1, skip); }
  }

  /** One more turn: the others first, then the batch. */
  lemma OneMoreTurn(model: seq<Shard>, c: Call, hash: Hash, i: nat)
    requires FitsServer(c, |model|) && i < |model|
    ensures var batch := Batch(c, hash, |model|, i);
            var before := RunAll(RunAll(model, DelTrace(c, hash, |model|, i)).0, c.between[i]).0;
            && RunAll(model, DelTrace(c, hash, |model|, i + 1)).0 == before[i := DelAll(before[i], batch).0]
            && DelAll(before[i], batch).1 == if c.home == Some(i) then 0 else CountAt(model, c, hash, i)
  {
    hide RunAll, Bucket;
    var n := |model|;
    var trace, batch := DelTrace(c, hash, n, i), Batch(c, hash, n, i);
    RunAllAppend(model, trace, c.between[i]);
    RunAllAppend(model, trace + c.between[i], [DelEvent(i, batch)]);
    RunAllOne(RunAll(model, trace + c.between[i]).0, DelEvent(i, batch));
  }

  lemma FirstBatch(model: seq<Shard>, c: Call, hash: Hash)
    requires FitsServer(c, |model|) && c.home.Some?
    ensures var home := c.home.value;
            var (s, count) := DelAll(model[home], Bucket(c.args, hash, |model|, home));
            && RunAll(model, DelTrace(c, hash, |model|, 0)).0 == model[home := s]
            && CountAt(model, c, hash, home) == count
  {
    hide Bucket, DelAll;
    RunAllOne(model, DelEvent(c.home.value, Bucket(c.args, hash, |model|, c.home.value)));
  }

  lemma FitsTurn(c: Call, n: nat, i: nat)
    requires FitsServer(c, n) && i < n
    ensures |c.between| == n && InRange(n, c.between[i])
    ensures c.home.Some? ==> c.home.value < n && c.between[c.home.value] == []
  {
  }

  lemma BatchOf(c: Call, hash: Hash, n: nat, i: nat)
    requires n > 0
    ensures Batch(c, hash, n, i) == if c.home == Some(i) then [] else Bucket(c.args, hash, n, i)
  {
  }

  /** The shards `now` and the count of the loop over the batches when those below `i` have run. */
  ghost predicate Reached(model: seq<Shard>, c: Call, hash: Hash, i: nat, now: seq<Shard>, count: nat) {
    && FitsServer(c, |model|) && i <= |model| == |now|
    && now == RunAll(model, DelTrace(c, hash, |model|, i)).0
    && count == CountBelow(model, c, hash, i, c.home)
  }

  /** The loop starts after the own shard's batch. */
  lemma LoopStarts(model: seq<Shard>, c: Call, hash: Hash)
    requires FitsServer(c, |model|)
    ensures Reached(model, c, hash, 0, RunAll(model, DelTrace(c, hash, |model|, 0)).0, 0)
  {
  }

  lemma OneMoreCount(model: seq<Shard>, c: Call, hash: Hash, i: nat)
    requires FitsServer(c, |model|) && i < |model|
    ensures CountBelow(model, c, hash, i + 1, c.home)
            == CountBelow(model, c, hash, i, c.home) + if c.home == Some(i) then 0 else CountAt(model, c, hash, i)
  {
  }

  /** One turn of the loop over the batches. */
  lemma NextTurn(model: seq<Shard>, c: Call, hash: Hash, i: nat, now: seq<Shard>, count: nat, keys: seq<Bytes>)
    requires Reached(model, c, hash, i, now, count) && i < |model| && keys == Batch(c, hash, |model|, i)
    ensures i < |c.between| && InRange(|now|, c.between[i])
    ensures var before := RunAll(now, c.between[i]).0;
            var (s, n) := DelAll(before[i], keys);
            Reached(model, c, hash, i + 1, before[i := s], count + n)
  {
    hide RunAll, DelTrace, DelAll, CountAt, CountBelow, Bucket;
    OneMoreTurn(model, c, hash, i);
    OneMoreCount(model, c, hash, i);
  }

  /** With a single shard the one bucket is the whole argument list. */
  lemma SingleBatch(model: seq<Shard>, c: Call, hash: Hash)
    requires FitsServer(c, |model|) && |model| == 1
    ensures var before := if c.home.Some? then model else RunAll(model, c.between[0]).0;
            && RunAll(model, DelTrace(c, hash, 1, 1)).0 == before[0 := DelAll(before[0], c.args).0]
            && CountBelow(model, c, hash, 1, None) == DelAll(before[0], c.args).1
  {
    hide Bucket, RunAll, DelAll, GetShardIndex, DelTrace, CountBelow, CountAt;
    AllInBucket(c.args, hash);
    NothingDeleted(model, c, hash);
    CountSkips(model, c, hash, 1, 0);
    OneMoreTurn(model, c, hash, 0);
    OneMoreCount(model, c, hash, 0);
    if c.home.Some? {
      FirstBatch(model, c, hash);
      NoEvents(RunAll(model, DelTrace(c, hash, 1, 0)).0);
    } else {
      NoHome(model, c, hash);
    }
  }

  lemma NothingDeleted(model: seq<Shard>, c: Call, hash: Hash)
    requires FitsServer(c, |model|)
    ensures CountBelow(model, c, hash, 0, c.home) == 0
    ensures forall s: Shard :: DelAll(s, []) == (s, 0)
  {
  }

  lemma {:induction false} AllInBucket(keys: seq<Bytes>, hash: Hash)
    ensures Bucket(keys, hash, 1, 0) == keys
  {
    if keys != [] {
      AllInBucket(keys[..|keys| - 1], hash);
      assert keys == keys[..|keys| - 1] + [keys[|keys| - 1]];
    }
  }

  // ---------------------------------------------------------------------------------------------
  // What each batch does
  // ---------------------------------------------------------------------------------------------

  ghost predicate OthersRouted(c: Call, hash: Hash, n: nat) {
    n > 0 && forall i :: 0 <= i < |c.between| ==> SentToOwner(c.between[i], hash, n)
  }

  lemma {:induction false} DelTraceRoutes(c: Call, hash: Hash, n: nat, i: nat)
    requires FitsServer(c, n) && i <= n && OthersRouted(c, hash, n)
    ensures SentToOwner(DelTrace(c, hash, n, i), hash, n)
  {
    hide GetShardIndex, Bucket, OwnsKeys;
    if i == 0 {
      if c.home.Some? { BucketOwned(c.args, hash, n, c.home.value); }
    } else {
      DelTraceRoutes(c, hash, n, i - 1);
      BucketOwned(if c.home == Some(i - 1) then [] else c.args, hash, n, i - 1);
    }
  }

  lemma BucketOwned(keys: seq<Bytes>, hash: Hash, n: nat, i: nat)
    requires n > 0
    ensures OwnsKeys(DelEvent(i, Bucket(keys, hash, n, i)), hash, n)
    ensures Bucket([], hash, n, i) == []
  {
    BucketKeys(keys, hash, n, i);
  }

  lemma {:induction false} RemoveSame(es: seq<Entry>, a: set<Bytes>, b: set<Bytes>)
    requires forall k <- Keys(es) :: k in a <==> k in b
    ensures Remove(es, a) == Remove(es, b)
  {
    if es != [] {
      assert es[0] in es;
      assert forall e <- es[1..] :: e in es;
      RemoveSame(es[1..], a, b);
    }
  }

  /** How many of the named keys are in a set. */
  ghost function Hits(named: set<Bytes>, a: set<Bytes>): nat {
    |named * a|
  }

  /** On its own shard, a bucket deletes and counts what the whole argument list would. */
  lemma BucketSuffices(model: seq<Shard>, hash: Hash, keys: seq<Bytes>, i: nat)
    requires i < |model| && Routed(model, hash) && WellFormed(model[i])
    ensures var (s, count) := DelAll(model[i], Bucket(keys, hash, |model|, i));
            && count == Hits(KeySet(keys), Keys(model[i].entries))
            && s == model[i].(entries := Remove(model[i].entries, KeySet(keys)))
  {
    hide DelAll, Bucket, Remove, WellFormed;
    var bucket := Bucket(keys, hash, |model|, i);
    DelAllExact(model[i], bucket);
    BucketKeys(keys, hash, |model|, i);
    RemoveSame(model[i].entries, KeySet(bucket), KeySet(keys));
    assert KeySet(bucket) * Keys(model[i].entries) == KeySet(keys) * Keys(model[i].entries);
  }

  lemma AtBatchRouted(model: seq<Shard>, c: Call, hash: Hash, i: nat)
    requires FitsServer(c, |model|) && i < |model| && OthersRouted(c, hash, |model|)
    requires Routed(model, hash) && AllWellFormed(model)
    ensures Routed(AtBatch(model, c, hash, i), hash) && AllWellFormed(AtBatch(model, c, hash, i))
  {
    hide Routed, AllWellFormed, DelTrace, RunAll, OwnsKeys;
    DelTraceRoutes(c, hash, |model|, i);
    RoutingKept(model, DelTrace(c, hash, |model|, i) + c.between[i], hash);
  }

  /** The distinct arguments resident on each shard below `n` when its batch runs. */
  ghost function ResidentAtBatches(model: seq<Shard>, c: Call, hash: Hash, n: nat): nat
    requires FitsServer(c, |model|) && n <= |model|
  {
    if n == 0 then 0
    else ResidentAtBatches(model, c, hash, n - 1)
         + Hits(KeySet(c.args), Keys(AtBatch(model, c, hash, n - 1)[n - 1].entries))
  }

  /** With anything between its batches, a DEL reports the distinct arguments that were resident on their
      shards when these had their turn. */
  lemma {:induction false} CountsResidents(model: seq<Shard>, c: Call, hash: Hash, n: nat)
    requires FitsServer(c, |model|) && n <= |model| && OthersRouted(c, hash, |model|)
    requires Routed(model, hash) && AllWellFormed(model)
    ensures CountBelow(model, c, hash, n, None) == ResidentAtBatches(model, c, hash, n)
  {
    hide Routed, FitsServer, WellFormed, DelAll, Bucket, AtBatch, Hits;
    if n > 0 {
      CountsResidents(model, c, hash, n - 1);
      AtBatchRouted(model, c, hash, n - 1);
      BucketSuffices(AtBatch(model, c, hash, n - 1), hash, c.args, n - 1);
    }
  }

  /** A batch removes exactly the arguments from its shard, in place, and touches no other shard. */
  lemma BatchRemovesArguments(model: seq<Shard>, c: Call, hash: Hash, i: nat)
    requires FitsServer(c, |model|) && i < |model| && OthersRouted(c, hash, |model|)
    requires Routed(model, hash) && AllWellFormed(model)
    ensures var before := AtBatch(model, c, hash, i);
            RunAll(before, [DelEvent(i, Bucket(c.args, hash, |model|, i))]).0
            == before[i := before[i].(entries := Remove(before[i].entries, KeySet(c.args)))]
  {
    hide RunAll, AtBatch, Routed, WellFormed, DelAll, Bucket, Remove, FitsServer;
    var before := AtBatch(model, c, hash, i);
    AtBatchRouted(model, c, hash, i);
    BucketSuffices(before, hash, c.args, i);
    RunAllOne(before, DelEvent(i, Bucket(c.args, hash, |model|, i)));
  }

  predicate NeverSets(trace: seq<Event>, key: Bytes) {
    forall e <- trace :: e.step.action.SetKey? ==> e.step.action.key != key
  }

  lemma {:induction false} AbsentKept(shards: seq<Shard>, trace: seq<Event>, i: nat, key: Bytes)
    requires InRange(|shards|, trace) && AllWellFormed(shards) && NeverSets(trace, key)
    requires i < |shards| && key !in Keys(shards[i].entries)
    ensures key !in Keys(RunAll(shards, trace).0[i].entries)
    decreases |trace|
  {
    if trace != [] {
      hide Apply, WellFormed, Keys;
      var Event(j, step) := trace[0];
      assert trace[0] in trace;
      StepKeys(shards[j], step);
      StepProgress(shards[j], step);
      AbsentKept(shards[j := Apply(shards[j], step).0], trace[1..], i, key);
    }
  }

  /** Once its owner has had its turn, an argument is gone, and stays so unless somebody sets it again. */
  lemma {:induction false} ArgumentsGone(model: seq<Shard>, c: Call, hash: Hash, i: nat, key: Bytes)
    requires FitsServer(c, |model|) && i <= |model| && OthersRouted(c, hash, |model|)
    requires Routed(model, hash) && AllWellFormed(model) && key in c.args
    requires forall j :: 0 <= j < |c.between| ==> NeverSets(c.between[j], key)
    requires var owner := GetShardIndex(hash, key, |model|); owner < i || c.home == Some(owner)
    ensures var owner := GetShardIndex(hash, key, |model|);
            key !in Keys(RunAll(model, DelTrace(c, hash, |model|, i)).0[owner].entries)
  {
    hide RunAll, DelTrace, DelAll, Bucket, Keys, WellFormed, Routed, GetShardIndex, NeverSets, OwnsKeys;
    var owner := GetShardIndex(hash, key, |model|);
    if i == 0 {
      FirstBatch(model, c, hash);
      BatchDeletes(model[owner], c.args, hash, |model|, key);
    } else {
      var now := RunAll(model, DelTrace(c, hash, |model|, i - 1)).0;
      DelTraceRoutes(c, hash, |model|, i - 1);
      RoutingKept(model, DelTrace(c, hash, |model|, i - 1), hash);
      RoutingKept(now, c.between[i - 1], hash);
      OneMoreTurn(model, c, hash, i - 1);
      var before := RunAll(now, c.between[i - 1]).0;
      if i - 1 == owner && c.home != Some(owner) {
        BatchDeletes(before[owner], c.args, hash, |model|, key);
      } else {
        ArgumentsGone(model, c, hash, i - 1, key);
        AbsentKept(now, c.between[i - 1], owner, key);
        NothingDeleted(model, c, hash);
      }
    }
  }

  lemma BatchDeletes(s: Shard, args: seq<Bytes>, hash: Hash, n: nat, key: Bytes)
    requires n > 0 && key in args && WellFormed(s)
    ensures key !in Keys(DelAll(s, Bucket(args, hash, n, GetShardIndex(hash, key, n))).0.entries)
  {
    hide DelAll, Bucket, GetShardIndex, WellFormed;
    DelAllExact(s, Bucket(args, hash, n, GetShardIndex(hash, key, n)));
    BucketKeys(args, hash, n, GetShardIndex(hash, key, n));
  }

  // ---------------------------------------------------------------------------------------------
  // An undisturbed DEL is a flat DEL
  // ---------------------------------------------------------------------------------------------

  predicate Undisturbed(c: Call) {
    forall i :: 0 <= i < |c.between| ==> c.between[i] == []
  }

  /** The shards below `i`, and the own one, have lost their keys; the others are as they were. */
  lemma {:induction false} UndisturbedShards(model: seq<Shard>, c: Call, hash: Hash, i: nat, j: nat)
    requires FitsServer(c, |model|) && Undisturbed(c) && i <= |model| && j < |model|
    ensures RunAll(model, DelTrace(c, hash, |model|, i)).0[j]
            == if j < i || c.home == Some(j) then DelAll(model[j], Bucket(c.args, hash, |model|, j)).0 else model[j]
  {
    hide Bucket, GetShardIndex, DelTrace, RunAll;
    if i == 0 {
      if c.home.Some? { FirstBatch(model, c, hash); } else { NoHome(model, c, hash); }
    } else {
      OneMoreTurn(model, c, hash, i - 1);
      NoEvents(RunAll(model, DelTrace(c, hash, |model|, i - 1)).0);
      UndisturbedShards(model, c, hash, i - 1, j);
    }
  }

  lemma NoHome(model: seq<Shard>, c: Call, hash: Hash)
    requires FitsServer(c, |model|) && c.home.None?
    ensures RunAll(model, DelTrace(c, hash, |model|, 0)).0 == model
  {
  }

  /** The keys resident on the shards below `n`. */
  ghost function AllKeys(model: seq<Shard>, n: nat): set<Bytes>
    requires n <= |model|
  {
    if n == 0 then {} else AllKeys(model, n - 1) + Keys(model[n - 1].entries)
  }

  lemma {:induction false} KeysBelow(model: seq<Shard>, hash: Hash, n: nat)
    requires n <= |model| && Routed(model, hash)
    ensures forall k <- AllKeys(model, n) :: GetShardIndex(hash, k, |model|) < n
    ensures n < |model| ==> AllKeys(model, n) !! Keys(model[n].entries)
  {
    hide GetShardIndex, Keys;
    if n > 0 { KeysBelow(model, hash, n - 1); }
  }

  lemma DisjointHits(named: set<Bytes>, a: set<Bytes>, b: set<Bytes>)
    requires a !! b
    ensures Hits(named, a + b) == Hits(named, a) + Hits(named, b)
  {
    assert named * (a + b) == named * a + named * b;
    assert |named * a + named * b| == |named * a| + |named * b|;
  }

  lemma AtBatchUndisturbed(model: seq<Shard>, c: Call, hash: Hash, i: nat)
    requires FitsServer(c, |model|) && Undisturbed(c) && i < |model|
    ensures AtBatch(model, c, hash, i)[i] == model[i]
  {
    hide DelTrace, RunAll, DelAll;
    UndisturbedShards(model, c, hash, i, i);
    assert DelTrace(c, hash, |model|, i) + [] == DelTrace(c, hash, |model|, i);
  }

  lemma {:induction false} UndisturbedCount(model: seq<Shard>, c: Call, hash: Hash, n: nat)
    requires FitsServer(c, |model|) && Undisturbed(c) && n <= |model| && Routed(model, hash)
    ensures ResidentAtBatches(model, c, hash, n) == Hits(KeySet(c.args), AllKeys(model, n))
  {
    hide FitsServer, Undisturbed, Routed, AtBatch, KeySet, Keys;
    if n > 0 {
      UndisturbedCount(model, c, hash, n - 1);
      AtBatchUndisturbed(model, c, hash, n - 1);
      KeysBelow(model, hash, n - 1);
      DisjointHits(KeySet(c.args), AllKeys(model, n - 1), Keys(model[n - 1].entries));
    }
  }

  /** With nothing between its batches a DEL is the deletion of its arguments from one flat map,
      whatever the number of shards and wherever it starts. */
  lemma DelIsFlat(model: seq<Shard>, c: Call, hash: Hash)
    requires FitsServer(c, |model|) && Undisturbed(c) && Routed(model, hash) && AllWellFormed(model)
    ensures ResidentAtBatches(model, c, hash, |model|) == Hits(KeySet(c.args), AllKeys(model, |model|))
    ensures forall i :: 0 <= i < |model| ==> RunAll(model, DelTrace(c, hash, |model|, |model|)).0[i]
                                             == model[i].(entries := Remove(model[i].entries, KeySet(c.args)))
  {
    hide FitsServer, Undisturbed, Routed, WellFormed, DelAll, Bucket, Remove, RunAll, DelTrace;
    UndisturbedCount(model, c, hash, |model|);
    forall i | 0 <= i < |model|
      ensures RunAll(model, DelTrace(c, hash, |model|, |model|)).0[i]
              == model[i].(entries := Remove(model[i].entries, KeySet(c.args)))
    {
      UndisturbedShards(model, c, hash, |model|, i);
      BucketSuffices(model, hash, c.args, i);
    }
  }
}
