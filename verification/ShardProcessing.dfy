/** The per-shard halves of the command executor, on the pointer-linked shard. */
module ShardProcessing {
  import opened Basics
  import opened ShardModel
  import opened ShardSteps
  import opened LruShards

  method ProcessGetCommand(shard: LruShard, key: Bytes, now: int) returns (reply: Reply)
    requires shard.Valid()
    modifies shard.Repr
    ensures shard.Valid() && shard.Repr == old(shard.Repr)
    ensures (shard.Abs(), reply) == Apply(old(shard.Abs()), Step(GetKey(key), now, now))
  {
    var r := shard.Get(key, now);
    return Value(r);
  }

  method ProcessSetCommand(shard: LruShard, key: Bytes, value: Bytes, mode: SetMode, now: int) returns (reply: Reply)
    requires shard.Valid()
    modifies shard.Repr
    ensures shard.Valid() && fresh(shard.Repr - old(shard.Repr))
    ensures (shard.Abs(), reply) == Apply(old(shard.Abs()), Step(SetKey(key, value, mode), now, now))
  {
    hide ShardModel.Get, ShardModel.Set;
    var expireSeconds: Option<nat> := None;
    match mode {
      case Plain =>
      case IfAbsent =>
        var found := shard.Get(key, now);
        if found.Some? {
          return NotSet;
        }
      case IfPresent =>
        var found := shard.Get(key, now);
        if found.None? {
          return NotSet;
        }
      case ForSeconds(n) => expireSeconds := Some(n);
      case UnknownOption => return Refused;
      case NotANumber => return Refused;
    }
    shard.Set(key, value, expireSeconds, now);
    return Done;
  }

  /** The count is the number of keys whose turn found them resident. */
  method ProcessDelKeys(shard: LruShard, keys: seq<Bytes>) returns (deletedCount: nat)
    requires shard.Valid()
    modifies shard.Repr
    ensures shard.Valid() && shard.Repr == old(shard.Repr)
    ensures (shard.Abs(), deletedCount) == DelAll(old(shard.Abs()), keys)
  {
    hide ShardModel.Del;
    deletedCount := 0;
    for i := 0 to |keys|
      invariant shard.Valid() && shard.Repr == old(shard.Repr)
      invariant DelAll(old(shard.Abs()), keys) ==
                (DelAll(shard.Abs(), keys[i..]).0, deletedCount + DelAll(shard.Abs(), keys[i..]).1)
    {
      assert keys[i..][0] == keys[i] && keys[i..][1..] == keys[i + 1..];
      var existed := shard.Del(keys[i]);
      if existed {
        deletedCount := deletedCount + 1;
      }
    }
  }

  method ProcessExpireCommand(shard: LruShard, key: Bytes, seconds: Option<nat>, now: int) returns (reply: Reply)
    requires shard.Valid()
    modifies shard.Repr
    ensures shard.Valid() && shard.Repr == old(shard.Repr)
    ensures (shard.Abs(), reply) == Apply(old(shard.Abs()), Step(ExpireKey(key, seconds), now, now))
  {
    if seconds.None? {
      return Refused;
    }
    var found := shard.Expire(key, seconds.value, now);
    return Number(if found then 1 else 0);
  }

  method ProcessTtlCommand(shard: LruShard, key: Bytes, now: int, later: int) returns (reply: Reply)
    requires shard.Valid()
    modifies shard.Repr
    ensures shard.Valid() && shard.Repr == old(shard.Repr)
    ensures (shard.Abs(), reply) == Apply(old(shard.Abs()), Step(TtlKey(key), now, later))
  {
    var seconds := shard.Ttl(key, now, later);
    return Number(seconds);
  }

  /** One atomic step, dispatched as the executor and the expiration loop do. */
  method ExecuteStep(shard: LruShard, step: Step) returns (reply: Reply)
    requires shard.Valid()
    modifies shard.Repr
    ensures shard.Valid() && fresh(shard.Repr - old(shard.Repr))
    ensures (shard.Abs(), reply) == Apply(old(shard.Abs()), step)
  {
    hide ShardModel.Get, ShardModel.Set, ShardModel.Ttl, DelAll, Sweep, ApplySet, Find, WithDeadline, StatsOf;
    match step.action
    case GetKey(key) => reply := ProcessGetCommand(shard, key, step.now);
    case SetKey(key, value, mode) => reply := ProcessSetCommand(shard, key, value, mode, step.now);
    case DelKeys(keys) =>
      var deletedCount := ProcessDelKeys(shard, keys);
      reply := Number(deletedCount);
    case ExpireKey(key, seconds) => reply := ProcessExpireCommand(shard, key, seconds, step.now);
    case TtlKey(key) => reply := ProcessTtlCommand(shard, key, step.now, step.later);
    case SampleStats =>
      var stats := shard.GetStats();
      reply := Sample(stats);
    case SweepExpired =>
      shard.RemoveExpiredKeys(step.now);
      reply := Swept;
  }

  /** Over any run the linked structure shows exactly the behaviour of the abstract list, so whatever
      holds of all abstract runs holds of it. */
  method ExecuteRun(shard: LruShard, steps: seq<Step>) returns (replies: seq<Reply>)
    requires shard.Valid()
    modifies shard.Repr
    ensures shard.Valid() && fresh(shard.Repr - old(shard.Repr))
    ensures (shard.Abs(), replies) == Run(old(shard.Abs()), steps)
  {
    hide Apply;
    replies := [];
    assert steps[0..] == steps && [] + Run(shard.Abs(), steps).1 == Run(shard.Abs(), steps).1;
    for i := 0 to |steps|
      invariant shard.Valid() && fresh(shard.Repr - old(shard.Repr))
      invariant Run(old(shard.Abs()), steps) ==
                (Run(shard.Abs(), steps[i..]).0, replies + Run(shard.Abs(), steps[i..]).1)
    {
      assert steps[i..][0] == steps[i] && steps[i..][1..] == steps[i + 1..];
      ghost var before := shard.Abs();
      var reply := ExecuteStep(shard, steps[i]);
      RunStep(before, steps[i..], replies);
      replies := replies + [reply];
    }
    assert steps[|steps|..] == [] && replies + [] == replies;
  }

  lemma RunStep(s: Shard, steps: seq<Step>, replies: seq<Reply>)
    requires steps != []
    ensures var (s', reply) := Apply(s, steps[0]);
            && Run(s, steps).0 == Run(s', steps[1..]).0
            && replies + Run(s, steps).1 == replies + [reply] + Run(s', steps[1..]).1
  {
    hide Apply;
    var (s', reply) := Apply(s, steps[0]);
    assert replies + ([reply] + Run(s', steps[1..]).1) == replies + [reply] + Run(s', steps[1..]).1;
  }
}
