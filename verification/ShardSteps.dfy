/** The atomic actions on a shard, one per command or sweep, and whole runs of them. */
module ShardSteps {
  import opened Basics
  import opened ShardModel

  /** The option part of SET, already split into its cases; the last two are refused. */
  datatype SetMode = Plain | IfAbsent | IfPresent | ForSeconds(seconds: nat) | UnknownOption | NotANumber

  datatype Action =
    | GetKey(key: Bytes)
    | SetKey(key: Bytes, value: Bytes, mode: SetMode)
    | DelKeys(keys: seq<Bytes>)
    | ExpireKey(key: Bytes, seconds: Option<nat>)
    | TtlKey(key: Bytes)
    | SampleStats
    | SweepExpired

  datatype Reply =
    | Value(value: Option<Bytes>)
    | Done
    | NotSet
    | Refused
    | Number(n: int)
    | Sample(stats: Stats)
    | Swept

  /** An action with the clock readings it takes; only TTL takes a second one. */
  datatype Step = Step(action: Action, now: int, later: int)

  function ApplySet(s: Shard, key: Bytes, value: Bytes, mode: SetMode, now: int): (Shard, Reply) {
    match mode
    case Plain => (Set(s, key, value, None), Done)
    case ForSeconds(n) => (Set(s, key, value, Deadline(Some(n), now)), Done)
    case IfAbsent =>
      var (s', found) := Get(s, key, now);
      if found.Some? then (s', NotSet) else (Set(s', key, value, None), Done)
    case IfPresent =>
      var (s', found) := Get(s, key, now);
      if found.None? then (s', NotSet) else (Set(s', key, value, None), Done)
    case UnknownOption => (s, Refused)
    case NotANumber => (s, Refused)
  }

  /** Deletes keys one after another and counts those that were resident. */
  function DelAll(s: Shard, keys: seq<Bytes>): (Shard, nat)
    decreases |keys|
  {
    if keys == [] then (s, 0)
    else
      var (s', existed) := Del(s, keys[0]);
      var (s'', n) := DelAll(s', keys[1..]);
      (s'', n + if existed then 1 else 0)
  }

  function Apply(s: Shard, step: Step): (Shard, Reply) {
    match step.action
    case GetKey(key) =>
      var (s', r) := Get(s, key, step.now);
      (s', Value(r))
    case SetKey(key, value, mode) => ApplySet(s, key, value, mode, step.now)
    case DelKeys(keys) =>
      var (s', n) := DelAll(s, keys);
      (s', Number(n))
    case ExpireKey(key, seconds) =>
      if seconds.None? then (s, Refused)
      else
        var (s', found) := Expire(s, key, step.now + seconds.value * TICKS_PER_SECOND);
        (s', Number(if found then 1 else 0))
    case TtlKey(key) =>
      var (s', seconds) := Ttl(s, key, step.now, step.later);
      (s', Number(seconds))
    case SampleStats => (s, Sample(StatsOf(s)))
    case SweepExpired => (Sweep(s, step.now), Swept)
  }

  /** The final state and the replies, in order. */
  function Run(s: Shard, steps: seq<Step>): (r: (Shard, seq<Reply>))
    ensures |r.1| == |steps|
    decreases |steps|
  {
    if steps == [] then (s, [])
    else
      var (s', reply) := Apply(s, steps[0]);
      var (s'', replies) := Run(s', steps[1..]);
      (s'', [reply] + replies)
  }

  lemma RunCons(s: Shard, step: Step, steps: seq<Step>)
    ensures Run(s, [step] + steps).0 == Run(Apply(s, step).0, steps).0
    ensures Run(s, [step] + steps).1 == [Apply(s, step).1] + Run(Apply(s, step).0, steps).1
  {
    hide Apply;
    assert ([step] + steps)[1..] == steps;
  }

  lemma {:induction false} RunAppend(s: Shard, a: seq<Step>, b: seq<Step>)
    ensures var (mid, replies) := Run(s, a);
            Run(s, a + b) == (Run(mid, b).0, replies + Run(mid, b).1)
    decreases |a|
  {
    hide Apply;
    if a == [] {
      assert a + b == b && [] + Run(s, b).1 == Run(s, b).1;
    } else {
      var (s', reply) := Apply(s, a[0]);
      assert a + b == [a[0]] + (a[1..] + b) && a == [a[0]] + a[1..];
      RunCons(s, a[0], a[1..] + b);
      RunCons(s, a[0], a[1..]);
      RunAppend(s', a[1..], b);
      Associates([reply], Run(s', a[1..]).1, Run(Run(s', a[1..]).0, b).1);
    }
  }

  /** A run with one more step at its end. */
  lemma RunSnoc(s: Shard, steps: seq<Step>, last: Step)
    ensures var (mid, replies) := Run(s, steps);
            Run(s, steps + [last]) == (Apply(mid, last).0, replies + [Apply(mid, last).1])
  {
    hide Apply, Run;
    var mid := Run(s, steps).0;
    RunAppend(s, steps, [last]);
    assert [last] + [] == [last];
    RunCons(mid, last, []);
    RunNothing(Apply(mid, last).0);
    assert [Apply(mid, last).1] + [] == [Apply(mid, last).1];
  }

  lemma RunNothing(s: Shard)
    ensures Run(s, []) == (s, [])
  {
  }
}
