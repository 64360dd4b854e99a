/** INFO: the totals over one sample from each shard, taken at different moments. */
module ServerInfo {
  import opened ShardModel
  import opened ShardRuns
  import opened Interleaving

  function AddStats(a: Stats, b: Stats): Stats {
    Stats(a.usedBytes + b.usedBytes, a.keyCount + b.keyCount, a.evictions + b.evictions,
          a.expired + b.expired, a.maxMemoryBytes + b.maxMemoryBytes)
  }

  /** The totals INFO reports for its samples, one per shard. */
  function SumStats(samples: seq<Stats>): Stats {
    if samples == [] then Stats(0, 0, 0, 0, 0) else AddStats(SumStats(samples[..|samples| - 1]), samples[|samples| - 1])
  }

  /** The samples of an INFO that reads shard `i` after the first `times[i]` events of a trace. */
  function Samples(shards: seq<Shard>, trace: seq<Event>, times: seq<nat>): (r: seq<Stats>)
    requires InRange(|shards|, trace) && |times| == |shards|
    requires forall i :: 0 <= i < |times| ==> times[i] <= |trace|
    ensures |r| == |shards|
  {
    seq(|shards|, i requires 0 <= i < |shards| =>
      assert InRange(|shards|, trace[..times[i]]);
      StatsOf(RunAll(shards, trace[..times[i]]).0[i]))
  }

  lemma {:induction false} SumsCompare(a: seq<Stats>, b: seq<Stats>)
    requires |a| == |b|
    ensures (forall i :: 0 <= i < |a| ==> a[i].usedBytes <= a[i].maxMemoryBytes) ==>
              SumStats(a).usedBytes <= SumStats(a).maxMemoryBytes
    ensures (forall i :: 0 <= i < |a| ==> a[i].evictions <= b[i].evictions && a[i].expired <= b[i].expired) ==>
              SumStats(a).evictions <= SumStats(b).evictions && SumStats(a).expired <= SumStats(b).expired
    ensures (forall i :: 0 <= i < |a| ==> a[i].maxMemoryBytes == b[i].maxMemoryBytes) ==>
              SumStats(a).maxMemoryBytes == SumStats(b).maxMemoryBytes
  {
    if a != [] { SumsCompare(a[..|a| - 1], b[..|b| - 1]); }
  }

  lemma ShardProgress(shards: seq<Shard>, trace: seq<Event>, i: nat, t: nat, t': nat)
    requires InRange(|shards|, trace) && i < |shards| && t <= t' <= |trace| && AllWellFormed(shards)
    ensures Progress(RunAll(shards, trace[..t]).0[i], RunAll(shards, trace[..t']).0[i])
    ensures Progress(shards[i], RunAll(shards, trace[..t]).0[i])
  {
    hide Progress, RunAll;
    var mid := RunAll(shards, trace[..t]).0;
    ShardRunsAlone(shards, trace[..t], i);
    RunProgress(shards[i], StepsOf(trace[..t], i));
    assert trace[..t'] == trace[..t] + trace[t..t'];
    RunAllAppend(shards, trace[..t], trace[t..t']);
    ShardRunsAlone(mid, trace[t..t'], i);
    assert WellFormed(mid[i]) by { ProgressIsWellFormed(shards[i], mid[i]); }
    RunProgress(mid[i], StepsOf(trace[t..t'], i));
  }

  /** Whatever runs between its samples, INFO never reports more bytes used than there are; and a later
      INFO never reports fewer evictions or expiries, nor a different budget. */
  lemma InfoConsistent(shards: seq<Shard>, trace: seq<Event>, first: seq<nat>, second: seq<nat>)
    requires InRange(|shards|, trace) && AllWellFormed(shards) && |first| == |second| == |shards|
    requires forall i :: 0 <= i < |shards| ==> first[i] <= second[i] <= |trace|
    ensures var a, b := SumStats(Samples(shards, trace, first)), SumStats(Samples(shards, trace, second));
            && a.usedBytes <= a.maxMemoryBytes && a.maxMemoryBytes == b.maxMemoryBytes
            && a.evictions <= b.evictions && a.expired <= b.expired
  {
    var a, b := Samples(shards, trace, first), Samples(shards, trace, second);
    forall i | 0 <= i < |shards|
      ensures a[i].usedBytes <= a[i].maxMemoryBytes && a[i].maxMemoryBytes == b[i].maxMemoryBytes
      ensures a[i].evictions <= b[i].evictions && a[i].expired <= b[i].expired
    {
      hide RunAll;
      ShardProgress(shards, trace, i, first[i], second[i]);
    }
    SumsCompare(a, b);
  }

  /** Each total starts at zero and grows, from one sample to the next, by that sample's own field. */
  lemma TotalsAdd(samples: seq<Stats>, next: Stats)
    ensures SumStats([]) == Stats(0, 0, 0, 0, 0)
    ensures var before, after := SumStats(samples), SumStats(samples + [next]);
            && after.usedBytes == before.usedBytes + next.usedBytes
            && after.keyCount == before.keyCount + next.keyCount
            && after.evictions == before.evictions + next.evictions
            && after.expired == before.expired + next.expired
            && after.maxMemoryBytes == before.maxMemoryBytes + next.maxMemoryBytes
  {
    assert (samples + [next])[..|samples|] == samples;
  }

  // ---------------------------------------------------------------------------------------------
  // The samples of one INFO
  // ---------------------------------------------------------------------------------------------

  /** What has run by the time shard `k - 1` is sampled, when `between[i]` runs just before shard `i` is. */
  function Others(between: seq<seq<Event>>, k: nat): seq<Event>
    requires k <= |between|
  {
    if k == 0 then [] else Others(between, k - 1) + between[k - 1]
  }

  lemma {:induction false} OthersPrefix(between: seq<seq<Event>>, k: nat, n: nat)
    requires k <= n <= |between|
    ensures Others(between, k) <= Others(between, n)
    decreases n
  {
    if k < n { OthersPrefix(between, k, n - 1); }
  }

  lemma {:induction false} OthersInRange(between: seq<seq<Event>>, shardCount: nat, k: nat)
    requires k <= |between| && forall i :: 0 <= i < |between| ==> InRange(shardCount, between[i])
    ensures InRange(shardCount, Others(between, k))
  {
    if k > 0 { OthersInRange(between, shardCount, k - 1); }
  }

  predicate FitsShards(shards: seq<Shard>, between: seq<seq<Event>>) {
    |between| == |shards| && forall i :: 0 <= i < |between| ==> InRange(|shards|, between[i])
  }

  /** The samples of an INFO, shard after shard. */
  function InfoSamples(shards: seq<Shard>, between: seq<seq<Event>>): (r: seq<Stats>)
    requires FitsShards(shards, between)
    ensures |r| == |shards|
  {
    seq(|shards|, i requires 0 <= i < |shards| =>
      OthersInRange(between, |shards|, i + 1);
      StatsOf(RunAll(shards, Others(between, i + 1)).0[i]))
  }

  /** They are samples of one trace at times that never go back. */
  lemma InfoSamplesTrace(shards: seq<Shard>, between: seq<seq<Event>>) returns (trace: seq<Event>, times: seq<nat>)
    requires FitsShards(shards, between)
    ensures InRange(|shards|, trace) && |times| == |shards|
    ensures forall i :: 0 <= i < |times| ==> times[i] <= |trace|
    ensures forall i, j :: 0 <= i <= j < |times| ==> times[i] <= times[j]
    ensures Samples(shards, trace, times) == InfoSamples(shards, between)
  {
    hide RunAll;
    var n := |shards|;
    trace := Others(between, n);
    times := seq(n, i requires 0 <= i < n => |Others(between, i + 1)|);
    OthersInRange(between, n, n);
    forall i | 0 <= i < n ensures times[i] <= |trace| && trace[..times[i]] == Others(between, i + 1) {
      OthersPrefix(between, i + 1, n);
    }
    forall i, j | 0 <= i <= j < n ensures times[i] <= times[j] {
      OthersPrefix(between, i + 1, j + 1);
    }
  }

  lemma InfoFits(shards: seq<Shard>, between: seq<seq<Event>>)
    requires FitsShards(shards, between) && AllWellFormed(shards)
    ensures var total := SumStats(InfoSamples(shards, between)); total.usedBytes <= total.maxMemoryBytes
  {
    hide RunAll, Samples, InfoSamples, SumStats;
    var trace, times := InfoSamplesTrace(shards, between);
    InfoConsistent(shards, trace, times, times);
  }

  /** One more sample: the others first, then the shard's statistics. */
  lemma OneMoreSample(shards: seq<Shard>, between: seq<seq<Event>>, i: nat)
    requires FitsShards(shards, between) && i < |shards|
    ensures InRange(|shards|, Others(between, i)) && InRange(|shards|, Others(between, i + 1))
    ensures RunAll(shards, Others(between, i + 1)).0 == RunAll(RunAll(shards, Others(between, i)).0, between[i]).0
    ensures InfoSamples(shards, between)[i] == StatsOf(RunAll(shards, Others(between, i + 1)).0[i])
    ensures SumStats(InfoSamples(shards, between)[..i + 1])
            == AddStats(SumStats(InfoSamples(shards, between)[..i]), InfoSamples(shards, between)[i])
  {
    hide RunAll, SumStats, AddStats, StatsOf;
    OthersInRange(between, |shards|, i);
    OthersInRange(between, |shards|, i + 1);
    RunAllAppend(shards, Others(between, i), between[i]);
    SumOneMore(InfoSamples(shards, between), i);
  }

  lemma SumOneMore(samples: seq<Stats>, i: nat)
    requires i < |samples|
    ensures SumStats(samples[..i + 1]) == AddStats(SumStats(samples[..i]), samples[i])
  {
    assert samples[..i + 1][..i] == samples[..i];
  }

  lemma NoSamples(between: seq<seq<Event>>)
    ensures Others(between, 0) == [] && SumStats([]) == Stats(0, 0, 0, 0, 0)
  {
  }
}
