/** What every run of a shard keeps: the budget, the recency order, the working set, and the balance
    of insertions and removals. */
module ShardRuns {
  import opened Basics
  import opened ShardModel
  import opened ShardSteps

  // ---------------------------------------------------------------------------------------------
  // Well-formedness and counters
  // ---------------------------------------------------------------------------------------------

  lemma {:induction false} TrimFits(es: seq<Entry>, budget: nat)
    ensures Payload(Trim(es, budget)) <= budget
    ensures forall n :: |Trim(es, budget)| < n <= |es| ==> Payload(es[..n]) > budget
  {
    if Payload(es) > budget {
      var init := es[..|es| - 1];
      TrimFits(init, budget);
      forall n | |Trim(es, budget)| < n <= |es| ensures Payload(es[..n]) > budget {
        if n < |es| { assert init[..n] == es[..n]; } else { assert es[..n] == es; }
      }
    }
  }

  /** A prefix that fits survives trimming. */
  lemma {:induction false} TrimKeeps(es: seq<Entry>, budget: nat, front: seq<Entry>)
    requires front <= es && Payload(front) <= budget
    ensures front <= Trim(es, budget)
  {
    if Payload(es) > budget {
      assert front != es;
      TrimKeeps(es[..|es| - 1], budget, front);
    }
  }

  /** SET puts the key in front and keeps the longest prefix of the recency list that fits; every
      dropped entry is one eviction. */
  lemma SetKeepsLongestPrefix(s: Shard, key: Bytes, value: Bytes, expireAt: Option<int>)
    ensures var written := [Entry(key, value, expireAt)] + Without(s.entries, key);
            var s' := Set(s, key, value, expireAt);
            var n := |s'.entries|;
            && s'.entries <= written && Payload(written[..n]) <= s.budget
            && (forall m :: n < m <= |written| ==> Payload(written[..m]) > s.budget)
            && s'.evictions == s.evictions + (|written| - n)
            && s'.expired == s.expired && s'.budget == s.budget
  {
    var written := [Entry(key, value, expireAt)] + Without(s.entries, key);
    TrimFits(written, s.budget);
    var kept := Trim(written, s.budget);
    assert kept == written[..|kept|];
  }

  /** A value that alone exceeds the budget empties the shard. */
  lemma OversizedSetEmpties(s: Shard, key: Bytes, value: Bytes, expireAt: Option<int>)
    ensures Set(s, key, value, expireAt).entries == [] <==> |key| + |value| > s.budget
  {
    var e := Entry(key, value, expireAt);
    var written := [e] + Without(s.entries, key);
    TrimFits(written, s.budget);
    assert written[..1] == [e] && Payload([e]) == PayloadOf(e) + Payload([]);
    if |key| + |value| <= s.budget {
      TrimKeeps(written, s.budget, [e]);
    } else if Set(s, key, value, expireAt).entries != [] {
      PayloadPrefix([e], Trim(written, s.budget));
    }
  }

  ghost predicate Progress(s: Shard, s': Shard) {
    WellFormed(s') && s'.budget == s.budget && s'.evictions >= s.evictions && s'.expired >= s.expired
  }

  lemma ProgressIsWellFormed(s: Shard, s': Shard)
    requires Progress(s, s')
    ensures WellFormed(s')
  {
  }

  lemma SetProgress(s: Shard, key: Bytes, value: Bytes, expireAt: Option<int>)
    requires WellFormed(s)
    ensures Progress(s, Set(s, key, value, expireAt))
  {
    var written := [Entry(key, value, expireAt)] + Without(s.entries, key);
    assert written[1..] == Without(s.entries, key);
    WithoutDistinct(s.entries, key);
    TrimFits(written, s.budget);
    DistinctPrefix(Trim(written, s.budget), written);
  }

  lemma FrontMoved(es: seq<Entry>, key: Bytes)
    requires Distinct(es) && Find(es, key).Some?
    ensures var es' := [Find(es, key).value] + Without(es, key);
            Distinct(es') && Payload(es') == Payload(es) && |es'| == |es|
  {
    var es' := [Find(es, key).value] + Without(es, key);
    assert es'[1..] == Without(es, key);
    WithoutDistinct(es, key);
    WithoutPresent(es, key);
  }

  lemma GetProgress(s: Shard, key: Bytes, now: int)
    requires WellFormed(s)
    ensures Progress(s, Get(s, key, now).0)
  {
    hide Without, Distinct, Payload;
    WithoutDistinct(s.entries, key);
    WithoutPayload(s.entries, key);
    if Find(s.entries, key).Some? {
      FrontMoved(s.entries, key);
    }
  }

  lemma {:induction false} DelAllProgress(s: Shard, keys: seq<Bytes>)
    requires WellFormed(s)
    ensures Progress(s, DelAll(s, keys).0)
    decreases |keys|
  {
    hide Without, Distinct, Payload;
    if keys != [] {
      WithoutDistinct(s.entries, keys[0]);
      WithoutPayload(s.entries, keys[0]);
      DelAllProgress(Del(s, keys[0]).0, keys[1..]);
    }
  }

  lemma {:induction false} DeadlineKeeps(es: seq<Entry>, key: Bytes, deadline: int)
    ensures var es' := WithDeadline(es, key, deadline);
            && Keys(es') == Keys(es) && Payload(es') == Payload(es) && |es'| == |es|
            && (Distinct(es) ==> Distinct(es'))
  {
    if es != [] {
      var es' := WithDeadline(es, key, deadline);
      DeadlineKeeps(es[1..], key, deadline);
      assert Keys(es) == {es[0].key} + Keys(es[1..]) by { assert es == [es[0]] + es[1..]; }
      assert Keys(es') == {es'[0].key} + Keys(es'[1..]) by { assert es' == [es'[0]] + es'[1..]; }
    }
  }

  lemma {:induction false} AliveKeeps(es: seq<Entry>, now: int)
    requires Distinct(es)
    ensures Distinct(Alive(es, now)) && Payload(Alive(es, now)) <= Payload(es)
  {
    if es != [] {
      AliveKeeps(es[1..], now);
    }
  }

  /** Every step keeps the shard well-formed and within its budget, and its counters never fall. */
  lemma StepProgress(s: Shard, step: Step)
    requires WellFormed(s)
    ensures Progress(s, Apply(s, step).0)
  {
    hide Without, Distinct, Payload, Set, Get, DelAll;
    match step.action
    case GetKey(key) => GetProgress(s, key, step.now);
    case SetKey(key, value, mode) =>
      GetProgress(s, key, step.now);
      SetProgress(s, key, value, None);
      SetProgress(s, key, value, if mode.ForSeconds? then Deadline(Some(mode.seconds), step.now) else None);
      SetProgress(Get(s, key, step.now).0, key, value, None);
    case DelKeys(keys) => DelAllProgress(s, keys);
    case ExpireKey(key, seconds) =>
      if seconds.Some? { DeadlineKeeps(s.entries, key, step.now + seconds.value * TICKS_PER_SECOND); }
    case TtlKey(key) =>
      WithoutDistinct(s.entries, key);
      WithoutPayload(s.entries, key);
    case SampleStats =>
    case SweepExpired => AliveKeeps(s.entries, step.now);
  }

  lemma {:induction false} RunProgress(s: Shard, steps: seq<Step>)
    requires WellFormed(s)
    ensures Progress(s, Run(s, steps).0)
    decreases |steps|
  {
    if steps != [] {
      hide Apply;
      StepProgress(s, steps[0]);
      RunProgress(Apply(s, steps[0]).0, steps[1..]);
    }
  }

  /** A sweep removes exactly the entries that are due, in one go, and what remains is not yet due. */
  lemma SweepExact(s: Shard, now: int)
    ensures var s' := Sweep(s, now);
            && (forall e :: e in s'.entries <==> e in s.entries && !IsExpired(e, now))
            && s'.expired - s.expired == |s.entries| - |s'.entries|
            && (NextDeadline(s'.entries).Some? ==> NextDeadline(s'.entries).value > now)
            && Sweep(s', now) == s'
  {
    AllAlive(Alive(s.entries, now), now);
  }

  // ---------------------------------------------------------------------------------------------
  // Conservation
  // ---------------------------------------------------------------------------------------------

  /** How many keys a step inserts that were not resident when it wrote them. */
  function Inserted(s: Shard, step: Step): nat {
    if step.action.SetKey? && Apply(s, step).1 == Done
       && step.action.key !in Keys(BeforeWrite(s, step).entries) then 1 else 0
  }

  /** The shard at the moment a SET writes: NX and XX have looked the key up before. */
  function BeforeWrite(s: Shard, step: Step): Shard
    requires step.action.SetKey?
  {
    if step.action.mode.IfAbsent? || step.action.mode.IfPresent? then Get(s, step.action.key, step.now).0 else s
  }

  function Deleted(s: Shard, step: Step): nat {
    if step.action.DelKeys? then DelAll(s, step.action.keys).1 else 0
  }

  function TotalInserted(s: Shard, steps: seq<Step>): nat
    decreases |steps|
  {
    if steps == [] then 0 else Inserted(s, steps[0]) + TotalInserted(Apply(s, steps[0]).0, steps[1..])
  }

  function TotalDeleted(s: Shard, steps: seq<Step>): nat
    decreases |steps|
  {
    if steps == [] then 0 else Deleted(s, steps[0]) + TotalDeleted(Apply(s, steps[0]).0, steps[1..])
  }

  function Accounted(s: Shard): nat {
    |s.entries| + s.evictions + s.expired
  }

  lemma SetAccounted(s: Shard, key: Bytes, value: Bytes, expireAt: Option<int>)
    requires WellFormed(s)
    ensures Accounted(Set(s, key, value, expireAt)) == Accounted(s) + if key in Keys(s.entries) then 0 else 1
  {
    if key in Keys(s.entries) { WithoutPresent(s.entries, key); } else { WithoutAbsent(s.entries, key); }
  }

  lemma GetAccounted(s: Shard, key: Bytes, now: int)
    requires WellFormed(s)
    ensures Accounted(Get(s, key, now).0) == Accounted(s)
  {
    if key in Keys(s.entries) { WithoutPresent(s.entries, key); }
  }

  lemma {:induction false} DelAllAccounted(s: Shard, keys: seq<Bytes>)
    requires WellFormed(s)
    ensures Accounted(DelAll(s, keys).0) + DelAll(s, keys).1 == Accounted(s)
    decreases |keys|
  {
    if keys != [] {
      var s' := Del(s, keys[0]).0;
      if keys[0] in Keys(s.entries) { WithoutPresent(s.entries, keys[0]); } else { WithoutAbsent(s.entries, keys[0]); }
      hide Without, Payload, Distinct;
      WithoutDistinct(s.entries, keys[0]);
      WithoutPayload(s.entries, keys[0]);
      DelAllAccounted(s', keys[1..]);
    }
  }

  lemma StepAccounted(s: Shard, step: Step)
    requires WellFormed(s)
    ensures Accounted(Apply(s, step).0) + Deleted(s, step) == Accounted(s) + Inserted(s, step)
  {
    hide Without, Payload, Distinct, Set, Get, DelAll;
    match step.action
    case GetKey(key) => GetAccounted(s, key, step.now);
    case SetKey(key, value, mode) =>
      GetAccounted(s, key, step.now);
      GetProgress(s, key, step.now);
      SetAccounted(s, key, value, if mode.ForSeconds? then Deadline(Some(mode.seconds), step.now) else None);
      SetAccounted(Get(s, key, step.now).0, key, value, None);
    case DelKeys(keys) => DelAllAccounted(s, keys);
    case ExpireKey(key, seconds) =>
      if seconds.Some? { DeadlineKeeps(s.entries, key, step.now + seconds.value * TICKS_PER_SECOND); }
    case TtlKey(key) => if key in Keys(s.entries) { WithoutPresent(s.entries, key); }
    case SampleStats =>
    case SweepExpired =>
  }

  /** Conservation: what was inserted afresh is resident, evicted, expired or deleted. */
  lemma {:induction false} RunConserves(s: Shard, steps: seq<Step>)
    requires WellFormed(s)
    ensures Accounted(Run(s, steps).0) + TotalDeleted(s, steps) == Accounted(s) + TotalInserted(s, steps)
    decreases |steps|
  {
    if steps != [] {
      hide Apply, Accounted, Inserted, Deleted;
      StepAccounted(s, steps[0]);
      StepProgress(s, steps[0]);
      RunConserves(Apply(s, steps[0]).0, steps[1..]);
    }
  }

  /** From an empty shard on: insertions are residents, evictions, expiries and deletions. */
  lemma ConservationFromEmpty(budget: nat, steps: seq<Step>)
    ensures var s := Run(Empty(budget), steps).0;
            TotalInserted(Empty(budget), steps)
            == |s.entries| + s.evictions + s.expired + TotalDeleted(Empty(budget), steps)
  {
    RunConserves(Empty(budget), steps);
  }

  // ---------------------------------------------------------------------------------------------
  // Deletion
  // ---------------------------------------------------------------------------------------------

  function KeySet(keys: seq<Bytes>): set<Bytes> {
    set k <- keys
  }

  /** Deleting a list of keys counts the distinct ones that are resident, and removes just those. */
  lemma {:induction false} DelAllExact(s: Shard, keys: seq<Bytes>)
    requires WellFormed(s)
    ensures DelAll(s, keys).1 == |KeySet(keys) * Keys(s.entries)|
    ensures DelAll(s, keys).0 == s.(entries := Remove(s.entries, KeySet(keys)))
    decreases |keys|
  {
    if keys == [] {
      RemoveNothing(s.entries);
    } else {
      var key, rest := keys[0], keys[1..];
      assert KeySet(keys) == {key} + KeySet(rest) by { assert keys == [key] + rest; }
      WithoutKeys(s.entries, key);
      WithoutDistinct(s.entries, key);
      WithoutPayload(s.entries, key);
      RemoveBoth(s.entries, key, KeySet(rest));
      CountOne(key, KeySet(rest), Keys(s.entries));
      hide Without, Distinct, Payload, Remove, KeySet, Keys;
      DelAllExact(Del(s, key).0, rest);
    }
  }

  lemma CountOne(key: Bytes, rest: set<Bytes>, resident: set<Bytes>)
    ensures |({key} + rest) * resident| == (if key in resident then 1 else 0) + |rest * (resident - {key})|
  {
    var hit, others := if key in resident then {key} else {}, rest * (resident - {key});
    assert ({key} + rest) * resident == hit + others;
    assert |hit + others| == |hit| + |others|;
  }
}
