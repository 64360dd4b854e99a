/** The least-recently-used guarantees over whole runs: the list is ordered by last touch, and a key
    stays resident while the working set since its last touch fits the budget. */
module WorkingSet {
  import opened Basics
  import opened ShardModel
  import opened ShardSteps
  import opened ShardRuns

  /** A key and the payload it had when it was last used. */
  datatype Touch = Touch(key: Bytes, bytes: nat)

  /** The use a step makes of a key: a SET that writes, or a lookup that finds a live value. */
  function TouchOf(s: Shard, step: Step): seq<Touch> {
    match step.action
    case GetKey(key) => LookupTouch(s, key, step.now)
    case SetKey(key, value, mode) =>
      if Apply(s, step).1 == Done then [Touch(key, |key| + |value|)]
      else if mode.IfAbsent? then LookupTouch(s, key, step.now)
      else []
    case _ => []
  }

  function LookupTouch(s: Shard, key: Bytes, now: int): seq<Touch> {
    var found := Find(s.entries, key);
    if found.Some? && !IsExpired(found.value, now) then [Touch(key, PayloadOf(found.value))] else []
  }

  /** All touches of a run, in order. */
  function Touches(s: Shard, steps: seq<Step>): seq<Touch>
    decreases |steps|
  {
    if steps == [] then [] else TouchOf(s, steps[0]) + Touches(Apply(s, steps[0]).0, steps[1..])
  }

  // ---------------------------------------------------------------------------------------------
  // Recency order
  // ---------------------------------------------------------------------------------------------

  /** The index of a key's last touch, or -1. */
  function LastTouch(log: seq<Touch>, key: Bytes): (i: int)
    ensures -1 <= i < |log|
  {
    if log == [] then -1
    else if log[|log| - 1].key == key then |log| - 1
    else LastTouch(log[..|log| - 1], key)
  }

  /** Every entry was touched later than all entries behind it. */
  ghost predicate OrderedByTouch(es: seq<Entry>, log: seq<Touch>) {
    es != [] ==>
      && LastTouch(log, es[0].key) >= 0
      && (forall e <- es[1..] :: LastTouch(log, es[0].key) > LastTouch(log, e.key))
      && OrderedByTouch(es[1..], log)
  }

  lemma {:induction false} OrderedWithout(es: seq<Entry>, key: Bytes, log: seq<Touch>)
    requires OrderedByTouch(es, log)
    ensures OrderedByTouch(Without(es, key), log)
  {
    if es != [] { OrderedWithout(es[1..], key, log); }
  }

  lemma {:induction false} OrderedAlive(es: seq<Entry>, now: int, log: seq<Touch>)
    requires OrderedByTouch(es, log)
    ensures OrderedByTouch(Alive(es, now), log)
  {
    if es != [] { OrderedAlive(es[1..], now, log); }
  }

  lemma {:induction false} OrderedDeadline(es: seq<Entry>, key: Bytes, deadline: int, log: seq<Touch>)
    requires OrderedByTouch(es, log)
    ensures OrderedByTouch(WithDeadline(es, key, deadline), log)
  {
    if es != [] {
      OrderedDeadline(es[1..], key, deadline, log);
      DeadlineKeeps(es[1..], key, deadline);
      forall e <- WithDeadline(es[1..], key, deadline) ensures exists e' <- es[1..] :: e'.key == e.key {
        assert e.key in Keys(es[1..]);
      }
    }
  }

  lemma {:induction false} OrderedPrefix(a: seq<Entry>, b: seq<Entry>, log: seq<Touch>)
    requires a <= b && OrderedByTouch(b, log)
    ensures OrderedByTouch(a, log)
  {
    if a != [] {
      assert a[1..] <= b[1..];
      OrderedPrefix(a[1..], b[1..], log);
      assert forall e <- a[1..] :: e in b[1..];
    }
  }

  lemma LastTouchAppend(log: seq<Touch>, t: Touch, key: Bytes)
    ensures LastTouch(log + [t], key) == if t.key == key then |log| else LastTouch(log, key)
  {
  }

  lemma {:induction false} OrderedLater(es: seq<Entry>, log: seq<Touch>, t: Touch)
    requires OrderedByTouch(es, log) && t.key !in Keys(es)
    ensures OrderedByTouch(es, log + [t])
  {
    if es != [] {
      assert es[0] in es;
      forall e <- es ensures LastTouch(log + [t], e.key) == LastTouch(log, e.key) {
        LastTouchAppend(log, t, e.key);
      }
      OrderedLater(es[1..], log, t);
    }
  }

  /** Moving a touched key to the front keeps the order. */
  lemma OrderedTouch(es: seq<Entry>, e: Entry, log: seq<Touch>, t: Touch)
    requires OrderedByTouch(es, log) && t.key == e.key
    ensures OrderedByTouch([e] + Without(es, e.key), log + [t])
  {
    var rest := Without(es, e.key);
    OrderedWithout(es, e.key, log);
    OrderedLater(rest, log, t);
    assert ([e] + rest)[1..] == rest;
    LastTouchAppend(log, t, e.key);
    forall e' <- rest ensures LastTouch(log + [t], e'.key) < |log| {
      LastTouchAppend(log, t, e'.key);
    }
  }

  lemma OrderedSet(s: Shard, key: Bytes, value: Bytes, expireAt: Option<int>, log: seq<Touch>)
    requires OrderedByTouch(s.entries, log)
    ensures OrderedByTouch(Set(s, key, value, expireAt).entries, log + [Touch(key, |key| + |value|)])
  {
    var e, t := Entry(key, value, expireAt), Touch(key, |key| + |value|);
    OrderedTouch(s.entries, e, log, t);
    OrderedPrefix(Set(s, key, value, expireAt).entries, [e] + Without(s.entries, key), log + [t]);
  }

  lemma OrderedGet(s: Shard, key: Bytes, now: int, log: seq<Touch>)
    requires OrderedByTouch(s.entries, log)
    ensures OrderedByTouch(Get(s, key, now).0.entries, log + LookupTouch(s, key, now))
  {
    hide OrderedByTouch, Without;
    assert log + [] == log;
    OrderedWithout(s.entries, key, log);
    var found := Find(s.entries, key);
    if found.Some? {
      OrderedTouch(s.entries, found.value, log, Touch(key, PayloadOf(found.value)));
    }
  }

  lemma {:induction false} OrderedDelAll(s: Shard, keys: seq<Bytes>, log: seq<Touch>)
    requires OrderedByTouch(s.entries, log)
    ensures OrderedByTouch(DelAll(s, keys).0.entries, log)
    decreases |keys|
  {
    hide OrderedByTouch, Without;
    if keys != [] {
      OrderedWithout(s.entries, keys[0], log);
      OrderedDelAll(Del(s, keys[0]).0, keys[1..], log);
    }
  }

  lemma StepKeepsOrder(s: Shard, step: Step, log: seq<Touch>)
    requires OrderedByTouch(s.entries, log)
    ensures OrderedByTouch(Apply(s, step).0.entries, log + TouchOf(s, step))
  {
    hide OrderedByTouch, Without, Set, Get, DelAll, LookupTouch, Alive, WithDeadline;
    assert log + [] == log;
    match step.action
    case GetKey(key) => OrderedGet(s, key, step.now, log);
    case SetKey(key, value, mode) => SetStepKeepsOrder(s, step, log);
    case DelKeys(keys) => OrderedDelAll(s, keys, log);
    case ExpireKey(key, seconds) =>
      if seconds.Some? { OrderedDeadline(s.entries, key, step.now + seconds.value * TICKS_PER_SECOND, log); }
    case TtlKey(key) => OrderedWithout(s.entries, key, log);
    case SampleStats =>
    case SweepExpired => OrderedAlive(s.entries, step.now, log);
  }

  /** Looking a key up before overwriting it makes no difference to the list. */
  lemma SetAfterLookup(s: Shard, key: Bytes, value: Bytes, now: int)
    ensures Set(Get(s, key, now).0, key, value, None).entries == Set(s, key, value, None).entries
  {
    WithoutKeys(s.entries, key);
    WithoutAbsent(Without(s.entries, key), key);
    var found := Find(s.entries, key);
    if found.Some? {
      assert ([found.value] + Without(s.entries, key))[1..] == Without(s.entries, key);
    }
  }

  function WrittenDeadline(step: Step): Option<int>
    requires step.action.SetKey?
  {
    if step.action.mode.ForSeconds? then Deadline(Some(step.action.mode.seconds), step.now) else None
  }

  /** A SET step either writes, or is a plain lookup, or does nothing. */
  lemma SetOutcome(s: Shard, step: Step)
    requires step.action.SetKey?
    ensures var SetKey(key, value, _) := step.action;
            var es := Apply(s, step).0.entries;
            if Apply(s, step).1 == Done then
              && es == Set(s, key, value, WrittenDeadline(step)).entries
              && TouchOf(s, step) == [Touch(key, |key| + |value|)]
            else
              || (es == s.entries && TouchOf(s, step) == [])
              || (es == Get(s, key, step.now).0.entries && TouchOf(s, step) == LookupTouch(s, key, step.now))
  {
    hide Set, Without, Find;
    SetAfterLookup(s, step.action.key, step.action.value, step.now);
  }

  lemma SetStepKeepsOrder(s: Shard, step: Step, log: seq<Touch>)
    requires OrderedByTouch(s.entries, log) && step.action.SetKey?
    ensures OrderedByTouch(Apply(s, step).0.entries, log + TouchOf(s, step))
  {
    hide OrderedByTouch, Set, Get, Apply, TouchOf, LookupTouch;
    var SetKey(key, value, _) := step.action;
    assert log + [] == log;
    SetOutcome(s, step);
    OrderedSet(s, key, value, WrittenDeadline(step), log);
    OrderedGet(s, key, step.now, log);
  }

  lemma {:induction false} RunKeepsOrder(s: Shard, steps: seq<Step>, log: seq<Touch>)
    requires OrderedByTouch(s.entries, log)
    ensures OrderedByTouch(Run(s, steps).0.entries, log + Touches(s, steps))
    decreases |steps|
  {
    hide OrderedByTouch, Apply, TouchOf;
    if steps == [] {
      assert log + [] == log;
    } else {
      StepKeepsOrder(s, steps[0], log);
      RunKeepsOrder(Apply(s, steps[0]).0, steps[1..], log + TouchOf(s, steps[0]));
      assert log + TouchOf(s, steps[0]) + Touches(Apply(s, steps[0]).0, steps[1..]) == log + Touches(s, steps);
    }
  }

  lemma {:induction false} OrderedAt(es: seq<Entry>, log: seq<Touch>, i: nat, j: nat)
    requires OrderedByTouch(es, log) && i < j < |es|
    ensures LastTouch(log, es[i].key) > LastTouch(log, es[j].key)
  {
    if i == 0 {
      assert es[j] == es[1..][j - 1];
    } else {
      OrderedAt(es[1..], log, i - 1, j - 1);
    }
  }

  /** Eviction takes the least recently touched: after any run of an initially empty shard, a SET keeps
      a prefix of the list it writes, and whatever it drops was last touched before all it keeps. */
  lemma EvictsLeastRecentlyTouched(budget: nat, steps: seq<Step>, key: Bytes, value: Bytes, expireAt: Option<int>)
    ensures var s := Run(Empty(budget), steps).0;
            var log := Touches(Empty(budget), steps) + [Touch(key, |key| + |value|)];
            var written := [Entry(key, value, expireAt)] + Without(s.entries, key);
            var kept := |Set(s, key, value, expireAt).entries|;
            forall i, j :: 0 <= i < kept <= j < |written| ==>
              LastTouch(log, written[i].key) > LastTouch(log, written[j].key)
  {
    var s := Run(Empty(budget), steps).0;
    var e := Entry(key, value, expireAt);
    var log := Touches(Empty(budget), steps);
    RunKeepsOrder(Empty(budget), steps, []);
    assert [] + log == log;
    OrderedTouch(s.entries, e, log, Touch(key, |key| + |value|));
    var written := [e] + Without(s.entries, key);
    forall i, j | 0 <= i < |Set(s, key, value, expireAt).entries| <= j < |written|
      ensures LastTouch(log + [Touch(key, |key| + |value|)], written[i].key)
              > LastTouch(log + [Touch(key, |key| + |value|)], written[j].key)
    {
      OrderedAt(written, log + [Touch(key, |key| + |value|)], i, j);
    }
  }

  // ---------------------------------------------------------------------------------------------
  // The working set
  // ---------------------------------------------------------------------------------------------

  function Drop(ts: seq<Touch>, key: Bytes): seq<Touch> {
    if ts == [] then [] else if ts[0].key == key then Drop(ts[1..], key) else [ts[0]] + Drop(ts[1..], key)
  }

  /** The distinct keys touched, most recent first, each with its last payload. */
  function Recent(touches: seq<Touch>): seq<Touch> {
    if touches == [] then []
    else
      var last := touches[|touches| - 1];
      [last] + Drop(Recent(touches[..|touches| - 1]), last.key)
  }

  function Total(ts: seq<Touch>): nat {
    if ts == [] then 0 else ts[0].bytes + Total(ts[1..])
  }

  function Footprint(es: seq<Entry>): seq<Touch> {
    if es == [] then [] else [Touch(es[0].key, PayloadOf(es[0]))] + Footprint(es[1..])
  }

  /** The list from its front up to and including a key. */
  function UpTo(es: seq<Entry>, key: Bytes): seq<Entry> {
    if es == [] then [] else if es[0].key == key then [es[0]] else [es[0]] + UpTo(es[1..], key)
  }

  /** `a` is a subsequence of `b`. */
  ghost predicate Within(a: seq<Touch>, b: seq<Touch>)
    decreases |b|
  {
    a == [] || (b != [] && ((a[0] == b[0] && Within(a[1..], b[1..])) || Within(a, b[1..])))
  }

  lemma {:induction false} WithinTotal(a: seq<Touch>, b: seq<Touch>)
    requires Within(a, b)
    ensures Total(a) <= Total(b)
    decreases |b|
  {
    if a != [] {
      if a[0] == b[0] && Within(a[1..], b[1..]) { WithinTotal(a[1..], b[1..]); } else { WithinTotal(a, b[1..]); }
    }
  }

  /** Dropping a key on the left, or on both sides, keeps a subsequence. */
  lemma {:induction false} WithinDrop(a: seq<Touch>, b: seq<Touch>, key: Bytes)
    requires Within(a, b)
    ensures Within(Drop(a, key), b) && Within(Drop(a, key), Drop(b, key))
    decreases |b|
  {
    if a != [] {
      if a[0] == b[0] && Within(a[1..], b[1..]) {
        WithinDrop(a[1..], b[1..], key);
        WithinCons(a[0], Drop(a[1..], key), Drop(b[1..], key));
        WithinCons(a[0], Drop(a[1..], key), b[1..]);
        assert b == [b[0]] + b[1..];
      } else {
        WithinDrop(a, b[1..], key);
        WithinSkip(Drop(a, key), b[0], Drop(b[1..], key));
      }
    }
  }

  lemma WithinCons(t: Touch, a: seq<Touch>, b: seq<Touch>)
    requires Within(a, b)
    ensures Within([t] + a, [t] + b) && Within(a, [t] + b)
  {
  }

  lemma WithinSkip(a: seq<Touch>, t: Touch, b: seq<Touch>)
    requires Within(a, b)
    ensures Within(a, [t] + b)
  {
  }

  lemma {:induction false} FootprintAlive(es: seq<Entry>, now: int, b: seq<Touch>)
    requires Within(Footprint(es), b)
    ensures Within(Footprint(Alive(es, now)), b)
    decreases |es| + |b|
  {
    if es != [] {
      var a := Footprint(es);
      assert a[1..] == Footprint(es[1..]);
      if a[0] == b[0] && Within(a[1..], b[1..]) {
        FootprintAlive(es[1..], now, b[1..]);
        WithinCons(b[0], Footprint(Alive(es[1..], now)), b[1..]);
        assert b == [b[0]] + b[1..];
        if !IsExpired(es[0], now) {
          assert Alive(es, now)[1..] == Alive(es[1..], now);
        }
      } else {
        FootprintAlive(es, now, b[1..]);
      }
    }
  }

  lemma {:induction false} FootprintFacts(es: seq<Entry>, key: Bytes)
    ensures Total(Footprint(es)) == Payload(es)
    ensures Footprint(Without(es, key)) == Drop(Footprint(es), key)
  {
    if es != [] {
      FootprintFacts(es[1..], key);
      if es[0].key != key {
        assert Without(es, key)[1..] == Without(es[1..], key);
      }
    }
  }

  lemma {:induction false} UpToWithout(es: seq<Entry>, key: Bytes, gone: Bytes)
    requires gone != key
    ensures UpTo(Without(es, gone), key) == Without(UpTo(es, key), gone)
  {
    if es != [] {
      UpToWithout(es[1..], key, gone);
      if es[0].key == key {
        assert [es[0]][1..] == [];
        assert Without([es[0]], gone) == [es[0]];
      } else {
        assert UpTo(es, key)[1..] == UpTo(es[1..], key);
        if es[0].key != gone { assert Without(es, gone)[1..] == Without(es[1..], gone); }
      }
    }
  }

  lemma {:induction false} UpToAlive(es: seq<Entry>, key: Bytes, now: int)
    requires Find(es, key).Some? ==> !IsExpired(Find(es, key).value, now)
    ensures UpTo(Alive(es, now), key) == Alive(UpTo(es, key), now)
  {
    if es != [] {
      if es[0].key == key {
        assert Alive([es[0]], now) == [es[0]];
      } else {
        UpToAlive(es[1..], key, now);
        assert UpTo(es, key)[1..] == UpTo(es[1..], key);
        if !IsExpired(es[0], now) { assert Alive(es, now)[1..] == Alive(es[1..], now); }
      }
    }
  }

  lemma {:induction false} UpToDeadline(es: seq<Entry>, key: Bytes, k: Bytes, deadline: int)
    ensures Footprint(UpTo(WithDeadline(es, k, deadline), key)) == Footprint(UpTo(es, key))
  {
    if es != [] {
      UpToDeadline(es[1..], key, k, deadline);
    }
  }

  /** A prefix that reaches a key determines the list up to it. */
  lemma {:induction false} UpToPrefix(es: seq<Entry>, key: Bytes, kept: seq<Entry>)
    requires key in Keys(es) && UpTo(es, key) <= kept <= es
    ensures key in Keys(kept) && UpTo(kept, key) == UpTo(es, key)
  {
    assert kept[0] == es[0] && kept[0] in kept;
    if es[0].key != key {
      assert UpTo(es, key)[1..] == UpTo(es[1..], key);
      UpToPrefix(es[1..], key, kept[1..]);
      assert kept == [kept[0]] + kept[1..];
    }
  }

  lemma {:induction false} UpToIsPrefix(es: seq<Entry>, key: Bytes)
    ensures UpTo(es, key) <= es
  {
    if es != [] { UpToIsPrefix(es[1..], key); }
  }

  /** The key is resident, and everything in front of it is among the recently touched. */
  ghost predicate Covered(es: seq<Entry>, key: Bytes, touches: seq<Touch>) {
    key in Keys(es) && Within(Footprint(UpTo(es, key)), Recent(touches))
  }

  lemma RecentAppend(touches: seq<Touch>, t: Touch)
    ensures Recent(touches + [t]) == [t] + Drop(Recent(touches), t.key)
  {
  }

  lemma CoveredWithout(es: seq<Entry>, key: Bytes, gone: Bytes, touches: seq<Touch>)
    requires Covered(es, key, touches) && gone != key
    ensures Covered(Without(es, gone), key, touches)
  {
    WithoutKeys(es, gone);
    UpToWithout(es, key, gone);
    FootprintFacts(UpTo(es, key), gone);
    WithinDrop(Footprint(UpTo(es, key)), Recent(touches), gone);
  }

  /** An entry touched and moved to the front. */
  lemma CoveredFront(es: seq<Entry>, key: Bytes, e: Entry, touches: seq<Touch>)
    requires Covered(es, key, touches)
    ensures Covered([e] + Without(es, e.key), key, touches + [Touch(e.key, PayloadOf(e))])
  {
    var t := Touch(e.key, PayloadOf(e));
    var rest := Without(es, e.key);
    assert ([e] + rest)[1..] == rest && e in [e] + rest;
    RecentAppend(touches, t);
    WithinDrop(Footprint(UpTo(es, key)), Recent(touches), e.key);
    if e.key == key {
      assert Footprint([e]) == [t] + [];
      WithinCons(t, [], Drop(Recent(touches), t.key));
    } else {
      WithoutKeys(es, e.key);
      assert forall x <- rest :: x in [e] + rest;
      UpToWithout(es, key, e.key);
      FootprintFacts(UpTo(es, key), e.key);
      assert UpTo([e] + rest, key) == [e] + UpTo(rest, key);
      assert ([e] + UpTo(rest, key))[1..] == UpTo(rest, key);
      WithinCons(t, Footprint(UpTo(rest, key)), Drop(Recent(touches), t.key));
    }
  }

  lemma CoveredSet(s: Shard, key: Bytes, k: Bytes, value: Bytes, expireAt: Option<int>, touches: seq<Touch>)
    requires Covered(s.entries, key, touches)
    requires Total(Recent(touches + [Touch(k, |k| + |value|)])) <= s.budget
    ensures Covered(Set(s, k, value, expireAt).entries, key, touches + [Touch(k, |k| + |value|)])
  {
    var e := Entry(k, value, expireAt);
    var written := [e] + Without(s.entries, k);
    var touches' := touches + [Touch(k, |k| + |value|)];
    CoveredFront(s.entries, key, e, touches);
    hide Within, Recent, Without;
    WithinTotal(Footprint(UpTo(written, key)), Recent(touches'));
    FootprintFacts(UpTo(written, key), key);
    UpToIsPrefix(written, key);
    TrimKeeps(written, s.budget, UpTo(written, key));
    UpToPrefix(written, key, Trim(written, s.budget));
  }

  lemma CoveredGet(s: Shard, key: Bytes, k: Bytes, now: int, touches: seq<Touch>)
    requires Covered(s.entries, key, touches)
    requires k == key && Find(s.entries, k).Some? ==> !IsExpired(Find(s.entries, k).value, now)
    ensures Covered(Get(s, k, now).0.entries, key, touches + LookupTouch(s, k, now))
  {
    hide Covered, Without;
    assert touches + [] == touches;
    var found := Find(s.entries, k);
    if found.Some? {
      CoveredFront(s.entries, key, found.value, touches);
      if k != key { CoveredWithout(s.entries, key, k, touches); }
    }
  }

  lemma {:induction false} CoveredDelAll(s: Shard, key: Bytes, keys: seq<Bytes>, touches: seq<Touch>)
    requires Covered(s.entries, key, touches) && key !in keys
    ensures Covered(DelAll(s, keys).0.entries, key, touches)
    decreases |keys|
  {
    hide Covered, Without;
    if keys != [] {
      CoveredWithout(s.entries, key, keys[0], touches);
      CoveredDelAll(Del(s, keys[0]).0, key, keys[1..], touches);
    }
  }

  /** The step deletes the key, or comes after the key's deadline. */
  predicate Removes(s: Shard, step: Step, key: Bytes) {
    || (step.action.DelKeys? && key in step.action.keys)
    || (Find(s.entries, key).Some? && IsExpired(Find(s.entries, key).value, step.now))
  }

  lemma SetStepKeepsCovered(s: Shard, step: Step, key: Bytes, touches: seq<Touch>)
    requires step.action.SetKey? && Covered(s.entries, key, touches) && !Removes(s, step, key)
    requires Total(Recent(touches + TouchOf(s, step))) <= s.budget
    ensures Covered(Apply(s, step).0.entries, key, touches + TouchOf(s, step))
  {
    hide Covered, Set, Get, Apply, TouchOf, LookupTouch, Recent, Total;
    var SetKey(k, value, _) := step.action;
    assert touches + [] == touches;
    SetOutcome(s, step);
    if Apply(s, step).1 == Done {
      CoveredSet(s, key, k, value, WrittenDeadline(step), touches);
    } else {
      CoveredGet(s, key, k, step.now, touches);
    }
  }

  lemma StepKeepsCovered(s: Shard, step: Step, key: Bytes, touches: seq<Touch>)
    requires Covered(s.entries, key, touches) && !Removes(s, step, key)
    requires Total(Recent(touches + TouchOf(s, step))) <= s.budget
    ensures Covered(Apply(s, step).0.entries, key, touches + TouchOf(s, step))
  {
    hide Covered, Without, Set, Get, DelAll, LookupTouch, Recent, Alive, WithDeadline, Find, Total;
    assert touches + [] == touches;
    match step.action
    case GetKey(k) => CoveredGet(s, key, k, step.now, touches);
    case SetKey(_, _, _) => SetStepKeepsCovered(s, step, key, touches);
    case DelKeys(keys) => CoveredDelAll(s, key, keys, touches);
    case ExpireKey(k, seconds) =>
      if seconds.Some? { CoveredDeadline(s.entries, key, k, step.now + seconds.value * TICKS_PER_SECOND, touches); }
    case TtlKey(k) => CoveredTtl(s, key, k, step.now, touches);
    case SampleStats =>
    case SweepExpired => CoveredSweep(s.entries, key, step.now, touches);
  }

  lemma CoveredDeadline(es: seq<Entry>, key: Bytes, k: Bytes, deadline: int, touches: seq<Touch>)
    requires Covered(es, key, touches)
    ensures Covered(WithDeadline(es, k, deadline), key, touches)
  {
    DeadlineKeeps(es, k, deadline);
    UpToDeadline(es, key, k, deadline);
  }

  lemma CoveredTtl(s: Shard, key: Bytes, k: Bytes, now: int, touches: seq<Touch>)
    requires Covered(s.entries, key, touches)
    requires k == key && Find(s.entries, k).Some? ==> !IsExpired(Find(s.entries, k).value, now)
    ensures Covered(Ttl(s, k, now, now).0.entries, key, touches)
  {
    hide Covered, Without;
    if k != key { CoveredWithout(s.entries, key, k, touches); }
  }

  lemma CoveredSweep(es: seq<Entry>, key: Bytes, now: int, touches: seq<Touch>)
    requires Covered(es, key, touches)
    requires Find(es, key).Some? ==> !IsExpired(Find(es, key).value, now)
    ensures Covered(Alive(es, now), key, touches)
  {
    assert Find(es, key).value in Alive(es, now);
    UpToAlive(es, key, now);
    FootprintAlive(UpTo(es, key), now, Recent(touches));
  }

  /** Along the run the key is never deleted nor past its deadline, and the distinct keys touched since
      the window opened never weigh more than the budget. */
  ghost predicate StaysInBudget(s: Shard, steps: seq<Step>, key: Bytes, touches: seq<Touch>)
    decreases |steps|
  {
    steps != [] ==>
      var touches' := touches + TouchOf(s, steps[0]);
      && !Removes(s, steps[0], key)
      && Total(Recent(touches')) <= s.budget
      && StaysInBudget(Apply(s, steps[0]).0, steps[1..], key, touches')
  }

  lemma {:induction false} RunKeepsCovered(s: Shard, steps: seq<Step>, key: Bytes, touches: seq<Touch>)
    requires WellFormed(s) && Covered(s.entries, key, touches) && StaysInBudget(s, steps, key, touches)
    ensures key in Keys(Run(s, steps).0.entries)
    decreases |steps|
  {
    if steps != [] {
      hide Apply, TouchOf, Recent, Total, Removes, Covered;
      StepKeepsCovered(s, steps[0], key, touches);
      StepProgress(s, steps[0]);
      RunKeepsCovered(Apply(s, steps[0]).0, steps[1..], key, touches + TouchOf(s, steps[0]));
    }
  }

  /** A touched key is in front afterwards, unless it alone exceeds the budget. */
  lemma TouchedIsInFront(s: Shard, step: Step, key: Bytes)
    requires TouchOf(s, step) != [] && TouchOf(s, step)[0].key == key && TouchOf(s, step)[0].bytes <= s.budget
    ensures var es := Apply(s, step).0.entries;
            es != [] && TouchOf(s, step) == [Touch(es[0].key, PayloadOf(es[0]))]
  {
    if step.action.SetKey? {
      var SetKey(k, value, _) := step.action;
      SetOutcome(s, step);
      OversizedSetEmpties(s, k, value, WrittenDeadline(step));
      hide Apply, Without;
    }
  }

  /** A run that opens by touching the key and then keeps it within the budget. */
  ghost predicate FitsWorkingSet(s: Shard, touch: Step, steps: seq<Step>, key: Bytes) {
    && TouchOf(s, touch) != [] && TouchOf(s, touch)[0].key == key && TouchOf(s, touch)[0].bytes <= s.budget
    && StaysInBudget(Apply(s, touch).0, steps, key, TouchOf(s, touch))
  }

  /** The working-set guarantee: from the moment a key is touched it stays resident, as long as it is
      neither deleted nor expired and its payload together with the last payloads of the distinct keys
      touched since never exceeds the budget. */
  lemma WorkingSetResident(s: Shard, touch: Step, steps: seq<Step>, key: Bytes)
    ensures WellFormed(s) && FitsWorkingSet(s, touch, steps, key) ==> key in Keys(Run(s, [touch] + steps).0.entries)
  {
    hide TouchOf, Apply, WellFormed, StaysInBudget, Covered, Keys;
    if WellFormed(s) && FitsWorkingSet(s, touch, steps, key) {
      var s' := Apply(s, touch).0;
      assert ([touch] + steps)[1..] == steps;
      TouchedIsInFront(s, touch, key);
      StepProgress(s, touch);
      FrontIsCovered(s'.entries);
      RunKeepsCovered(s', steps, key, TouchOf(s, touch));
    }
  }

  lemma FrontIsCovered(es: seq<Entry>)
    requires es != []
    ensures Covered(es, es[0].key, [Touch(es[0].key, PayloadOf(es[0]))])
  {
  }
}
