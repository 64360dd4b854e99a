/** What each command on a key answers and does, said of the entries that are listed and of the plain numbers
    of the program, without its own functions. */
module Answers {
  import opened Basics
  import opened ShardModel
  import opened ShardSteps
  import opened ShardRuns
  import opened SweptCopies

  /** An entry is live until its deadline. */
  predicate Lives(e: Entry, now: int) {
    e.expireAt.None? || now < e.expireAt.value
  }

  /** The key is listed with this value and this deadline. */
  predicate Holds(s: Shard, key: Bytes, value: Bytes, deadline: Option<int>) {
    Entry(key, value, deadline) in s.entries
  }

  ghost predicate HasLive(s: Shard, key: Bytes, now: int) {
    exists e <- s.entries :: e.key == key && Lives(e, now)
  }

  /** Seconds are 1,000,000,000 clock ticks. */
  function After(seconds: nat, now: int): int {
    now + seconds * 1_000_000_000
  }

  /** No entry is added or changed, and no entry of another key is lost, nor one that lives. */
  ghost predicate NothingWritten(s: Shard, s': Shard, key: Bytes, now: int) {
    && (forall e <- s'.entries :: e in s.entries)
    && (forall e <- s.entries :: e.key != key || Lives(e, now) ==> e in s'.entries)
  }

  /** In a list without duplicates, Find is the listed entry of the key. */
  lemma FindIsEntry(s: Shard, key: Bytes, now: int)
    requires WellFormed(s)
    ensures forall e <- s.entries :: e.key == key ==> Find(s.entries, key) == Some(e)
    ensures HasLive(s, key, now) <==> Find(s.entries, key).Some? && !IsExpired(Find(s.entries, key).value, now)
  {
    forall e <- s.entries | e.key == key ensures Find(s.entries, key) == Some(e) { FindDistinct(s.entries, e); }
  }

  // ---------------------------------------------------------------------------------------------
  // GET
  // ---------------------------------------------------------------------------------------------

  /** GET finds the value of the live entry of its key, and nothing otherwise; it writes nothing. */
  lemma GetAnswer(s: Shard, key: Bytes, now: int, later: int)
    requires WellFormed(s)
    ensures var (s', reply) := Apply(s, Step(GetKey(key), now, later));
            && (forall v :: reply == Value(Some(v)) <==>
                  exists e <- s.entries :: e.key == key && e.value == v && Lives(e, now))
            && (reply == Value(None) <==> !HasLive(s, key, now))
            && NothingWritten(s, s', key, now)
  {
    hide Get, Without, WellFormed, Find;
    FindIsEntry(s, key, now);
    GetEntries(s, key, now);
  }

  // ---------------------------------------------------------------------------------------------
  // SET
  // ---------------------------------------------------------------------------------------------

  /** The deadline a SET asks for. */
  function Asked(mode: SetMode, now: int): Option<int> {
    if mode.ForSeconds? then Some(After(mode.seconds, now)) else None
  }

  /** When a SET writes: always without an option or with EX, with NX only if no live entry has the key,
      with XX only if one has; any other option or count is refused. */
  lemma SetAnswer(s: Shard, key: Bytes, value: Bytes, mode: SetMode, now: int, later: int)
    requires WellFormed(s)
    ensures var (s', reply) := Apply(s, Step(SetKey(key, value, mode), now, later));
            && (mode.Plain? || mode.ForSeconds? ==> reply == Done)
            && (mode.IfAbsent? ==> reply == if HasLive(s, key, now) then NotSet else Done)
            && (mode.IfPresent? ==> reply == if HasLive(s, key, now) then Done else NotSet)
            && (mode.UnknownOption? || mode.NotANumber? ==> reply == Refused && s' == s)
            && (reply != Done ==> NothingWritten(s, s', key, now))
            && (reply == Done && |key| + |value| <= s.budget ==> Holds(s', key, value, Asked(mode, now)))
            && (reply == Done ==>
                  forall e <- s'.entries :: e in s.entries || e == Entry(key, value, Asked(mode, now)))
            && (reply == Done ==> forall e <- s'.entries :: e.key == key ==> e == Entry(key, value, Asked(mode, now)))
  {
    hide Get, Set, Without, WellFormed, Find;
    FindIsEntry(s, key, now);
    GetEntries(s, key, now);
    var looked := Get(s, key, now).0;
    WrittenInFront(s, key, value, Deadline(Some(if mode.ForSeconds? then mode.seconds else 0), now));
    WrittenInFront(s, key, value, None);
    WrittenInFront(looked, key, value, None);
  }

  /** A write puts its entry in front, unless it alone exceeds the budget, and adds no other. */
  lemma WrittenInFront(s: Shard, key: Bytes, value: Bytes, deadline: Option<int>)
    ensures var s' := Set(s, key, value, deadline);
            && (|key| + |value| <= s.budget ==> s'.entries != [] && s'.entries[0] == Entry(key, value, deadline))
            && s'.budget == s.budget
            && forall e <- s'.entries :: e == Entry(key, value, deadline) || (e in s.entries && e.key != key)
  {
    var written := [Entry(key, value, deadline)] + Without(s.entries, key);
    OversizedSetEmpties(s, key, value, deadline);
    hide Without;
    assert forall e <- Trim(written, s.budget) :: e in written;
  }

  // ---------------------------------------------------------------------------------------------
  // DEL
  // ---------------------------------------------------------------------------------------------

  /** A batch of DEL answers how many of the distinct keys are listed, live or not; none of these stays, and
      no other entry is lost or changed. */
  lemma DelAnswer(s: Shard, keys: seq<Bytes>, now: int, later: int)
    requires WellFormed(s)
    ensures var (s', reply) := Apply(s, Step(DelKeys(keys), now, later));
            && reply == Number(|set e <- s.entries | e.key in keys :: e.key|)
            && forall e :: e in s'.entries <==> e in s.entries && e.key !in keys
  {
    DelAllExact(s, keys);
    hide DelAll, WellFormed;
    assert (set e <- s.entries | e.key in keys :: e.key) == KeySet(keys) * Keys(s.entries);
  }

  // ---------------------------------------------------------------------------------------------
  // EXPIRE and TTL
  // ---------------------------------------------------------------------------------------------

  /** EXPIRE answers 1 if the key is listed, live or not, and 0 otherwise; it moves that one deadline and
      nothing else. A count that is no number is refused. */
  lemma ExpireAnswer(s: Shard, key: Bytes, seconds: Option<nat>, now: int, later: int)
    requires WellFormed(s)
    ensures var (s', reply) := Apply(s, Step(ExpireKey(key, seconds), now, later));
            && (seconds.None? ==> reply == Refused && s' == s)
            && (seconds.Some? ==>
                  && reply == Number(if exists e <- s.entries :: e.key == key then 1 else 0)
                  && |s'.entries| == |s.entries|
                  && forall i :: 0 <= i < |s.entries| ==>
                       s'.entries[i] == if s.entries[i].key == key
                                        then Entry(key, s.entries[i].value, Some(After(seconds.value, now)))
                                        else s.entries[i])
  {
    if seconds.Some? {
      DeadlineAt(s.entries, key, After(seconds.value, now));
    }
  }

  lemma {:induction false} DeadlineAt(es: seq<Entry>, key: Bytes, deadline: int)
    ensures |WithDeadline(es, key, deadline)| == |es|
    ensures forall i :: 0 <= i < |es| ==>
              WithDeadline(es, key, deadline)[i]
              == if es[i].key == key then Entry(key, es[i].value, Some(deadline)) else es[i]
  {
    if es != [] { DeadlineAt(es[1..], key, deadline); }
  }

  /** TTL answers -2 if no live entry has the key, -1 if it has no deadline, else the whole seconds left at
      the second clock reading, never below 0; it writes nothing. */
  lemma TtlAnswer(s: Shard, key: Bytes, now: int, later: int)
    requires WellFormed(s)
    ensures var (s', reply) := Apply(s, Step(TtlKey(key), now, later));
            && reply.Number? && (reply.n == -2 <==> !HasLive(s, key, now))
            && (forall e <- s.entries :: e.key == key && Lives(e, now) ==>
                  && (reply.n == -1 <==> e.expireAt.None?)
                  && (e.expireAt.Some? && e.expireAt.value <= later ==> reply.n == 0)
                  && (e.expireAt.Some? && e.expireAt.value > later ==>
                        && 0 <= reply.n
                        && reply.n * 1_000_000_000 <= e.expireAt.value - later < (reply.n + 1) * 1_000_000_000))
            && NothingWritten(s, s', key, now)
  {
    hide Ttl, Without, WellFormed, Find;
    FindIsEntry(s, key, now);
    TtlEntries(s, key, now, later);
  }

  // ---------------------------------------------------------------------------------------------
  // The statistics
  // ---------------------------------------------------------------------------------------------

  /** A list has as many keys as entries. */
  lemma {:induction false} KeyCount(es: seq<Entry>)
    requires Distinct(es)
    ensures |Keys(es)| == |es|
  {
    if es == [] {
      assert Keys(es) == {};
    } else {
      KeyCount(es[1..]);
      assert es == [es[0]] + es[1..];
      assert Keys(es) == {es[0].key} + Keys(es[1..]);
    }
  }

  /** The lengths of all keys and values. */
  function Lengths(es: seq<Entry>): nat {
    if es == [] then 0 else Lengths(es[..|es| - 1]) + |es[|es| - 1].key| + |es[|es| - 1].value|
  }

  lemma {:induction false} PayloadIsLengths(es: seq<Entry>)
    ensures Payload(es) == Lengths(es)
  {
    if es != [] {
      var init, last := es[..|es| - 1], es[|es| - 1];
      PayloadIsLengths(init);
      PayloadSnoc(init, last);
      assert es == init + [last];
    }
  }

  lemma {:induction false} PayloadSnoc(es: seq<Entry>, e: Entry)
    ensures Payload(es + [e]) == Payload(es) + |e.key| + |e.value|
  {
    if es == [] {
      assert [] + [e] == [e] && [e][1..] == [];
    } else {
      assert (es + [e])[1..] == es[1..] + [e];
      PayloadSnoc(es[1..], e);
    }
  }

  /** What a sample says of its shard. */
  lemma SampleSays(s: Shard, now: int, later: int)
    requires WellFormed(s)
    ensures var (s', reply) := Apply(s, Step(SampleStats, now, later));
            && s' == s && reply.Sample?
            && reply.stats.usedBytes == Lengths(s.entries) && reply.stats.keyCount == |Keys(s.entries)|
            && reply.stats.maxMemoryBytes == s.budget
  {
    KeyCount(s.entries);
    PayloadIsLengths(s.entries);
  }

  /** What a step takes away because it has expired. */
  ghost function ExpiredBy(s: Shard, step: Step): nat {
    match step.action
    case SweepExpired => |Lost(s.entries, step.now)|
    case GetKey(key) => Lapses(s, key, step.now)
    case TtlKey(key) => Lapses(s, key, step.now)
    case SetKey(key, _, mode) => if mode.IfAbsent? || mode.IfPresent? then Lapses(s, key, step.now) else 0
    case _ => 0
  }

  /** The keys listed past their deadline. */
  function Lost(es: seq<Entry>, now: int): set<Bytes> {
    set e <- es | !Lives(e, now) :: e.key
  }

  /** One if the key is listed past its deadline. */
  ghost function Lapses(s: Shard, key: Bytes, now: int): nat {
    if exists e <- s.entries :: e.key == key && !Lives(e, now) then 1 else 0
  }

  /** What a step takes away to make room: a SET that writes keeps fewer keys than there were with its own. */
  ghost function EvictedBy(s: Shard, step: Step): int {
    if step.action.SetKey? && Apply(s, step).1 == Done then
      |Keys(s.entries) + {step.action.key}| - |Keys(Apply(s, step).0.entries)|
    else 0
  }

  /** Between two samples evictions grow by what the step evicted and expired by what it found expired. */
  lemma CountersMove(s: Shard, step: Step, at: int)
    requires WellFormed(s)
    ensures var before := Apply(s, Step(SampleStats, at, at)).1;
            var after := Apply(Apply(s, step).0, Step(SampleStats, at, at)).1;
            && before.Sample? && after.Sample?
            && after.stats.evictions == before.stats.evictions + EvictedBy(s, step)
            && after.stats.expired == before.stats.expired + ExpiredBy(s, step)
  {
    hide Get, Set, Ttl, Without, WellFormed, DelAll, Keys, Lapses;
    match step.action
    case GetKey(key) => GetCounts(s, key, step.now);
    case TtlKey(key) => TtlCounts(s, key, step.now, step.later);
    case SetKey(_, _, _) => SetCounts(s, step);
    case SweepExpired => SweepCounts(s, step.now);
    case DelKeys(keys) => DelAllExact(s, keys);
    case ExpireKey(_, _) =>
    case SampleStats =>
  }

  lemma GetCounts(s: Shard, key: Bytes, now: int)
    requires WellFormed(s)
    ensures var s' := Get(s, key, now).0;
            s'.evictions == s.evictions && s'.expired == s.expired + Lapses(s, key, now)
  {
    FindIsEntry(s, key, now);
  }

  lemma TtlCounts(s: Shard, key: Bytes, now: int, later: int)
    requires WellFormed(s)
    ensures var s' := Ttl(s, key, now, later).0;
            s'.evictions == s.evictions && s'.expired == s.expired + Lapses(s, key, now)
  {
    FindIsEntry(s, key, now);
  }

  lemma WriteCounts(s: Shard, key: Bytes, value: Bytes, deadline: Option<int>)
    requires WellFormed(s)
    ensures var s' := Set(s, key, value, deadline);
            && s'.evictions == s.evictions + |Keys(s.entries) + {key}| - |Keys(s'.entries)|
            && s'.expired == s.expired
  {
    var rest := Without(s.entries, key);
    SetProgress(s, key, value, deadline);
    WithoutDistinct(s.entries, key);
    hide Without, Trim, Payload, Distinct, Keys;
    WithoutKeys(s.entries, key);
    KeyCount(Set(s, key, value, deadline).entries);
    KeyCount(rest);
    SplitCount(Keys(s.entries) + {key}, Keys(rest), {key});
  }

  lemma SplitCount(all: set<Bytes>, a: set<Bytes>, b: set<Bytes>)
    requires all == a + b && a !! b
    ensures |all| == |a| + |b|
  {
  }

  lemma SetCounts(s: Shard, step: Step)
    requires WellFormed(s) && step.action.SetKey?
    ensures var s' := Apply(s, step).0;
            s'.evictions == s.evictions + EvictedBy(s, step) && s'.expired == s.expired + ExpiredBy(s, step)
  {
    hide Get, Set, WellFormed, Keys, Lapses;
    var SetKey(key, value, mode) := step.action;
    var looked := Get(s, key, step.now).0;
    GetCounts(s, key, step.now);
    GetProgress(s, key, step.now);
    ProgressIsWellFormed(s, looked);
    WriteCounts(s, key, value, None);
    WriteCounts(s, key, value, if mode.ForSeconds? then Deadline(Some(mode.seconds), step.now) else None);
    WriteCounts(looked, key, value, None);
    KeysWith(s, key, step.now);
  }

  lemma KeysWith(s: Shard, key: Bytes, now: int)
    ensures Keys(Get(s, key, now).0.entries) + {key} == Keys(s.entries) + {key}
  {
    hide Get;
    GetEntries(s, key, now);
    WithoutKeys(s.entries, key);
    var found := Find(s.entries, key);
    if found.Some? { assert Keys([found.value] + Without(s.entries, key)) == {key} + Keys(Without(s.entries, key)); }
  }

  lemma SweepCounts(s: Shard, now: int)
    requires WellFormed(s)
    ensures var s' := Sweep(s, now);
            s'.evictions == s.evictions && s'.expired == s.expired + |Lost(s.entries, now)|
  {
    AliveKeeps(s.entries, now);
    hide *;
    WellFormedIsDistinct(s);
    KeyCount(s.entries);
    KeyCount(Alive(s.entries, now));
    KeysAfterSweep(s.entries, now);
    LostAreExpired(s.entries, now);
    RestCount(Keys(s.entries), Lost(s.entries, now));
    SweepParts(s, now);
  }

  lemma RestCount(all: set<Bytes>, part: set<Bytes>)
    requires part <= all
    ensures |all - part| == |all| - |part|
  {
  }

  lemma WellFormedIsDistinct(s: Shard)
    requires WellFormed(s)
    ensures Distinct(s.entries)
  {
  }

  lemma LostAreExpired(es: seq<Entry>, now: int)
    ensures Lost(es, now) == ExpiredKeys(es, now) <= Keys(es)
  {
  }

  lemma SweepParts(s: Shard, now: int)
    ensures Sweep(s, now).evictions == s.evictions
    ensures Sweep(s, now).expired == s.expired + |s.entries| - |Alive(s.entries, now)|
  {
  }
}
