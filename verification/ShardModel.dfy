/** One cache shard as a value: its entries from most to least recently used, and its counters.
    This is the specification the pointer-linked class is proved against. */
module ShardModel {
  import opened Basics

  datatype Entry = Entry(key: Bytes, value: Bytes, expireAt: Option<int>)

  datatype Shard = Shard(entries: seq<Entry>, budget: nat, evictions: nat, expired: nat)

  datatype Stats = Stats(usedBytes: nat, keyCount: nat, evictions: nat, expired: nat, maxMemoryBytes: nat)

  /** Clock readings are in nanoseconds, as on a steady clock. */
  const TICKS_PER_SECOND: int := 1_000_000_000

  // ---------------------------------------------------------------------------------------------
  // Recency lists
  // ---------------------------------------------------------------------------------------------

  function PayloadOf(e: Entry): nat {
    |e.key| + |e.value|
  }

  function Payload(es: seq<Entry>): nat {
    if es == [] then 0 else PayloadOf(es[0]) + Payload(es[1..])
  }

  function Keys(es: seq<Entry>): set<Bytes> {
    set e <- es :: e.key
  }

  /** No key occurs twice. */
  predicate Distinct(es: seq<Entry>) {
    es != [] ==> es[0].key !in Keys(es[1..]) && Distinct(es[1..])
  }

  function Find(es: seq<Entry>, key: Bytes): (r: Option<Entry>)
    ensures r.Some? ==> r.value in es && r.value.key == key
    ensures r.Some? <==> key in Keys(es)
  {
    if es == [] then None else if es[0].key == key then Some(es[0]) else Find(es[1..], key)
  }

  function Without(es: seq<Entry>, key: Bytes): (r: seq<Entry>)
    ensures |r| <= |es|
    ensures forall e :: e in r <==> e in es && e.key != key
  {
    if es == [] then []
    else if es[0].key == key then Without(es[1..], key)
    else [es[0]] + Without(es[1..], key)
  }

  predicate IsExpired(e: Entry, now: int) {
    e.expireAt.Some? && now >= e.expireAt.value
  }

  /** The entries that have not expired, in the same order. */
  function Alive(es: seq<Entry>, now: int): (r: seq<Entry>)
    ensures |r| <= |es|
    ensures forall e :: e in r <==> e in es && !IsExpired(e, now)
  {
    if es == [] then []
    else if IsExpired(es[0], now) then Alive(es[1..], now)
    else [es[0]] + Alive(es[1..], now)
  }

  /** The entries whose key is not in `gone`, in the same order. */
  function Remove(es: seq<Entry>, gone: set<Bytes>): (r: seq<Entry>)
    ensures forall e :: e in r <==> e in es && e.key !in gone
  {
    if es == [] then [] else if es[0].key in gone then Remove(es[1..], gone) else [es[0]] + Remove(es[1..], gone)
  }

  /** Drops entries from the least recently used end until the payload fits. */
  function Trim(es: seq<Entry>, budget: nat): (r: seq<Entry>)
    ensures r <= es
  {
    if Payload(es) <= budget then es else Trim(es[..|es| - 1], budget)
  }

  // ---------------------------------------------------------------------------------------------
  // Operations
  // ---------------------------------------------------------------------------------------------

  predicate WellFormed(s: Shard) {
    Distinct(s.entries) && Payload(s.entries) <= s.budget
  }

  function Empty(budget: nat): (s: Shard)
    ensures WellFormed(s) && s.entries == [] && s.budget == budget
  {
    Shard([], budget, 0, 0)
  }

  /** Removes an entry found expired. */
  function DropExpired(s: Shard, key: Bytes): Shard {
    s.(entries := Without(s.entries, key), expired := s.expired + 1)
  }

  function Get(s: Shard, key: Bytes, now: int): (Shard, Option<Bytes>) {
    match Find(s.entries, key)
    case None => (s, None)
    case Some(e) =>
      if IsExpired(e, now) then (DropExpired(s, key), None)
      else (s.(entries := [e] + Without(s.entries, key)), Some(e.value))
  }

  function Set(s: Shard, key: Bytes, value: Bytes, expireAt: Option<int>): Shard {
    var written := [Entry(key, value, expireAt)] + Without(s.entries, key);
    var kept := Trim(written, s.budget);
    s.(entries := kept, evictions := s.evictions + |written| - |kept|)
  }

  function Del(s: Shard, key: Bytes): (Shard, bool) {
    (s.(entries := Without(s.entries, key)), key in Keys(s.entries))
  }

  function WithDeadline(es: seq<Entry>, key: Bytes, deadline: int): seq<Entry> {
    if es == [] then []
    else if es[0].key == key then [es[0].(expireAt := Some(deadline))] + WithDeadline(es[1..], key, deadline)
    else [es[0]] + WithDeadline(es[1..], key, deadline)
  }

  function Expire(s: Shard, key: Bytes, deadline: int): (Shard, bool) {
    (s.(entries := WithDeadline(s.entries, key, deadline)), key in Keys(s.entries))
  }

  /** Whole seconds left, truncated toward zero and never negative. */
  function SecondsLeft(deadline: int, now: int): nat {
    if deadline > now then (deadline - now) / TICKS_PER_SECOND else 0
  }

  /** The clock is read twice: `now` for the expiry test and `later` for the time left. */
  function Ttl(s: Shard, key: Bytes, now: int, later: int): (Shard, int) {
    match Find(s.entries, key)
    case None => (s, -2)
    case Some(e) =>
      if IsExpired(e, now) then (DropExpired(s, key), -2)
      else (s, if e.expireAt.Some? then SecondsLeft(e.expireAt.value, later) else -1)
  }

  function Sweep(s: Shard, now: int): Shard {
    var alive := Alive(s.entries, now);
    s.(entries := alive, expired := s.expired + |s.entries| - |alive|)
  }

  function Deadline(expireSeconds: Option<nat>, now: int): Option<int> {
    if expireSeconds.Some? then Some(now + expireSeconds.value * TICKS_PER_SECOND) else None
  }

  function Earlier(a: Option<int>, b: Option<int>): Option<int> {
    if a.None? || (b.Some? && b.value < a.value) then b else a
  }

  /** The earliest deadline of any entry. */
  function NextDeadline(es: seq<Entry>): (r: Option<int>)
    ensures r.None? ==> forall e <- es :: e.expireAt.None?
    ensures r.Some? ==> exists e <- es :: e.expireAt == r
    ensures r.Some? ==> forall e <- es :: e.expireAt.Some? ==> r.value <= e.expireAt.value
  {
    if es == [] then None else Earlier(es[0].expireAt, NextDeadline(es[1..]))
  }

  function StatsOf(s: Shard): Stats {
    Stats(Payload(s.entries), |s.entries|, s.evictions, s.expired, s.budget)
  }

  // ---------------------------------------------------------------------------------------------
  // List facts
  // ---------------------------------------------------------------------------------------------

  lemma PayloadPrefix(a: seq<Entry>, b: seq<Entry>)
    requires a <= b
    ensures Payload(a) <= Payload(b)
  {
  }

  lemma {:induction false} WithoutAbsent(es: seq<Entry>, key: Bytes)
    requires key !in Keys(es)
    ensures Without(es, key) == es
  {
    if es != [] {
      assert es[0] in es;
      assert forall e :: e in es[1..] ==> e in es;
      WithoutAbsent(es[1..], key);
    }
  }

  /** Removing a key of a duplicate-free list removes one entry and its payload. */
  lemma {:induction false} WithoutPresent(es: seq<Entry>, key: Bytes)
    requires Distinct(es) && key in Keys(es)
    ensures |Without(es, key)| == |es| - 1
    ensures Payload(Without(es, key)) == Payload(es) - PayloadOf(Find(es, key).value)
  {
    if es[0].key == key {
      WithoutAbsent(es[1..], key);
    } else {
      WithoutPresent(es[1..], key);
    }
  }

  lemma WithoutKeys(es: seq<Entry>, key: Bytes)
    ensures Keys(Without(es, key)) == Keys(es) - {key}
  {
  }

  lemma WithoutPayload(es: seq<Entry>, key: Bytes)
    requires Distinct(es)
    ensures Payload(Without(es, key)) <= Payload(es)
  {
  }

  lemma {:induction false} DeadlineAbsent(es: seq<Entry>, key: Bytes, deadline: int)
    requires key !in Keys(es)
    ensures WithDeadline(es, key, deadline) == es
  {
    if es != [] {
      assert es[0] in es;
      DeadlineAbsent(es[1..], key, deadline);
    }
  }

  lemma {:induction false} DeadlinePresent(before: seq<Entry>, e: Entry, after: seq<Entry>, deadline: int)
    requires e.key !in Keys(before) && e.key !in Keys(after)
    ensures WithDeadline(before + [e] + after, e.key, deadline) == before + [e.(expireAt := Some(deadline))] + after
  {
    if before == [] {
      DeadlineAbsent(after, e.key, deadline);
      assert ([] + [e] + after)[1..] == after;
    } else {
      assert before[0] in before;
      assert (before + [e] + after)[1..] == before[1..] + [e] + after;
      DeadlinePresent(before[1..], e, after, deadline);
    }
  }

  /** A live entry keeps its place: behind as many as are alive in front of it. */
  lemma {:induction false} AliveOrder(es: seq<Entry>, now: int, i: nat)
    requires i < |es| && !IsExpired(es[i], now)
    ensures var front := Alive(es[..i], now);
            |front| < |Alive(es, now)| && Alive(es, now)[|front|] == es[i]
  {
    hide Alive;
    AliveEmpty(now);
    var e, rest := es[0], es[1..];
    assert es == [e] + rest;
    AliveCons(e, rest, now);
    if i > 0 {
      AliveOrder(rest, now, i - 1);
      AliveCons(e, rest[..i - 1], now);
      assert es[..i] == [e] + rest[..i - 1];
    }
  }

  lemma AliveEmpty(now: int)
    ensures Alive([], now) == []
  {
  }

  lemma AliveCons(e: Entry, es: seq<Entry>, now: int)
    ensures Alive([e] + es, now) == (if IsExpired(e, now) then [] else [e]) + Alive(es, now)
  {
    assert ([e] + es)[1..] == es;
  }

  lemma {:induction false} AllAlive(es: seq<Entry>, now: int)
    requires forall e <- es :: !IsExpired(e, now)
    ensures Alive(es, now) == es
  {
    if es != [] {
      assert es[0] in es;
      AllAlive(es[1..], now);
    }
  }

  /** Removing an expired entry changes nothing among the living. */
  lemma {:induction false} AliveWithout(es: seq<Entry>, key: Bytes, now: int)
    requires Distinct(es) && Find(es, key).Some? && IsExpired(Find(es, key).value, now)
    ensures Alive(Without(es, key), now) == Alive(es, now)
    ensures |Without(es, key)| == |es| - 1
  {
    if es[0].key == key {
      WithoutAbsent(es[1..], key);
    } else {
      AliveWithout(es[1..], key, now);
    }
  }

  lemma {:induction false} WithoutDistinct(es: seq<Entry>, key: Bytes)
    requires Distinct(es)
    ensures Distinct(Without(es, key))
  {
    if es != [] {
      WithoutDistinct(es[1..], key);
      WithoutKeys(es[1..], key);
    }
  }

  lemma {:induction false} DistinctPrefix(a: seq<Entry>, b: seq<Entry>)
    requires a <= b && Distinct(b)
    ensures Distinct(a)
  {
    if a != [] {
      assert a[1..] <= b[1..];
      DistinctPrefix(a[1..], b[1..]);
      assert forall e <- a[1..] :: e in b[1..];
    }
  }

  lemma {:induction false} RemoveNothing(es: seq<Entry>)
    ensures Remove(es, {}) == es
  {
    if es != [] { RemoveNothing(es[1..]); }
  }

  lemma {:induction false} RemoveBoth(es: seq<Entry>, key: Bytes, gone: set<Bytes>)
    ensures Remove(Without(es, key), gone) == Remove(es, {key} + gone)
  {
    if es != [] {
      RemoveBoth(es[1..], key, gone);
      if es[0].key != key { assert Without(es, key)[1..] == Without(es[1..], key); }
    }
  }
}
