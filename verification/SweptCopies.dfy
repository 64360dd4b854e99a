/** A shard and its swept copy: what lookups and SETs make of both, and exactly when a SET tells them
    apart. */
module SweptCopies {
  import opened Basics
  import opened ShardModel
  import opened ShardSteps
  import opened ShardRuns

  // ---------------------------------------------------------------------------------------------
  // List facts
  // ---------------------------------------------------------------------------------------------

  lemma {:induction false} FindAppend(a: seq<Entry>, b: seq<Entry>, key: Bytes)
    ensures Find(a + b, key) == if key in Keys(a) then Find(a, key) else Find(b, key)
  {
    if a == [] {
      assert a + b == b;
    } else {
      FindAppend(a[1..], b, key);
      assert (a + b)[1..] == a[1..] + b;
    }
  }

  lemma RemoveCons(e: Entry, es: seq<Entry>, gone: set<Bytes>)
    ensures Remove([e] + es, gone) == (if e.key in gone then [] else [e]) + Remove(es, gone)
  {
    assert ([e] + es)[1..] == es;
  }

  lemma {:induction false} RemoveAppend(a: seq<Entry>, b: seq<Entry>, gone: set<Bytes>)
    ensures Remove(a + b, gone) == Remove(a, gone) + Remove(b, gone)
  {
    hide Remove;
    if a == [] {
      assert a + b == b;
      RemoveEmpty(gone);
    } else {
      var head := if a[0].key in gone then [] else [a[0]];
      assert a + b == [a[0]] + (a[1..] + b) && a == [a[0]] + a[1..];
      RemoveCons(a[0], a[1..] + b, gone);
      RemoveCons(a[0], a[1..], gone);
      RemoveAppend(a[1..], b, gone);
      Associates(head, Remove(a[1..], gone), Remove(b, gone));
    }
  }

  lemma RemoveEmpty(gone: set<Bytes>)
    ensures Remove([], gone) == []
  {
  }

  lemma WithoutAppend(a: seq<Entry>, b: seq<Entry>, key: Bytes)
    ensures Without(a + b, key) == Without(a, key) + Without(b, key)
  {
    hide Remove, Without;
    WithoutIsRemove(a + b, key);
    WithoutIsRemove(a, key);
    WithoutIsRemove(b, key);
    RemoveAppend(a, b, {key});
  }

  lemma WithoutIsRemove(es: seq<Entry>, key: Bytes)
    ensures Without(es, key) == Remove(es, {key})
  {
    RemoveBoth(es, key, {});
    RemoveNothing(Without(es, key));
    assert {key} + {} == {key};
  }

  lemma {:induction false} AliveAppend(a: seq<Entry>, b: seq<Entry>, now: int)
    ensures Alive(a + b, now) == Alive(a, now) + Alive(b, now)
  {
    hide Alive;
    if a == [] {
      assert a + b == b;
    } else {
      var head := if IsExpired(a[0], now) then [] else [a[0]];
      assert a + b == [a[0]] + (a[1..] + b) && a == [a[0]] + a[1..];
      AliveCons(a[0], a[1..] + b, now);
      AliveCons(a[0], a[1..], now);
      AliveAppend(a[1..], b, now);
      Associates(head, Alive(a[1..], now), Alive(b, now));
    }
  }

  lemma {:induction false} RemoveFind(es: seq<Entry>, gone: set<Bytes>, key: Bytes)
    ensures Find(Remove(es, gone), key) == if key in gone then None else Find(es, key)
  {
    if es != [] {
      RemoveFind(es[1..], gone, key);
      if es[0].key !in gone { assert Remove(es, gone)[1..] == Remove(es[1..], gone); }
    }
  }

  lemma {:induction false} RemoveWithout(es: seq<Entry>, gone: set<Bytes>, key: Bytes)
    ensures Remove(Without(es, key), gone - {key}) == Without(Remove(es, gone), key)
  {
    if es != [] {
      RemoveWithout(es[1..], gone, key);
      if es[0].key != key { assert Without(es, key)[1..] == Without(es[1..], key); }
      if es[0].key !in gone { assert Remove(es, gone)[1..] == Remove(es[1..], gone); }
    }
  }

  lemma {:induction false} RemovePayload(es: seq<Entry>, gone: set<Bytes>)
    ensures Payload(Remove(es, gone)) <= Payload(es)
  {
    if es != [] { RemovePayload(es[1..], gone); }
  }

  /** The living weigh no more than what is left when some expired entries are taken away. */
  lemma {:induction false} AliveLighter(es: seq<Entry>, gone: set<Bytes>, now: int)
    requires forall e <- es :: e.key in gone ==> IsExpired(e, now)
    ensures Payload(Alive(es, now)) <= Payload(Remove(es, gone))
  {
    if es != [] {
      assert es[0] in es;
      AliveLighter(es[1..], gone, now);
    }
  }

  /** Where an entry of the reduced list comes from. */
  lemma {:induction false} RemovedAt(es: seq<Entry>, gone: set<Bytes>, i: nat) returns (j: nat)
    requires i < |Remove(es, gone)|
    ensures j < |es| && es[j] == Remove(es, gone)[i]
    ensures Remove(es[..j + 1], gone) == Remove(es, gone)[..i + 1]
  {
    hide Remove;
    RemoveEmpty(gone);
    var e, rest := es[0], es[1..];
    var head := if e.key in gone then [] else [e];
    assert es == [e] + rest;
    RemoveCons(e, rest, gone);
    if i < |head| {
      j := 0;
      RemoveCons(e, [], gone);
      assert es[..1] == [e] + [];
    } else {
      var k := RemovedAt(rest, gone, i - |head|);
      j := k + 1;
      RemoveCons(e, rest[..k + 1], gone);
      assert es[..j + 1] == [e] + rest[..k + 1];
      assert (head + Remove(rest, gone))[..i + 1] == head + Remove(rest, gone)[..i - |head| + 1];
    }
  }

  function ExpiredKeys(es: seq<Entry>, now: int): set<Bytes> {
    set e <- es | IsExpired(e, now) :: e.key
  }

  lemma {:induction false} FilterUnique(es: seq<Entry>, gone: set<Bytes>, now: int, gone': set<Bytes>)
    requires forall e <- es :: e.key in gone' <==> e.key in gone || IsExpired(e, now)
    ensures Remove(es, gone') == Alive(Remove(es, gone), now)
  {
    if es != [] {
      assert es[0] in es;
      FilterUnique(es[1..], gone, now, gone');
      if es[0].key !in gone { assert Remove(es, gone)[1..] == Remove(es[1..], gone); }
    }
  }

  /** Two entries of a duplicate-free list with the same key are the same entry. */
  lemma {:induction false} KeyDeterminesEntry(es: seq<Entry>, a: Entry, b: Entry)
    requires Distinct(es) && a in es && b in es && a.key == b.key
    ensures a == b
  {
    if a != es[0] && b != es[0] { KeyDeterminesEntry(es[1..], a, b); }
  }

  lemma {:induction false} AllExpired(es: seq<Entry>, now: int)
    requires forall e <- es :: IsExpired(e, now)
    ensures Alive(es, now) == []
  {
    if es != [] {
      assert es[0] in es;
      AllExpired(es[1..], now);
    }
  }

  // ---------------------------------------------------------------------------------------------
  // A shard and its swept copy
  // ---------------------------------------------------------------------------------------------

  /** The list `swept` is `kept` without some entries, followed by others; all of these have expired. */
  ghost predicate CopyOf(kept: seq<Entry>, swept: seq<Entry>, gone: set<Bytes>, extra: seq<Entry>, now: int) {
    && swept == Remove(kept, gone) + extra
    && (forall e <- kept :: e.key in gone ==> IsExpired(e, now))
    && (forall e <- extra :: IsExpired(e, now))
  }

  /** None of the entries taken away has its key in `spared`. */
  ghost predicate Simulates(kept: Shard, swept: Shard, spared: set<Bytes>, now: int) {
    && swept.budget == kept.budget
    && exists gone, extra :: CopyOf(kept.entries, swept.entries, gone, extra, now) && gone !! spared
  }

  /** The key is resident although its deadline has passed. */
  predicate Due(s: Shard, key: Bytes, now: int) {
    Find(s.entries, key).Some? && IsExpired(Find(s.entries, key).value, now)
  }

  /** Shard and copy have the same live entries in the same order. */
  lemma CopyAlive(kept: seq<Entry>, swept: seq<Entry>, gone: set<Bytes>, extra: seq<Entry>, now: int)
    requires CopyOf(kept, swept, gone, extra, now) && Distinct(kept)
    ensures Alive(swept, now) == Alive(kept, now)
  {
    AliveAppend(Remove(kept, gone), extra, now);
    AllExpired(extra, now);
    CopySweep(kept, gone, now);
    CopySweep(kept, {}, now);
    RemoveNothing(kept);
  }

  lemma CopySweep(kept: seq<Entry>, gone: set<Bytes>, now: int)
    requires Distinct(kept) && forall e <- kept :: e.key in gone ==> IsExpired(e, now)
    ensures Alive(Remove(kept, gone), now) == Remove(kept, ExpiredKeys(kept, now))
  {
    forall e <- kept ensures e.key in ExpiredKeys(kept, now) <==> e.key in gone || IsExpired(e, now) {
      if e.key in ExpiredKeys(kept, now) {
        var x :| x in kept && IsExpired(x, now) && x.key == e.key;
        KeyDeterminesEntry(kept, e, x);
      }
    }
    FilterUnique(kept, gone, now, ExpiredKeys(kept, now));
  }

  lemma SimulatesAlive(kept: Shard, swept: Shard, spared: set<Bytes>, now: int)
    requires WellFormed(kept) && Simulates(kept, swept, spared, now)
    ensures Alive(swept.entries, now) == Alive(kept.entries, now)
  {
    var gone, extra :| CopyOf(kept.entries, swept.entries, gone, extra, now);
    CopyAlive(kept.entries, swept.entries, gone, extra, now);
  }

  lemma SimulatesItself(s: Shard, spared: set<Bytes>, now: int)
    ensures Simulates(s, s, spared, now)
  {
    RemoveNothing(s.entries);
    assert CopyOf(s.entries, s.entries, {}, [], now);
  }

  lemma SimulatesLater(kept: Shard, swept: Shard, spared: set<Bytes>, before: int, now: int)
    requires Simulates(kept, swept, spared, before) && before <= now
    ensures Simulates(kept, swept, spared, now)
  {
    var gone, extra :| CopyOf(kept.entries, swept.entries, gone, extra, before) && gone !! spared;
    assert CopyOf(kept.entries, swept.entries, gone, extra, now);
  }

  lemma SimulatesFewer(kept: Shard, swept: Shard, spared: set<Bytes>, fewer: set<Bytes>, now: int)
    requires Simulates(kept, swept, spared, now) && fewer <= spared
    ensures Simulates(kept, swept, fewer, now)
  {
  }

  lemma {:induction false} FindDistinct(es: seq<Entry>, e: Entry)
    requires Distinct(es) && e in es
    ensures Find(es, e.key) == Some(e)
  {
    KeyDeterminesEntry(es, e, Find(es, e.key).value);
  }

  /** Sweeping a shard with the same live entries leaves a copy, from which only what is due is missing. */
  lemma SweepSimulates(kept: Shard, swept: Shard, spared: set<Bytes>, now: int)
    requires WellFormed(kept) && swept.budget == kept.budget
    requires Alive(swept.entries, now) == Alive(kept.entries, now) && forall k <- spared :: !Due(kept, k, now)
    ensures Simulates(kept, Sweep(swept, now), spared, now)
  {
    var gone := ExpiredKeys(kept.entries, now);
    CopySweep(kept.entries, {}, now);
    RemoveNothing(kept.entries);
    forall e <- kept.entries ensures e.key in gone <==> IsExpired(e, now) {
      if e.key in gone {
        var x :| x in kept.entries && IsExpired(x, now) && x.key == e.key;
        KeyDeterminesEntry(kept.entries, e, x);
      }
    }
    forall k <- spared ensures k !in gone {
      if k in gone {
        var x :| x in kept.entries && IsExpired(x, now) && x.key == k;
        FindDistinct(kept.entries, x);
      }
    }
    assert CopyOf(kept.entries, Sweep(swept, now).entries, gone, [], now);
  }

  // ---------------------------------------------------------------------------------------------
  // Lookups on both
  // ---------------------------------------------------------------------------------------------

  /** Taking a key out of both, and putting the same entry in front of both. */
  lemma CopyMoved(kept: seq<Entry>, swept: seq<Entry>, gone: set<Bytes>, extra: seq<Entry>, e: Entry, now: int)
    requires CopyOf(kept, swept, gone, extra, now)
    ensures CopyOf(Without(kept, e.key), Without(swept, e.key), gone - {e.key}, Without(extra, e.key), now)
    ensures CopyOf([e] + Without(kept, e.key), [e] + Without(swept, e.key), gone - {e.key}, Without(extra, e.key), now)
  {
    var rest := Without(kept, e.key);
    WithoutAppend(Remove(kept, gone), extra, e.key);
    RemoveWithout(kept, gone, e.key);
    RemoveAppend([e], rest, gone - {e.key});
    assert Remove([e], gone - {e.key}) == [e];
    Associates([e], Remove(rest, gone - {e.key}), Without(extra, e.key));
  }

  /** The list a lookup leaves: the key is taken out, and put in front if it was found alive. */
  lemma GetEntries(s: Shard, key: Bytes, now: int)
    ensures var (s', reply) := Get(s, key, now);
            && s'.budget == s.budget
            && (reply.None? ==> s'.entries == Without(s.entries, key))
            && (reply.Some? <==> Find(s.entries, key).Some? && !IsExpired(Find(s.entries, key).value, now))
            && (reply.Some? ==>
                  var e := Find(s.entries, key).value;
                  reply == Some(e.value) && s'.entries == [e] + Without(s.entries, key))
  {
    if Find(s.entries, key).None? { WithoutAbsent(s.entries, key); }
  }

  /** A live entry is found alike on both, and a dead one on neither. */
  lemma CopyFind(kept: seq<Entry>, swept: seq<Entry>, gone: set<Bytes>, extra: seq<Entry>, key: Bytes, now: int)
    requires CopyOf(kept, swept, gone, extra, now)
    ensures var a, b := Find(kept, key), Find(swept, key);
            && (a.Some? && !IsExpired(a.value, now) <==> b.Some? && !IsExpired(b.value, now))
            && (a.Some? && !IsExpired(a.value, now) ==> a == b)
  {
    FindAppend(Remove(kept, gone), extra, key);
    RemoveFind(kept, gone, key);
  }

  lemma GetSimulates(kept: Shard, swept: Shard, spared: set<Bytes>, key: Bytes, now: int)
    requires Simulates(kept, swept, spared, now)
    ensures Get(kept, key, now).1 == Get(swept, key, now).1
    ensures Simulates(Get(kept, key, now).0, Get(swept, key, now).0, spared, now)
  {
    var gone, extra :| CopyOf(kept.entries, swept.entries, gone, extra, now) && gone !! spared;
    hide CopyOf, Find, Without, Get;
    GetEntries(kept, key, now);
    GetEntries(swept, key, now);
    CopyFind(kept.entries, swept.entries, gone, extra, key, now);
    var found := Find(kept.entries, key);
    CopyMoved(kept.entries, swept.entries, gone, extra, if found.Some? then found.value else Entry(key, [], None), now);
  }

  /** A TTL that finds nothing alive drops the key like a lookup, and any other leaves the list alone. */
  lemma TtlEntries(s: Shard, key: Bytes, now: int, later: int)
    ensures var (s', reply) := Ttl(s, key, now, later);
            && s'.budget == s.budget
            && if Find(s.entries, key).Some? && !IsExpired(Find(s.entries, key).value, now) then
                 s' == s && reply == LiveTtl(Find(s.entries, key).value, later)
               else s'.entries == Without(s.entries, key) && reply == -2
  {
    if Find(s.entries, key).None? { WithoutAbsent(s.entries, key); }
  }

  function LiveTtl(e: Entry, later: int): int {
    if e.expireAt.Some? then SecondsLeft(e.expireAt.value, later) else -1
  }

  lemma TtlSimulates(kept: Shard, swept: Shard, spared: set<Bytes>, key: Bytes, now: int, later: int)
    requires Simulates(kept, swept, spared, now)
    ensures Ttl(kept, key, now, later).1 == Ttl(swept, key, now, later).1
    ensures Simulates(Ttl(kept, key, now, later).0, Ttl(swept, key, now, later).0, spared, now)
  {
    var gone, extra :| CopyOf(kept.entries, swept.entries, gone, extra, now) && gone !! spared;
    hide CopyOf, Find, Without, Ttl;
    TtlEntries(kept, key, now, later);
    TtlEntries(swept, key, now, later);
    CopyFind(kept.entries, swept.entries, gone, extra, key, now);
    CopyMoved(kept.entries, swept.entries, gone, extra, Entry(key, [], None), now);
  }

  // ---------------------------------------------------------------------------------------------
  // SET on both
  // ---------------------------------------------------------------------------------------------

  /** Written in front of `rest`, the new entry lets every live one stay that would stay if the expired
      ones were gone: what fits behind the living also fits behind all. */
  ghost predicate Spares(e: Entry, rest: seq<Entry>, budget: nat, now: int) {
    forall j :: 0 <= j < |rest| && !IsExpired(rest[j], now)
                && PayloadOf(e) + Payload(Alive(rest[..j + 1], now)) <= budget ==>
      PayloadOf(e) + Payload(rest[..j + 1]) <= budget
  }

  /** How much of the list behind a new entry is kept. */
  lemma TrimBehind(e: Entry, rest: seq<Entry>, budget: nat) returns (n: nat)
    requires PayloadOf(e) <= budget
    ensures n <= |rest| && Trim([e] + rest, budget) == [e] + rest[..n]
    ensures forall m :: 0 <= m <= |rest| ==> (PayloadOf(e) + Payload(rest[..m]) <= budget <==> m <= n)
  {
    var written := [e] + rest;
    var kept := Trim(written, budget);
    assert forall m :: 0 <= m <= |rest| ==> written[..m + 1] == [e] + rest[..m];
    TrimFits(written, budget);
    TrimKeeps(written, budget, [e]);
    n := |kept| - 1;
    assert kept == written[..n + 1];
    hide Payload, Trim;
    forall m | 0 <= m <= |rest| ensures PayloadOf(e) + Payload(rest[..m]) <= budget <==> m <= n {
      PayloadFront(e, rest[..m]);
      if m <= n { PayloadPrefix(written[..m + 1], kept); }
    }
  }

  lemma PayloadFront(e: Entry, es: seq<Entry>)
    ensures Payload([e] + es) == PayloadOf(e) + Payload(es)
  {
    assert ([e] + es)[1..] == es;
  }

  lemma TrimOversized(e: Entry, rest: seq<Entry>, budget: nat)
    requires PayloadOf(e) > budget
    ensures Trim([e] + rest, budget) == []
  {
    TrimFits([e] + rest, budget);
  }

  /** If the SET spares the living, what it leaves on one is a copy of what it leaves on the other. */
  lemma TrimSimulates(e: Entry, rest: seq<Entry>, rest': seq<Entry>, gone: set<Bytes>, extra: seq<Entry>, budget: nat,
                      now: int)
    returns (extra': seq<Entry>)
    requires CopyOf(rest, rest', gone, extra, now) && e.key !in gone && Spares(e, rest, budget, now)
    ensures CopyOf(Trim([e] + rest, budget), Trim([e] + rest', budget), gone, extra', now)
  {
    if PayloadOf(e) > budget {
      TrimOversized(e, rest, budget);
      TrimOversized(e, rest', budget);
      extra' := [];
    } else {
      var n := TrimBehind(e, rest, budget);
      var n' := TrimBehind(e, rest', budget);
      RemoveFront(rest, gone, n);
      RemovePayload(rest[..n], gone);
      var front := Remove(rest[..n], gone);
      assert front == rest'[..|front|];
      extra' := TrimmedExtra(e, rest, rest', gone, extra, budget, now, n, n');
      RemoveCons(e, rest[..n], gone);
      Associates([e], front, extra');
      assert forall x <- [e] + rest[..n] :: x == e || x in rest;
    }
  }

  lemma TrimmedExtra(e: Entry, rest: seq<Entry>, rest': seq<Entry>, gone: set<Bytes>, extra: seq<Entry>, budget: nat,
                     now: int, n: nat, n': nat)
    returns (extra': seq<Entry>)
    requires CopyOf(rest, rest', gone, extra, now) && Spares(e, rest, budget, now)
    requires n <= |rest| && forall m :: n < m <= |rest| ==> PayloadOf(e) + Payload(rest[..m]) > budget
    requires n' <= |rest'| && PayloadOf(e) + Payload(rest'[..n']) <= budget
    requires Remove(rest[..n], gone) <= rest'[..n']
    ensures rest'[..n'] == Remove(rest[..n], gone) + extra' && forall x <- extra' :: IsExpired(x, now)
  {
    hide Remove, Alive, Payload, Spares;
    var front := Remove(rest[..n], gone);
    extra' := rest'[..n'][|front|..];
    forall i | |front| <= i < n' ensures IsExpired(rest'[i], now) {
      if i < |Remove(rest, gone)| {
        assert rest'[..i + 1] == Remove(rest, gone)[..i + 1];
        PayloadPrefix(rest'[..i + 1], rest'[..n']);
        SparedIsFront(e, rest, gone, budget, now, n, i);
      }
    }
  }

  /** A live entry that fits behind the new one on the copy is among those kept on the original. */
  lemma SparedIsFront(e: Entry, rest: seq<Entry>, gone: set<Bytes>, budget: nat, now: int, n: nat, i: nat)
    requires Spares(e, rest, budget, now) && forall x <- rest :: x.key in gone ==> IsExpired(x, now)
    requires n <= |rest| && forall m :: n < m <= |rest| ==> PayloadOf(e) + Payload(rest[..m]) > budget
    requires i < |Remove(rest, gone)| && PayloadOf(e) + Payload(Remove(rest, gone)[..i + 1]) <= budget
    ensures IsExpired(Remove(rest, gone)[i], now) || i < |Remove(rest[..n], gone)|
  {
    hide Remove, Alive, Payload, Spares;
    var j := RemovedAt(rest, gone, i);
    if !IsExpired(rest[j], now) {
      FitsAmongAll(e, rest, gone, budget, now, j);
      assert rest[..n][..j + 1] == rest[..j + 1];
      RemoveFront(rest[..n], gone, j + 1);
    }
  }

  /** What fits behind the new entry without the entries gone, fits with them. */
  lemma FitsAmongAll(e: Entry, rest: seq<Entry>, gone: set<Bytes>, budget: nat, now: int, j: nat)
    requires Spares(e, rest, budget, now) && forall x <- rest :: x.key in gone ==> IsExpired(x, now)
    requires j < |rest| && !IsExpired(rest[j], now)
    requires PayloadOf(e) + Payload(Remove(rest[..j + 1], gone)) <= budget
    ensures PayloadOf(e) + Payload(rest[..j + 1]) <= budget
  {
    hide Remove, Alive, Payload;
    AliveLighter(rest[..j + 1], gone, now);
  }

  lemma RemoveFront(es: seq<Entry>, gone: set<Bytes>, n: nat)
    requires n <= |es|
    ensures Remove(es[..n], gone) <= Remove(es, gone)
  {
    assert es == es[..n] + es[n..];
    RemoveAppend(es[..n], es[n..], gone);
  }

  /** So does a SET that spares the living, and the key it writes is taken away from neither. */
  lemma SetSimulates(kept: Shard, swept: Shard, spared: set<Bytes>, key: Bytes, value: Bytes, expireAt: Option<int>,
                     now: int)
    requires Simulates(kept, swept, spared, now)
    requires Spares(Entry(key, value, expireAt), Without(kept.entries, key), kept.budget, now)
    ensures Simulates(Set(kept, key, value, expireAt), Set(swept, key, value, expireAt), spared + {key}, now)
  {
    var e := Entry(key, value, expireAt);
    var gone, extra :| CopyOf(kept.entries, swept.entries, gone, extra, now) && gone !! spared;
    hide CopyOf, Without, Spares;
    CopyMoved(kept.entries, swept.entries, gone, extra, e, now);
    var extra' := TrimSimulates(e, Without(kept.entries, key), Without(swept.entries, key), gone - {key},
                                Without(extra, key), kept.budget, now);
  }

  /** If a SET spares the living on a shard, it does so on every copy. */
  lemma SparesOnCopy(e: Entry, kept: Shard, swept: Shard, spared: set<Bytes>, now: int)
    requires Simulates(kept, swept, spared, now) && Spares(e, Without(kept.entries, e.key), kept.budget, now)
    ensures Spares(e, Without(swept.entries, e.key), swept.budget, now)
  {
    var gone, extra :| CopyOf(kept.entries, swept.entries, gone, extra, now);
    hide Without, Spares;
    CopyMoved(kept.entries, swept.entries, gone, extra, e, now);
    SparesOnList(e, Without(kept.entries, e.key), Without(swept.entries, e.key), gone - {e.key},
                 Without(extra, e.key), kept.budget, now);
  }

  lemma SparesOnList(e: Entry, rest: seq<Entry>, rest': seq<Entry>, gone: set<Bytes>, extra: seq<Entry>, budget: nat,
                     now: int)
    requires CopyOf(rest, rest', gone, extra, now) && Spares(e, rest, budget, now)
    ensures Spares(e, rest', budget, now)
  {
    hide Remove, Alive, Payload, Spares;
    if !Spares(e, rest', budget, now) {
      var i := Unspared(e, rest', budget, now);
      assert i < |Remove(rest, gone)|;
      assert rest'[..i + 1] == Remove(rest, gone)[..i + 1];
      FitsOnCopy(e, rest, gone, budget, now, i);
    }
  }

  /** An entry that the SET does not spare. */
  lemma Unspared(e: Entry, rest: seq<Entry>, budget: nat, now: int) returns (i: nat)
    requires !Spares(e, rest, budget, now)
    ensures i < |rest| && !IsExpired(rest[i], now)
    ensures PayloadOf(e) + Payload(Alive(rest[..i + 1], now)) <= budget < PayloadOf(e) + Payload(rest[..i + 1])
  {
    hide Payload, Alive;
    i :| 0 <= i < |rest| && !IsExpired(rest[i], now)
         && PayloadOf(e) + Payload(Alive(rest[..i + 1], now)) <= budget
         && PayloadOf(e) + Payload(rest[..i + 1]) > budget;
  }

  lemma FitsOnCopy(e: Entry, rest: seq<Entry>, gone: set<Bytes>, budget: nat, now: int, i: nat)
    requires Spares(e, rest, budget, now) && forall x <- rest :: x.key in gone ==> IsExpired(x, now)
    requires i < |Remove(rest, gone)| && !IsExpired(Remove(rest, gone)[i], now)
    requires PayloadOf(e) + Payload(Alive(Remove(rest, gone)[..i + 1], now)) <= budget
    ensures PayloadOf(e) + Payload(Remove(rest, gone)[..i + 1]) <= budget
  {
    hide Remove, Alive, Payload;
    var j := RemovedAt(rest, gone, i);
    RemovePayload(rest[..j + 1], gone);
    AliveRemove(rest[..j + 1], gone, now);
  }

  lemma {:induction false} AliveRemove(es: seq<Entry>, gone: set<Bytes>, now: int)
    requires forall e <- es :: e.key in gone ==> IsExpired(e, now)
    ensures Alive(Remove(es, gone), now) == Alive(es, now)
  {
    if es != [] {
      assert es[0] in es;
      AliveRemove(es[1..], gone, now);
      RemoveCons(es[0], es[1..], gone);
      AliveCons(es[0], Remove(es[1..], gone), now);
      assert es == [es[0]] + es[1..];
    }
  }

  /** A live entry that the SET evicts but would keep after a sweep. */
  lemma Victim(s: Shard, key: Bytes, value: Bytes, expireAt: Option<int>, now: int) returns (x: Entry)
    requires WellFormed(s) && !Spares(Entry(key, value, expireAt), Without(s.entries, key), s.budget, now)
    ensures !IsExpired(x, now) && x.key !in Keys(Set(s, key, value, expireAt).entries)
    ensures x in Set(Sweep(s, now), key, value, expireAt).entries
  {
    var e, rest := Entry(key, value, expireAt), Without(s.entries, key);
    var j := Unspared(e, rest, s.budget, now);
    x := rest[j];
    hide Without, Alive, Payload, Trim, Distinct;
    WithoutDistinct(s.entries, key);
    AliveWithoutKey(s.entries, key, now);
    Evicted(e, rest, s.budget, j);
    KeptWithoutExpired(e, rest, s.budget, now, j);
  }

  lemma Evicted(e: Entry, rest: seq<Entry>, budget: nat, j: nat)
    requires Distinct(rest) && e.key !in Keys(rest) && j < |rest|
    requires PayloadOf(e) <= budget < PayloadOf(e) + Payload(rest[..j + 1])
    ensures rest[j].key !in Keys(Trim([e] + rest, budget))
  {
    hide Trim, Payload, Distinct;
    var n := TrimBehind(e, rest, budget);
    KeyOfPrefix(rest, n, j);
    assert rest[j] in rest;
  }

  lemma KeptWithoutExpired(e: Entry, rest: seq<Entry>, budget: nat, now: int, j: nat)
    requires j < |rest| && !IsExpired(rest[j], now)
    requires PayloadOf(e) + Payload(Alive(rest[..j + 1], now)) <= budget
    ensures rest[j] in Trim([e] + Alive(rest, now), budget)
  {
    hide Trim, Payload, Alive;
    var front := Alive(rest[..j + 1], now);
    assert rest == rest[..j + 1] + rest[j + 1..];
    AliveAppend(rest[..j + 1], rest[j + 1..], now);
    assert rest[..j + 1][j] in front && front == Alive(rest, now)[..|front|];
    var n := TrimBehind(e, Alive(rest, now), budget);
  }

  lemma {:induction false} KeyOfPrefix(es: seq<Entry>, n: nat, j: nat)
    requires Distinct(es) && n <= j < |es|
    ensures es[j].key !in Keys(es[..n])
  {
    if n > 0 {
      KeyOfPrefix(es[1..], n - 1, j - 1);
      assert es[1..][j - 1] == es[j] && es[j] in es[1..];
      assert es[..n] == [es[0]] + es[1..][..n - 1];
    }
  }

  lemma {:induction false} AliveWithoutKey(es: seq<Entry>, key: Bytes, now: int)
    ensures Without(Alive(es, now), key) == Alive(Without(es, key), now)
  {
    if es != [] {
      AliveWithoutKey(es[1..], key, now);
      if es[0].key != key { assert Without(es, key)[1..] == Without(es[1..], key); }
      if !IsExpired(es[0], now) { assert Alive(es, now)[1..] == Alive(es[1..], now); }
    }
  }

  /** A sweep just before a SET goes unnoticed by every later lookup, and leaves the same live entries,
      exactly when the SET spares the living. */
  lemma SweepSeenAfterSet(s: Shard, key: Bytes, value: Bytes, expireAt: Option<int>, now: int)
    requires WellFormed(s)
    ensures var a, b := Set(s, key, value, expireAt), Set(Sweep(s, now), key, value, expireAt);
            var spares := Spares(Entry(key, value, expireAt), Without(s.entries, key), s.budget, now);
            && (spares <==> Alive(a.entries, now) == Alive(b.entries, now))
            && (spares <==> forall k :: Get(a, k, now).1 == Get(b, k, now).1)
  {
    var a, b := Set(s, key, value, expireAt), Set(Sweep(s, now), key, value, expireAt);
    hide Spares, Simulates, Get, Set, Without;
    AliveKeeps(s.entries, now);
    SetProgress(s, key, value, expireAt);
    SetProgress(Sweep(s, now), key, value, expireAt);
    if Spares(Entry(key, value, expireAt), Without(s.entries, key), s.budget, now) {
      SweepSimulates(s, s, {}, now);
      SetSimulates(s, Sweep(s, now), {}, key, value, expireAt, now);
      SimulatesAlive(a, b, {} + {key}, now);
      forall k ensures Get(a, k, now).1 == Get(b, k, now).1 { GetSimulates(a, b, {} + {key}, k, now); }
    } else {
      var x := Victim(s, key, value, expireAt, now);
      assert x in Alive(b.entries, now) && x !in Alive(a.entries, now);
      GetEntries(a, x.key, now);
      GetEntries(b, x.key, now);
      KeyDeterminesEntry(b.entries, x, Find(b.entries, x.key).value);
    }
  }

  // ---------------------------------------------------------------------------------------------
  // DEL and EXPIRE on both
  // ---------------------------------------------------------------------------------------------

  /** A key due on neither shard is resident on both, as the same entry, or on neither. */
  lemma SettledFind(kept: Shard, swept: Shard, gone: set<Bytes>, extra: seq<Entry>, key: Bytes, now: int)
    requires CopyOf(kept.entries, swept.entries, gone, extra, now)
    requires !Due(kept, key, now) && !Due(swept, key, now)
    ensures Find(kept.entries, key) == Find(swept.entries, key)
  {
    CopyFind(kept.entries, swept.entries, gone, extra, key, now);
  }

  /** An entry whose key is spared is the same on the copy. */
  lemma SparedFind(kept: Shard, swept: Shard, spared: set<Bytes>, key: Bytes, now: int)
    requires Simulates(kept, swept, spared, now) && key in spared && key in Keys(kept.entries)
    ensures Find(swept.entries, key) == Find(kept.entries, key)
  {
    var gone, extra :| CopyOf(kept.entries, swept.entries, gone, extra, now) && gone !! spared;
    FindAppend(Remove(kept.entries, gone), extra, key);
    RemoveFind(kept.entries, gone, key);
  }

  lemma {:induction false} FindWithout(es: seq<Entry>, gone: Bytes, key: Bytes)
    ensures Find(Without(es, gone), key) == if key == gone then None else Find(es, key)
  {
    if es != [] {
      FindWithout(es[1..], gone, key);
      if es[0].key != gone { assert Without(es, gone)[1..] == Without(es[1..], gone); }
    }
  }

  lemma {:induction false} DelSimulates(kept: Shard, swept: Shard, spared: set<Bytes>, keys: seq<Bytes>, now: int)
    requires Simulates(kept, swept, spared, now)
    requires forall k <- keys :: !Due(kept, k, now) && !Due(swept, k, now)
    ensures DelAll(kept, keys).1 == DelAll(swept, keys).1
    ensures Simulates(DelAll(kept, keys).0, DelAll(swept, keys).0, spared, now)
    decreases |keys|
  {
    if keys != [] {
      hide Simulates, Without, Find;
      DelOneSimulates(kept, swept, spared, keys[0], now);
      var kept', swept' := Del(kept, keys[0]).0, Del(swept, keys[0]).0;
      forall k <- keys[1..] ensures !Due(kept', k, now) && !Due(swept', k, now) {
        assert k in keys;
        FindWithout(kept.entries, keys[0], k);
        FindWithout(swept.entries, keys[0], k);
      }
      DelSimulates(kept', swept', spared, keys[1..], now);
    }
  }

  lemma DelOneSimulates(kept: Shard, swept: Shard, spared: set<Bytes>, key: Bytes, now: int)
    requires Simulates(kept, swept, spared, now) && !Due(kept, key, now) && !Due(swept, key, now)
    ensures Del(kept, key).1 == Del(swept, key).1
    ensures Simulates(Del(kept, key).0, Del(swept, key).0, spared, now)
  {
    var gone, extra :| CopyOf(kept.entries, swept.entries, gone, extra, now) && gone !! spared;
    hide CopyOf, Without;
    SettledFind(kept, swept, gone, extra, key, now);
    CopyMoved(kept.entries, swept.entries, gone, extra, Entry(key, [], None), now);
  }

  lemma DeadlineCons(e: Entry, es: seq<Entry>, key: Bytes, deadline: int)
    ensures WithDeadline([e] + es, key, deadline)
            == [if e.key == key then e.(expireAt := Some(deadline)) else e] + WithDeadline(es, key, deadline)
  {
    assert ([e] + es)[1..] == es;
  }

  lemma DeadlineEmpty(key: Bytes, deadline: int)
    ensures WithDeadline([], key, deadline) == []
  {
  }

  lemma {:induction false} DeadlineAppend(a: seq<Entry>, b: seq<Entry>, key: Bytes, deadline: int)
    ensures WithDeadline(a + b, key, deadline) == WithDeadline(a, key, deadline) + WithDeadline(b, key, deadline)
  {
    hide WithDeadline;
    if a == [] {
      assert a + b == b;
      DeadlineEmpty(key, deadline);
    } else {
      var head := if a[0].key == key then a[0].(expireAt := Some(deadline)) else a[0];
      assert a + b == [a[0]] + (a[1..] + b) && a == [a[0]] + a[1..];
      DeadlineCons(a[0], a[1..] + b, key, deadline);
      DeadlineCons(a[0], a[1..], key, deadline);
      DeadlineAppend(a[1..], b, key, deadline);
      Associates([head], WithDeadline(a[1..], key, deadline), WithDeadline(b, key, deadline));
    }
  }

  lemma {:induction false} DeadlineRemove(es: seq<Entry>, gone: set<Bytes>, key: Bytes, deadline: int)
    ensures WithDeadline(Remove(es, gone), key, deadline) == Remove(WithDeadline(es, key, deadline), gone)
  {
    if es != [] {
      DeadlineRemove(es[1..], gone, key, deadline);
      if es[0].key !in gone { assert Remove(es, gone)[1..] == Remove(es[1..], gone); }
      assert WithDeadline(es, key, deadline)[1..] == WithDeadline(es[1..], key, deadline);
    }
  }

  lemma {:induction false} DeadlineOthers(es: seq<Entry>, key: Bytes, deadline: int)
    ensures forall e <- WithDeadline(es, key, deadline) :: e.key != key ==> e in es
  {
    if es != [] { DeadlineOthers(es[1..], key, deadline); }
  }

  lemma ExpireSimulates(kept: Shard, swept: Shard, spared: set<Bytes>, key: Bytes, deadline: int, now: int)
    requires Simulates(kept, swept, spared, now) && WellFormed(swept)
    requires !Due(kept, key, now) && !Due(swept, key, now)
    ensures Expire(kept, key, deadline).1 == Expire(swept, key, deadline).1
    ensures Simulates(Expire(kept, key, deadline).0, Expire(swept, key, deadline).0, spared, now)
  {
    var gone, extra :| CopyOf(kept.entries, swept.entries, gone, extra, now) && gone !! spared;
    SettledFind(kept, swept, gone, extra, key, now);
    hide CopyOf, WithDeadline;
    if key in Keys(kept.entries) {
      CopyDeadline(kept.entries, swept.entries, gone, extra, key, deadline, now);
    } else {
      DeadlineAbsent(kept.entries, key, deadline);
      DeadlineAbsent(swept.entries, key, deadline);
    }
  }

  lemma CopyDeadline(kept: seq<Entry>, swept: seq<Entry>, gone: set<Bytes>, extra: seq<Entry>, key: Bytes,
                     deadline: int, now: int)
    requires CopyOf(kept, swept, gone, extra, now) && Distinct(swept)
    requires key in Keys(kept) && !IsExpired(Find(kept, key).value, now) && Find(swept, key) == Find(kept, key)
    ensures CopyOf(WithDeadline(kept, key, deadline), WithDeadline(swept, key, deadline), gone, extra, now)
  {
    var e := Find(kept, key).value;
    assert key !in Keys(extra) by {
      if x :| x in extra && x.key == key { KeyDeterminesEntry(swept, x, e); }
    }
    DeadlineAppend(Remove(kept, gone), extra, key, deadline);
    DeadlineRemove(kept, gone, key, deadline);
    DeadlineAbsent(extra, key, deadline);
    DeadlineOthers(kept, key, deadline);
  }

  /** A sweep just before a DEL changes its reply exactly when the DEL names a key that is resident
      although its deadline has passed. */
  lemma SweepSeenByDel(s: Shard, keys: seq<Bytes>, now: int)
    requires WellFormed(s)
    ensures DelAll(Sweep(s, now), keys).1 == DelAll(s, keys).1 <==>
            forall e <- s.entries :: IsExpired(e, now) ==> e.key !in keys
  {
    hide Alive, DelAll, Distinct, Payload, Remove;
    DelAllExact(s, keys);
    AliveKeeps(s.entries, now);
    DelAllExact(Sweep(s, now), keys);
    KeysAfterSweep(s.entries, now);
    SameCount(KeySet(keys), Keys(s.entries), ExpiredKeys(s.entries, now));
  }

  lemma KeysAfterSweep(es: seq<Entry>, now: int)
    requires Distinct(es)
    ensures Keys(Alive(es, now)) == Keys(es) - ExpiredKeys(es, now)
  {
    hide Alive, Distinct;
    forall k | k in Keys(Alive(es, now)) ensures k !in ExpiredKeys(es, now) {
      var e :| e in Alive(es, now) && e.key == k;
      if x :| x in es && IsExpired(x, now) && x.key == k { KeyDeterminesEntry(es, e, x); }
    }
    forall k | k in Keys(es) && k !in ExpiredKeys(es, now) ensures k in Keys(Alive(es, now)) {
      var e :| e in es && e.key == k;
      assert e in Alive(es, now);
    }
  }

  lemma SameCount(named: set<Bytes>, resident: set<Bytes>, due: set<Bytes>)
    requires due <= resident
    ensures |named * (resident - due)| == |named * resident| <==> named !! due
  {
    var left, lost := named * (resident - due), named * due;
    assert named * resident == left + lost;
    assert |left + lost| == |left| + |lost|;
  }

  /** The same for EXPIRE, which can also bring an expired key back to life. */
  lemma SweepSeenByExpire(s: Shard, key: Bytes, deadline: int, now: int)
    requires WellFormed(s)
    ensures Expire(Sweep(s, now), key, deadline).1 == Expire(s, key, deadline).1 <==>
            forall e <- s.entries :: IsExpired(e, now) ==> e.key != key
  {
    hide Alive, Distinct;
    KeysAfterSweep(s.entries, now);
    assert key in ExpiredKeys(s.entries, now) ==> key in Keys(s.entries);
  }
}
