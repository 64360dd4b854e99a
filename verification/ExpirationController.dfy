/** One round of the background expiration loop, with the commands that run while it waits. */
module ExpirationController {
  import opened Basics
  import opened ShardModel
  import opened ShardSteps
  import opened LruShards
  import ShardProcessing

  /** Seconds the loop sleeps when no key has a deadline. */
  const IDLE_SECONDS: int := 3

  /** The moment a round's timer is set to, if the round waits at all. */
  function WakeUp(next: Option<int>, now: int): Option<int> {
    if next.None? then Some(now + IDLE_SECONDS * TICKS_PER_SECOND)
    else if next.value > now then next
    else None
  }

  /** A round waits for the earliest deadline, or three seconds if there is none, and not at all for one that
      has come. */
  lemma WaitsForDeadline(es: seq<Entry>, now: int)
    ensures var wake := WakeUp(NextDeadline(es), now);
            && ((forall e <- es :: e.expireAt.None?) ==> wake == Some(now + 3_000_000_000))
            && ((exists e <- es :: e.expireAt.Some? && e.expireAt.value <= now) ==> wake == None)
            && ((forall e <- es :: e.expireAt.Some? ==> e.expireAt.value > now)
                && (exists e <- es :: e.expireAt.Some?) ==>
                  && wake.Some? && (exists e <- es :: e.expireAt == wake)
                  && forall e <- es :: e.expireAt.Some? ==> wake.value <= e.expireAt.value)
  {
  }

  /** The shard when the round wakes up: other commands get a turn only if it waits. */
  function AtWakeUp(s: Shard, now: int, meanwhile: seq<Step>): Shard {
    if WakeUp(NextDeadline(s.entries), now).Some? then Run(s, meanwhile).0 else s
  }

  /** A sweep removes something exactly when the earliest deadline has come. */
  lemma {:induction false} RemovesExactlyWhenDue(es: seq<Entry>, now: int)
    ensures |Alive(es, now)| < |es| <==> NextDeadline(es).Some? && NextDeadline(es).value <= now
  {
    if es != [] {
      RemovesExactlyWhenDue(es[1..], now);
    }
  }

  /** `now` is the reading before the wait, `woken` the one after it. Commands that run in between can
      delete, rewrite, extend or evict the key the round is waiting for, so what the round removes is
      settled by the state it wakes up in. */
  method CleaningRound(shard: LruShard, now: int, meanwhile: seq<Step>, woken: int)
    requires shard.Valid()
    modifies shard.Repr
    ensures shard.Valid() && fresh(shard.Repr - old(shard.Repr))
    ensures var before := AtWakeUp(old(shard.Abs()), now, meanwhile);
            && shard.Abs() == Sweep(before, woken)
            && (|shard.Abs().entries| < |before.entries| <==>
                NextDeadline(before.entries).Some? && NextDeadline(before.entries).value <= woken)
    ensures forall e <- shard.Abs().entries :: !IsExpired(e, woken)
  {
    hide Alive, NextDeadline, Run, Apply;
    var next := shard.GetNextExpireTime();
    if WakeUp(next, now).Some? {
      var replies := ShardProcessing.ExecuteRun(shard, meanwhile);
    }
    RemovesExactlyWhenDue(shard.Abs().entries, woken);
    shard.RemoveExpiredKeys(woken);
  }

  /** A round that found a deadline, whose timer did not fire early and that nothing disturbed removes
      at least one key. */
  lemma UndisturbedRoundRemoves(s: Shard, now: int, woken: int)
    requires NextDeadline(s.entries).Some? && now <= woken
    requires WakeUp(NextDeadline(s.entries), now).Some? ==> WakeUp(NextDeadline(s.entries), now).value <= woken
    ensures AtWakeUp(s, now, []) == s && |Sweep(s, woken).entries| < |s.entries|
  {
    RemovesExactlyWhenDue(s.entries, woken);
  }

  /** A command in the wait can leave the round nothing to do: after a DEL of every key that would be
      due, the sweep removes nothing. */
  lemma DisturbedRoundRemovesNothing(s: Shard, keys: seq<Bytes>, now: int, woken: int)
    requires forall e <- s.entries :: IsExpired(e, woken) ==> e.key in keys
    requires WakeUp(NextDeadline(s.entries), now).Some?
    ensures var before := AtWakeUp(s, now, [Step(DelKeys(keys), now, now)]);
            Sweep(before, woken) == before
  {
    var before := AtWakeUp(s, now, [Step(DelKeys(keys), now, now)]);
    var del := Step(DelKeys(keys), now, now);
    RunCons(s, del, []);
    assert [del] + [] == [del];
    DelKeeps(s, keys);
    AllAlive(before.entries, woken);
  }

  lemma {:induction false} DelKeeps(s: Shard, keys: seq<Bytes>)
    ensures forall e <- DelAll(s, keys).0.entries :: e in s.entries && e.key !in keys
    decreases |keys|
  {
    if keys != [] { DelKeeps(Del(s, keys[0]).0, keys[1..]); }
  }
}
