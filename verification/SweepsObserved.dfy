/** Sweeps and what a client can know: a client that goes by the acknowledged deadlines sees no sweep, and
    the runs from an empty shard that show one. */
module SweepsObserved {
  import opened Basics
  import opened ShardModel
  import opened ShardSteps
  import opened Coherence
  import opened SweptCopies
  import opened SweepInvisibility

  // ---------------------------------------------------------------------------------------------
  // Acknowledged deadlines
  // ---------------------------------------------------------------------------------------------

  /** What a shard says about a key at the start. */
  function Initially(s: Shard, key: Bytes): Option<Written> {
    match Find(s.entries, key)
    case None => None
    case Some(e) => Some(Written(e.value, e.expireAt))
  }

  /** The acknowledged deadline has come. */
  predicate Lapsed(known: Option<Written>, now: int) {
    known.Some? && known.value.deadline.Some? && known.value.deadline.value <= now
  }

  /** Every SET spares the living, and every DEL or EXPIRE names only keys whose last acknowledged
      deadline has not come. */
  ghost predicate Careful(s: Shard, base: seq<Step>) {
    base != [] ==>
      var past, step := base[..|base| - 1], base[|base| - 1];
      && Careful(s, past) && StepSpares(Run(s, past).0, step)
      && forall k <- Named(step.action) :: !Lapsed(History(Initially(s, k), past, Run(s, past).1, k), step.now)
  }

  lemma {:induction false} HistorySnoc(known: Option<Written>, steps: seq<Step>, replies: seq<Reply>,
                                       last: Step, reply: Reply, key: Bytes)
    requires |steps| == |replies|
    ensures History(known, steps + [last], replies + [reply], key)
            == Observe(History(known, steps, replies, key), last, reply, key)
    decreases |steps|
  {
    hide Observe;
    if steps == [] {
      assert [last][1..] == [] && [reply][1..] == [];
      assert steps + [last] == [last] && replies + [reply] == [reply];
    } else {
      assert (steps + [last])[1..] == steps[1..] + [last] && (replies + [reply])[1..] == replies[1..] + [reply];
      HistorySnoc(Observe(known, steps[0], replies[0], key), steps[1..], replies[1..], last, reply, key);
    }
  }

  /** Sweeps acknowledge nothing. */
  lemma {:induction false} HistoryIgnoresSweeps(known: Option<Written>, s: Shard, steps: seq<Step>, key: Bytes)
    ensures |Visible(Run(s, steps).1)| == |DropSweeps(steps)|
    ensures History(known, steps, Run(s, steps).1, key)
            == History(known, DropSweeps(steps), Visible(Run(s, steps).1), key)
  {
    if steps == [] {
      RunNothing(s);
    } else {
      var init, last := steps[..|steps| - 1], steps[|steps| - 1];
      assert steps == init + [last];
      HistoryIgnoresSweeps(known, s, init, key);
      hide Run, Apply, History, Visible, DropSweeps;
      var (mid, replies) := Run(s, init);
      var reply := Apply(mid, last).1;
      RunSnoc(s, init, last);
      StepKind(mid, last);
      DropSweepsSnoc(init, last);
      VisibleSnoc(replies, reply);
      HistorySnoc(known, init, replies, last, reply, key);
      if last.action.SweepExpired? {
        assert DropSweeps(steps) == DropSweeps(init) && Visible(Run(s, steps).1) == Visible(replies);
      } else {
        HistorySnoc(known, DropSweeps(init), Visible(replies), last, reply, key);
      }
    }
  }

  lemma StartAgrees(s: Shard, key: Bytes)
    requires WellFormed(s)
    ensures Agrees(s.entries, key, Initially(s, key))
  {
    forall e <- s.entries | e.key == key ensures Initially(s, key) == Some(Written(e.value, e.expireAt)) {
      FindDistinct(s.entries, e);
    }
  }

  /** A key whose acknowledged deadline has not come is not due. */
  lemma AgreesNotDue(s: Shard, key: Bytes, known: Option<Written>, now: int)
    requires Agrees(s.entries, key, known) && !Lapsed(known, now)
    ensures !Due(s, key, now)
  {
  }

  lemma {:induction false} CarefulIsFair(s: Shard, start: int, base: seq<Step>)
    requires WellFormed(s) && Timely(base, start) && DropSweeps(base) == base && Careful(s, base)
    ensures FairRun(s, start, base)
  {
    if base != [] {
      var past, step := base[..|base| - 1], base[|base| - 1];
      assert base == past + [step];
      CommandsOnly(past, step);
      CarefulIsFair(s, start, past);
      hide WellFormed, Timely, DropSweeps, FairRun, Run, History, SweptFor, Due, Lapsed, StepSpares, Agrees;
      FairSnoc(s, start, past, step);
      forall k <- Named(step.action)
        ensures !Due(Run(s, past).0, k, step.now) && !Due(Run(s, SweptFor(s, start, past, k)).0, k, step.now)
      {
        var known := History(Initially(s, k), past, Run(s, past).1, k);
        var favouring := SweptFor(s, start, past, k);
        StartAgrees(s, k);
        RunAgrees(s, past, k, Initially(s, k));
        AgreesNotDue(Run(s, past).0, k, known, step.now);
        SweptForFits(s, start, past, k);
        SweepsAreInvisible(s, start, favouring);
        HistoryIgnoresSweeps(Initially(s, k), s, favouring, k);
        RunAgrees(s, favouring, k, Initially(s, k));
        AgreesNotDue(Run(s, favouring).0, k, known, step.now);
      }
    }
  }

  /** Sweeps inserted anywhere into a run of GET, SET, DEL, EXPIRE and TTL change no reply, if every SET
      spares the living and every DEL and EXPIRE goes by the acknowledged deadlines. */
  lemma CarefulSeesNoSweep(s: Shard, start: int, steps: seq<Step>)
    requires WellFormed(s) && Timely(steps, start) && Careful(s, DropSweeps(steps))
    ensures var kept, swept, now := Run(s, DropSweeps(steps)), Run(s, steps), LastClock(steps, start);
            Visible(swept.1) == kept.1 && Alive(swept.0.entries, now) == Alive(kept.0.entries, now)
  {
    hide WellFormed, Timely, DropSweeps, FairRun, Run, Careful;
    DropSweepsTimely(steps, start);
    CarefulIsFair(s, start, DropSweeps(steps));
    SweepsAreInvisible(s, start, steps);
  }

  // ---------------------------------------------------------------------------------------------
  // Runs that show a sweep
  // ---------------------------------------------------------------------------------------------

  /** A run from an empty shard in which a sweep is seen: with room for two bytes, an expired entry that
      is still listed pushes a live one out, and a later GET misses what it would have found. */
  lemma EvictionRevealsSweep()
    ensures var now := 2 * TICKS_PER_SECOND;
            var a, b := Step(SetKey([2], [], Plain), 0, 0), Step(SetKey([1], [], ForSeconds(1)), 0, 0);
            var c, d := Step(SetKey([3], [], Plain), now, now), Step(GetKey([2]), now, now);
            var sweep := Step(SweepExpired, now, now);
            && Run(Empty(2), [a, b, c, d]).1 == [Done, Done, Done, Value(None)]
            && Run(Empty(2), [a, b, sweep, c, d]).1 == [Done, Done, Swept, Done, Value(Some([]))]
  {
    var now := 2 * TICKS_PER_SECOND;
    var a, b := Step(SetKey([2], [], Plain), 0, 0), Step(SetKey([1], [], ForSeconds(1)), 0, 0);
    var c, d := Step(SetKey([3], [], Plain), now, now), Step(GetKey([2]), now, now);
    var sweep := Step(SweepExpired, now, now);
    var e1, e2, e3 := Entry([1], [], Some(TICKS_PER_SECOND)), Entry([2], [], None), Entry([3], [], None);
    var s1, s2, s3 := Shard([e2], 2, 0, 0), Shard([e1, e2], 2, 0, 0), Shard([e3, e1], 2, 1, 0);
    var s4, s5 := Shard([e2], 2, 0, 1), Shard([e3, e2], 2, 0, 1);
    hide *;
    SmallSets(e1, e2, e3, now);
    SmallLookups(e1, e2, e3, now);
    var s6 := Apply(s5, d).0;
    FourSteps(Empty(2), s1, s2, s3, s3, a, b, c, d);
    FiveSteps(Empty(2), s1, s2, s4, s5, s6, a, b, sweep, c, d);
  }

  lemma FourSteps(s0: Shard, s1: Shard, s2: Shard, s3: Shard, s4: Shard, a: Step, b: Step, c: Step, d: Step)
    requires Apply(s0, a).0 == s1 && Apply(s1, b).0 == s2 && Apply(s2, c).0 == s3 && Apply(s3, d).0 == s4
    ensures Run(s0, [a, b, c, d]).1 == [Apply(s0, a).1, Apply(s1, b).1, Apply(s2, c).1, Apply(s3, d).1]
  {
    hide *;
    RunCons(s0, a, [b, c, d]);
    RunCons(s1, b, [c, d]);
    RunCons(s2, c, [d]);
    RunCons(s3, d, []);
    RunNothing(s4);
    assert [a] + [b, c, d] == [a, b, c, d] && [b] + [c, d] == [b, c, d] && [c] + [d] == [c, d] && [d] + [] == [d];
  }

  lemma FiveSteps(s0: Shard, s1: Shard, s2: Shard, s3: Shard, s4: Shard, s5: Shard, a: Step, b: Step, c: Step, d: Step,
                  e: Step)
    requires Apply(s0, a).0 == s1 && Apply(s1, b).0 == s2 && Apply(s2, c).0 == s3 && Apply(s3, d).0 == s4
    requires Apply(s4, e).0 == s5
    ensures Run(s0, [a, b, c, d, e]).1
            == [Apply(s0, a).1, Apply(s1, b).1, Apply(s2, c).1, Apply(s3, d).1, Apply(s4, e).1]
  {
    hide *;
    FourSteps(s1, s2, s3, s4, s5, b, c, d, e);
    RunCons(s0, a, [b, c, d, e]);
    assert [a] + [b, c, d, e] == [a, b, c, d, e];
  }

  lemma SmallSets(e1: Entry, e2: Entry, e3: Entry, now: int)
    requires e1 == Entry([1], [], Some(TICKS_PER_SECOND)) && e2 == Entry([2], [], None) && e3 == Entry([3], [], None)
    requires now == 2 * TICKS_PER_SECOND
    ensures Apply(Empty(2), Step(SetKey([2], [], Plain), 0, 0)) == (Shard([e2], 2, 0, 0), Done)
    ensures Apply(Shard([e2], 2, 0, 0), Step(SetKey([1], [], ForSeconds(1)), 0, 0)) == (Shard([e1, e2], 2, 0, 0), Done)
    ensures Apply(Shard([e1, e2], 2, 0, 0), Step(SetKey([3], [], Plain), now, now)) == (Shard([e3, e1], 2, 1, 0), Done)
    ensures Apply(Shard([e2], 2, 0, 1), Step(SetKey([3], [], Plain), now, now)) == (Shard([e3, e2], 2, 0, 1), Done)
  {
    hide Apply, Set, Get, Trim;
    SmallSteps(e1, e2, e3, now);
    assert [e2] + [] == [e2] && [e1] + [e2] == [e1, e2] && [e3] + [e2] == [e3, e2] && [e3] + [e1, e2] == [e3, e1, e2];
    WriteStep(Empty(2), e2, Plain, 0);
    WriteStep(Shard([e2], 2, 0, 0), e1, ForSeconds(1), 0);
    WriteStep(Shard([e1, e2], 2, 0, 0), e3, Plain, now);
    WriteStep(Shard([e2], 2, 0, 1), e3, Plain, now);
  }

  lemma SmallLookups(e1: Entry, e2: Entry, e3: Entry, now: int)
    requires e1 == Entry([1], [], Some(TICKS_PER_SECOND)) && e2 == Entry([2], [], None) && e3 == Entry([3], [], None)
    requires now == 2 * TICKS_PER_SECOND
    ensures Apply(Shard([e1, e2], 2, 0, 0), Step(SweepExpired, now, now)) == (Shard([e2], 2, 0, 1), Swept)
    ensures Apply(Shard([e3, e1], 2, 1, 0), Step(GetKey([2]), now, now)) == (Shard([e3, e1], 2, 1, 0), Value(None))
    ensures Apply(Shard([e3, e2], 2, 0, 1), Step(GetKey([2]), now, now)).1 == Value(Some([]))
  {
    SmallSteps(e1, e2, e3, now);
  }

  lemma WriteStep(s: Shard, e: Entry, mode: SetMode, now: int)
    requires e.key !in Keys(s.entries) && (mode.Plain? || mode.ForSeconds?)
    requires e.expireAt == if mode.ForSeconds? then Deadline(Some(mode.seconds), now) else None
    ensures var kept := Trim([e] + s.entries, s.budget);
            Apply(s, Step(SetKey(e.key, e.value, mode), now, now))
            == (s.(entries := kept, evictions := s.evictions + |s.entries| + 1 - |kept|), Done)
  {
    hide Trim, Without, Find, Payload;
    WithoutAbsent(s.entries, e.key);
  }

  lemma SmallSteps(e1: Entry, e2: Entry, e3: Entry, now: int)
    requires e1.key != e2.key && e1.key != e3.key && e2.key != e3.key
    requires IsExpired(e1, now) && !IsExpired(e2, now)
    requires PayloadOf(e1) == PayloadOf(e2) == PayloadOf(e3) == 1
    ensures Trim([e2], 2) == [e2] && Trim([e1, e2], 2) == [e1, e2]
    ensures Trim([e3, e2], 2) == [e3, e2] && Trim([e3, e1, e2], 2) == [e3, e1]
    ensures Alive([e1, e2], now) == [e2]
  {
    forall x: Entry ensures Payload([x]) == PayloadOf(x) { PayloadFront(x, []); assert [x] + [] == [x]; }
    forall x: Entry, y: Entry ensures Payload([x, y]) == PayloadOf(x) + PayloadOf(y) {
      PayloadFront(x, [y]);
      assert [x] + [y] == [x, y];
    }
    PayloadFront(e3, [e1, e2]);
    assert [e3] + [e1, e2] == [e3, e1, e2] && [e3, e1, e2][..2] == [e3, e1];
  }

  /** A run from an empty shard in which a sweep shows although no key that is named is resident past its
      deadline without it: the sweep makes room, so that a key which expires later stays listed, and a DEL
      counts it. */
  lemma RoomRevealsSweepToDel()
    ensures var t, now := 2 * TICKS_PER_SECOND, 4 * TICKS_PER_SECOND;
            var a, b := Step(SetKey([2], [], ForSeconds(3)), 0, 0), Step(SetKey([1], [], ForSeconds(1)), 0, 0);
            var c, sweep := Step(SetKey([3], [], Plain), now, now), Step(SweepExpired, t, t);
            var del := Step(DelKeys([[2]]), now, now);
            && Run(Empty(2), [a, b, c, del]).1 == [Done, Done, Done, Number(0)]
            && Run(Empty(2), [a, b, sweep, c, del]).1 == [Done, Done, Swept, Done, Number(1)]
  {
    var t, now := 2 * TICKS_PER_SECOND, 4 * TICKS_PER_SECOND;
    var a, b := Step(SetKey([2], [], ForSeconds(3)), 0, 0), Step(SetKey([1], [], ForSeconds(1)), 0, 0);
    var c, sweep := Step(SetKey([3], [], Plain), now, now), Step(SweepExpired, t, t);
    var del := Step(DelKeys([[2]]), now, now);
    var e1, e3 := Entry([1], [], Some(TICKS_PER_SECOND)), Entry([3], [], None);
    var e2 := Entry([2], [], Some(3 * TICKS_PER_SECOND));
    var s1, s2, s3 := Shard([e2], 2, 0, 0), Shard([e1, e2], 2, 0, 0), Shard([e3, e1], 2, 1, 0);
    var s4, s5 := Shard([e2], 2, 0, 1), Shard([e3, e2], 2, 0, 1);
    hide *;
    RoomSets(e1, e2, e3, t, now);
    RoomDel(s3, s5, now);
    FourSteps(Empty(2), s1, s2, s3, Apply(s3, del).0, a, b, c, del);
    FiveSteps(Empty(2), s1, s2, s4, s5, Apply(s5, del).0, a, b, sweep, c, del);
  }

  /** In the same run an EXPIRE brings the key back to life, for a GET to find. */
  lemma RoomRevealsSweepToExpire()
    ensures var t, now := 2 * TICKS_PER_SECOND, 4 * TICKS_PER_SECOND;
            var a, b := Step(SetKey([2], [], ForSeconds(3)), 0, 0), Step(SetKey([1], [], ForSeconds(1)), 0, 0);
            var c, sweep := Step(SetKey([3], [], Plain), now, now), Step(SweepExpired, t, t);
            var expire, get := Step(ExpireKey([2], Some(1)), now, now), Step(GetKey([2]), now, now);
            && Run(Empty(2), [a, b, c, expire, get]).1 == [Done, Done, Done, Number(0), Value(None)]
            && Run(Empty(2), [a, b, sweep, c, expire, get]).1
               == [Done, Done, Swept, Done, Number(1), Value(Some([]))]
  {
    var t, now := 2 * TICKS_PER_SECOND, 4 * TICKS_PER_SECOND;
    var a, b := Step(SetKey([2], [], ForSeconds(3)), 0, 0), Step(SetKey([1], [], ForSeconds(1)), 0, 0);
    var c, sweep := Step(SetKey([3], [], Plain), now, now), Step(SweepExpired, t, t);
    var expire, get := Step(ExpireKey([2], Some(1)), now, now), Step(GetKey([2]), now, now);
    var e1, e3 := Entry([1], [], Some(TICKS_PER_SECOND)), Entry([3], [], None);
    var e2 := Entry([2], [], Some(3 * TICKS_PER_SECOND));
    var s1, s2, s3 := Shard([e2], 2, 0, 0), Shard([e1, e2], 2, 0, 0), Shard([e3, e1], 2, 1, 0);
    var s4, s5 := Shard([e2], 2, 0, 1), Shard([e3, e2], 2, 0, 1);
    hide *;
    RoomSets(e1, e2, e3, t, now);
    RoomExpire(e1, e2, e3, now);
    var s6 := Apply(s5, expire).0;
    FiveSteps(Empty(2), s1, s2, s3, s3, s3, a, b, c, expire, get);
    SixSteps(Empty(2), s1, s2, s4, s5, s6, Apply(s6, get).0, a, b, sweep, c, expire, get);
  }

  lemma SixSteps(s0: Shard, s1: Shard, s2: Shard, s3: Shard, s4: Shard, s5: Shard, s6: Shard, a: Step, b: Step, c: Step,
                 d: Step, e: Step, f: Step)
    requires Apply(s0, a).0 == s1 && Apply(s1, b).0 == s2 && Apply(s2, c).0 == s3 && Apply(s3, d).0 == s4
    requires Apply(s4, e).0 == s5 && Apply(s5, f).0 == s6
    ensures Run(s0, [a, b, c, d, e, f]).1 == [Apply(s0, a).1, Apply(s1, b).1, Apply(s2, c).1, Apply(s3, d).1,
                                              Apply(s4, e).1, Apply(s5, f).1]
  {
    hide *;
    FiveSteps(s1, s2, s3, s4, s5, s6, b, c, d, e, f);
    RunCons(s0, a, [b, c, d, e, f]);
    assert [a] + [b, c, d, e, f] == [a, b, c, d, e, f];
  }

  lemma RoomSets(e1: Entry, e2: Entry, e3: Entry, t: int, now: int)
    requires e1 == Entry([1], [], Some(TICKS_PER_SECOND)) && e2 == Entry([2], [], Some(3 * TICKS_PER_SECOND))
    requires e3 == Entry([3], [], None) && t == 2 * TICKS_PER_SECOND
    ensures Apply(Empty(2), Step(SetKey([2], [], ForSeconds(3)), 0, 0)) == (Shard([e2], 2, 0, 0), Done)
    ensures Apply(Shard([e2], 2, 0, 0), Step(SetKey([1], [], ForSeconds(1)), 0, 0)) == (Shard([e1, e2], 2, 0, 0), Done)
    ensures Apply(Shard([e1, e2], 2, 0, 0), Step(SweepExpired, t, t)) == (Shard([e2], 2, 0, 1), Swept)
    ensures Apply(Shard([e1, e2], 2, 0, 0), Step(SetKey([3], [], Plain), now, now)) == (Shard([e3, e1], 2, 1, 0), Done)
    ensures Apply(Shard([e2], 2, 0, 1), Step(SetKey([3], [], Plain), now, now)) == (Shard([e3, e2], 2, 0, 1), Done)
  {
    hide Apply, Set, Get, Trim, Alive;
    SmallSteps(e1, e2, e3, t);
    SweepStep(Shard([e1, e2], 2, 0, 0), t);
    assert [e2] + [] == [e2] && [e1] + [e2] == [e1, e2] && [e3] + [e2] == [e3, e2] && [e3] + [e1, e2] == [e3, e1, e2];
    WriteStep(Empty(2), e2, ForSeconds(3), 0);
    WriteStep(Shard([e2], 2, 0, 0), e1, ForSeconds(1), 0);
    WriteStep(Shard([e1, e2], 2, 0, 0), e3, Plain, now);
    WriteStep(Shard([e2], 2, 0, 1), e3, Plain, now);
  }

  lemma SweepStep(s: Shard, t: int)
    ensures var alive := Alive(s.entries, t);
            Apply(s, Step(SweepExpired, t, t))
            == (s.(entries := alive, expired := s.expired + |s.entries| - |alive|), Swept)
  {
  }

  lemma RoomDel(kept: Shard, swept: Shard, now: int)
    requires [2] !in Keys(kept.entries) && [2] in Keys(swept.entries)
    ensures Apply(kept, Step(DelKeys([[2]]), now, now)).1 == Number(0)
    ensures Apply(swept, Step(DelKeys([[2]]), now, now)).1 == Number(1)
  {
    assert [[2]][1..] == [];
  }

  lemma RoomExpire(e1: Entry, e2: Entry, e3: Entry, now: int)
    requires e1.key != [2] && e3.key != [2] && e2.key == [2] && e2.value == []
    ensures var kept, swept := Shard([e3, e1], 2, 1, 0), Shard([e3, e2], 2, 0, 1);
            var expire, get := Step(ExpireKey([2], Some(1)), now, now), Step(GetKey([2]), now, now);
            && Apply(kept, expire) == (kept, Number(0)) && Apply(kept, get) == (kept, Value(None))
            && Apply(swept, expire).1 == Number(1)
            && Apply(Apply(swept, expire).0, get).1 == Value(Some([]))
  {
    var kept, swept := Shard([e3, e1], 2, 1, 0), Shard([e3, e2], 2, 0, 1);
    var deadline := now + TICKS_PER_SECOND;
    DeadlineAbsent(kept.entries, [2], deadline);
    assert [e3] + [e2] == [e3, e2];
    DeadlinePresent([e3], e2, [], deadline);
    assert [e3] + [e2] + [] == [e3, e2];
    assert [e3] + [e2.(expireAt := Some(deadline))] + [] == [e3, e2.(expireAt := Some(deadline))];
  }
}
