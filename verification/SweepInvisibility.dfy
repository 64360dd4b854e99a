/** What background sweeps change for clients over whole runs: nothing, exactly as long as no SET evicts a
    live entry that would have stayed without the expired ones, and no DEL or EXPIRE names a key that some
    shard, swept or not, still lists past its deadline. */
module SweepInvisibility {
  import opened Basics
  import opened ShardModel
  import opened ShardSteps
  import opened ShardRuns
  import opened SweptCopies
  import WorkingSet

  // ---------------------------------------------------------------------------------------------
  // One step on both
  // ---------------------------------------------------------------------------------------------

  /** GET, SET, DEL, EXPIRE and TTL. */
  predicate IsCommand(step: Step) {
    !step.action.SampleStats? && !step.action.SweepExpired?
  }

  /** The keys a command asks for without looking at their deadlines. */
  function Named(action: Action): set<Bytes> {
    match action
    case DelKeys(keys) => KeySet(keys)
    case ExpireKey(key, seconds) => if seconds.Some? then {key} else {}
    case _ => {}
  }

  /** A SET that writes spares the living; nothing is asked of any other step. */
  ghost predicate StepSpares(s: Shard, step: Step) {
    step.action.SetKey? && Apply(s, step).1 == Done ==>
      var SetKey(key, value, _) := step.action;
      Spares(Entry(key, value, WorkingSet.WrittenDeadline(step)), Without(s.entries, key), s.budget, step.now)
  }

  ghost predicate NoneDue(s: Shard, step: Step) {
    forall k <- Named(step.action) :: !Due(s, k, step.now)
  }

  function WrittenKeys(s: Shard, step: Step): set<Bytes> {
    if step.action.SetKey? && Apply(s, step).1 == Done then {step.action.key} else {}
  }

  /** A command gives the same reply on both, and leaves one a copy of the other. */
  lemma StepSimulates(kept: Shard, swept: Shard, spared: set<Bytes>, step: Step)
    requires Simulates(kept, swept, spared, step.now) && WellFormed(swept) && IsCommand(step)
    requires StepSpares(kept, step) && NoneDue(kept, step) && NoneDue(swept, step)
    ensures Apply(kept, step).1 == Apply(swept, step).1
    ensures Simulates(Apply(kept, step).0, Apply(swept, step).0, spared + WrittenKeys(kept, step), step.now)
  {
    hide Simulates, Get, Set, Ttl, Spares, DelAll, Expire, Due, WellFormed;
    assert spared + {} == spared;
    match step.action
    case GetKey(key) => GetSimulates(kept, swept, spared, key, step.now);
    case TtlKey(key) => TtlSimulates(kept, swept, spared, key, step.now, step.later);
    case SetKey(_, _, _) => SetStepSimulates(kept, swept, spared, step);
    case DelKeys(keys) =>
      assert forall k <- keys :: k in Named(step.action);
      DelSimulates(kept, swept, spared, keys, step.now);
    case ExpireKey(key, seconds) =>
      if seconds.Some? {
        assert key in Named(step.action);
        ExpireSimulates(kept, swept, spared, key, step.now + seconds.value * TICKS_PER_SECOND, step.now);
      }
  }

  lemma SetStepSimulates(kept: Shard, swept: Shard, spared: set<Bytes>, step: Step)
    requires Simulates(kept, swept, spared, step.now) && step.action.SetKey? && StepSpares(kept, step)
    ensures Apply(kept, step).1 == Apply(swept, step).1
    ensures Simulates(Apply(kept, step).0, Apply(swept, step).0, spared + WrittenKeys(kept, step), step.now)
  {
    var SetKey(key, value, _) := step.action;
    hide *;
    GetSimulates(kept, swept, spared, key, step.now);
    LookupDecides(kept, swept, step);
    WrittenKeysOf(kept, step);
    if Apply(kept, step).1 == Done {
      var expireAt := WorkingSet.WrittenDeadline(step);
      StepSparesSet(kept, step);
      SetSimulates(kept, swept, spared, key, value, expireAt, step.now);
      WorkingSet.SetOutcome(kept, step);
      WorkingSet.SetOutcome(swept, step);
      SameBudget(kept, step);
      SameBudget(swept, step);
      SimulatesLists(Set(kept, key, value, expireAt), Set(swept, key, value, expireAt),
                     Apply(kept, step).0, Apply(swept, step).0, spared + {key}, step.now);
    } else {
      assert spared + {} == spared;
    }
  }

  lemma WrittenKeysOf(s: Shard, step: Step)
    requires step.action.SetKey?
    ensures WrittenKeys(s, step) == if Apply(s, step).1 == Done then {step.action.key} else {}
  {
  }

  /** Whether a SET writes depends only on what its lookup finds; if it does not write, it is that
      lookup or nothing at all. */
  lemma LookupDecides(kept: Shard, swept: Shard, step: Step)
    requires step.action.SetKey?
    requires Get(kept, step.action.key, step.now).1 == Get(swept, step.action.key, step.now).1
    ensures var a, b, key := Apply(kept, step), Apply(swept, step), step.action.key;
            && a.1 == b.1
            && (a.1 != Done ==>
                  || (a.0 == kept && b.0 == swept)
                  || (a.0 == Get(kept, key, step.now).0 && b.0 == Get(swept, key, step.now).0))
  {
    hide Get, Set;
  }

  lemma StepSparesSet(s: Shard, step: Step)
    requires StepSpares(s, step) && step.action.SetKey? && Apply(s, step).1 == Done
    ensures var SetKey(key, value, _) := step.action;
            Spares(Entry(key, value, WorkingSet.WrittenDeadline(step)), Without(s.entries, key), s.budget, step.now)
  {
  }

  lemma SameBudget(s: Shard, step: Step)
    requires step.action.SetKey?
    ensures var SetKey(key, value, _) := step.action;
            Apply(s, step).0.budget == s.budget == Set(s, key, value, WorkingSet.WrittenDeadline(step)).budget
  {
  }

  /** Only the lists and budgets matter. */
  lemma SimulatesLists(kept: Shard, swept: Shard, kept': Shard, swept': Shard, spared: set<Bytes>, now: int)
    requires Simulates(kept, swept, spared, now)
    requires kept'.entries == kept.entries && kept'.budget == kept.budget
    requires swept'.entries == swept.entries && swept'.budget == swept.budget
    ensures Simulates(kept', swept', spared, now)
  {
  }

  lemma StepSparesOnCopy(kept: Shard, swept: Shard, spared: set<Bytes>, step: Step)
    requires Simulates(kept, swept, spared, step.now) && StepSpares(kept, step)
    requires Apply(kept, step).1 == Apply(swept, step).1
    ensures StepSpares(swept, step)
  {
    hide Simulates, Spares, Apply, Without;
    if step.action.SetKey? && Apply(swept, step).1 == Done {
      var SetKey(key, value, _) := step.action;
      SparesOnCopy(Entry(key, value, WorkingSet.WrittenDeadline(step)), kept, swept, spared, step.now);
    }
  }

  // ---------------------------------------------------------------------------------------------
  // Runs with and without sweeps
  // ---------------------------------------------------------------------------------------------

  function DropSweeps(steps: seq<Step>): (r: seq<Step>)
    ensures |r| <= |steps|
  {
    if steps == [] then []
    else
      var init, last := steps[..|steps| - 1], steps[|steps| - 1];
      DropSweeps(init) + if last.action.SweepExpired? then [] else [last]
  }

  /** The replies a client sees. */
  function Visible(replies: seq<Reply>): seq<Reply> {
    if replies == [] then []
    else
      var init, last := replies[..|replies| - 1], replies[|replies| - 1];
      Visible(init) + if last == Swept then [] else [last]
  }

  function LastClock(steps: seq<Step>, before: int): int {
    if steps == [] then before else steps[|steps| - 1].now
  }

  /** Only commands and sweeps, with a clock that never goes back. */
  predicate Timely(steps: seq<Step>, start: int) {
    steps != [] ==>
      var init, last := steps[..|steps| - 1], steps[|steps| - 1];
      && Timely(init, start) && LastClock(init, start) <= last.now
      && (IsCommand(last) || last.action.SweepExpired?)
  }

  lemma DropSweepsSnoc(steps: seq<Step>, last: Step)
    ensures DropSweeps(steps + [last]) == DropSweeps(steps) + if last.action.SweepExpired? then [] else [last]
  {
    assert (steps + [last])[..|steps|] == steps;
  }

  lemma VisibleSnoc(replies: seq<Reply>, last: Reply)
    ensures Visible(replies + [last]) == Visible(replies) + if last == Swept then [] else [last]
  {
    assert (replies + [last])[..|replies|] == replies;
  }

  lemma TimelySnoc(steps: seq<Step>, last: Step, start: int)
    ensures Timely(steps + [last], start) <==>
            && Timely(steps, start) && LastClock(steps, start) <= last.now
            && (IsCommand(last) || last.action.SweepExpired?)
    ensures LastClock(steps + [last], start) == last.now
  {
    assert (steps + [last])[..|steps|] == steps;
  }

  lemma StepKind(s: Shard, step: Step)
    ensures Apply(s, step).1 == Swept <==> step.action.SweepExpired?
    ensures step.action.SweepExpired? ==> Apply(s, step).0 == Sweep(s, step.now)
  {
  }

  /** Without its sweeps a run is still in time, and has commands only. */
  lemma {:induction false} DropSweepsTimely(steps: seq<Step>, start: int)
    requires Timely(steps, start)
    ensures Timely(DropSweeps(steps), start) && LastClock(DropSweeps(steps), start) <= LastClock(steps, start)
    ensures DropSweeps(DropSweeps(steps)) == DropSweeps(steps)
  {
    if steps != [] {
      var init, last := steps[..|steps| - 1], steps[|steps| - 1];
      assert steps == init + [last];
      TimelySnoc(init, last, start);
      DropSweepsTimely(init, start);
      hide DropSweeps, Timely;
      DropSweepsSnoc(init, last);
      if last.action.SweepExpired? {
        assert DropSweeps(steps) == DropSweeps(init);
      } else {
        TimelySnoc(DropSweeps(init), last, start);
        DropSweepsSnoc(DropSweeps(init), last);
      }
    }
  }

  /** The replies are those of the run without its sweeps. */
  ghost predicate SweepsUnseen(s: Shard, steps: seq<Step>) {
    Visible(Run(s, steps).1) == Run(s, DropSweeps(steps)).1
  }

  lemma UnseenSweep(s: Shard, steps: seq<Step>, sweep: Step)
    requires sweep.action.SweepExpired?
    ensures SweepsUnseen(s, steps + [sweep]) <==> SweepsUnseen(s, steps)
  {
    hide Apply, Run, Visible, DropSweeps;
    RunSnoc(s, steps, sweep);
    StepKind(Run(s, steps).0, sweep);
    VisibleSnoc(Run(s, steps).1, Swept);
    DropSweepsSnoc(steps, sweep);
    assert DropSweeps(steps + [sweep]) == DropSweeps(steps);
    assert Visible(Run(s, steps + [sweep]).1) == Visible(Run(s, steps).1);
  }

  /** A command after both runs: its own reply decides. */
  lemma UnseenCommand(s: Shard, steps: seq<Step>, step: Step)
    requires IsCommand(step)
    ensures SweepsUnseen(s, steps + [step]) <==>
            SweepsUnseen(s, steps) && Apply(Run(s, steps).0, step).1 == Apply(Run(s, DropSweeps(steps)).0, step).1
  {
    hide Apply, Run, Visible, DropSweeps;
    RunSnoc(s, steps, step);
    RunSnoc(s, DropSweeps(steps), step);
    StepKind(Run(s, steps).0, step);
    VisibleSnoc(Run(s, steps).1, Apply(Run(s, steps).0, step).1);
    DropSweepsSnoc(steps, step);
    SameEnd(Visible(Run(s, steps).1), Apply(Run(s, steps).0, step).1,
            Run(s, DropSweeps(steps)).1, Apply(Run(s, DropSweeps(steps)).0, step).1);
  }

  lemma SameEnd<T>(a: seq<T>, x: T, b: seq<T>, y: T)
    ensures a + [x] == b + [y] <==> a == b && x == y
  {
    if a + [x] == b + [y] {
      assert (a + [x])[..|a|] == a && (b + [y])[..|b|] == b;
      assert (a + [x])[|a|] == x && (b + [y])[|b|] == y;
    }
  }

  // ---------------------------------------------------------------------------------------------
  // The run swept in favour of a key
  // ---------------------------------------------------------------------------------------------

  function SweepAt(now: int): Step {
    Step(SweepExpired, now, now)
  }

  /** The action looks the key up, and so drops it if it is past its deadline. */
  predicate LooksUp(action: Action, key: Bytes) {
    match action
    case GetKey(k) => k == key
    case TtlKey(k) => k == key
    case SetKey(k, _, mode) => k == key && !mode.UnknownOption? && !mode.NotANumber?
    case _ => false
  }

  /** The last sweep before a step that does not take the key: everything that has expired, or, once the
      key itself is due, everything that had expired just before its deadline, if there is still time
      for that. */
  function FavourSweep(s: Shard, before: int, step: Step, key: Bytes): seq<Step> {
    if Due(s, key, step.now) && !LooksUp(step.action, key) then
      var last := Find(s.entries, key).value.expireAt.value - 1;
      if before <= last then [SweepAt(last)] else []
    else [SweepAt(step.now)]
  }

  /** A run with such a sweep before every step: of all insertions of sweeps, the one that keeps the key
      longest. */
  function SweptFor(s: Shard, start: int, past: seq<Step>, key: Bytes): seq<Step> {
    if past == [] then []
    else
      var init, last := past[..|past| - 1], past[|past| - 1];
      var before := SweptFor(s, start, init, key);
      before + FavourSweep(Run(s, before).0, LastClock(init, start), last, key) + [last]
  }

  /** The shard that the favouring sweep leaves. */
  function Favoured(s: Shard, before: int, step: Step, key: Bytes): Shard {
    if Due(s, key, step.now) && !LooksUp(step.action, key) then
      var last := Find(s.entries, key).value.expireAt.value - 1;
      if before <= last then Sweep(s, last) else s
    else Sweep(s, step.now)
  }

  lemma FavouredRun(s: Shard, before: int, step: Step, key: Bytes)
    ensures Run(s, FavourSweep(s, before, step, key)).0 == Favoured(s, before, step, key)
  {
    hide Due, LooksUp, Run, Sweep;
    forall t ensures Run(s, [SweepAt(t)]).0 == Sweep(s, t) {
      StepKind(s, SweepAt(t));
      assert [] + [SweepAt(t)] == [SweepAt(t)];
      RunNothing(s);
      RunSnoc(s, [], SweepAt(t));
    }
    RunNothing(s);
  }

  lemma SweptForSnoc(s: Shard, start: int, past: seq<Step>, step: Step, key: Bytes)
    ensures var favoured := Run(s, SweptFor(s, start, past, key)).0;
            Run(s, SweptFor(s, start, past + [step], key)).0
            == Apply(Favoured(favoured, LastClock(past, start), step, key), step).0
  {
    hide Apply, Run, FavourSweep, Favoured;
    assert (past + [step])[..|past|] == past;
    var before := SweptFor(s, start, past, key);
    var favoured := Run(s, before).0;
    var sweep := FavourSweep(favoured, LastClock(past, start), step, key);
    RunAppend(s, before, sweep);
    RunSnoc(s, before + sweep, step);
    FavouredRun(favoured, LastClock(past, start), step, key);
  }

  /** It is an insertion of sweeps into the run. */
  lemma {:induction false} SweptForFits(s: Shard, start: int, past: seq<Step>, key: Bytes)
    requires Timely(past, start) && DropSweeps(past) == past
    ensures var steps := SweptFor(s, start, past, key);
            && DropSweeps(steps) == past && Timely(steps, start)
            && LastClock(steps, start) == LastClock(past, start)
  {
    if past != [] {
      var init, last := past[..|past| - 1], past[|past| - 1];
      assert past == init + [last];
      DropSweepsTimely(init, start);
      CommandsOnly(init, last);
      SweptForFits(s, start, init, key);
      var before := SweptFor(s, start, init, key);
      var sweep := FavourSweep(Run(s, before).0, LastClock(init, start), last, key);
      hide Run, Timely, DropSweeps, SweptFor;
      FavourSweepFits(Run(s, before).0, before, LastClock(init, start), start, last, key);
      TimelySnoc(before + sweep, last, start);
      DropSweepsSnoc(before + sweep, last);
      assert SweptFor(s, start, past, key) == before + sweep + [last] by { SweptForStep(s, start, init, last, key); }
      assert LastClock(past, start) == last.now;
    }
  }

  lemma SweptForStep(s: Shard, start: int, init: seq<Step>, last: Step, key: Bytes)
    ensures var before := SweptFor(s, start, init, key);
            SweptFor(s, start, init + [last], key)
            == before + FavourSweep(Run(s, before).0, LastClock(init, start), last, key) + [last]
  {
    assert (init + [last])[..|init|] == init;
  }

  lemma CommandsOnly(init: seq<Step>, last: Step)
    requires DropSweeps(init + [last]) == init + [last]
    ensures DropSweeps(init) == init && !last.action.SweepExpired?
  {
    DropSweepsSnoc(init, last);
    assert |DropSweeps(init)| <= |init| < |init + [last]|;
    SameEnd(DropSweeps(init), last, init, last);
  }

  lemma FavourSweepFits(s: Shard, before: seq<Step>, clock: int, start: int, step: Step, key: Bytes)
    requires Timely(before, start) && LastClock(before, start) == clock <= step.now
    ensures var steps := before + FavourSweep(s, clock, step, key);
            Timely(steps, start) && LastClock(steps, start) <= step.now && DropSweeps(steps) == DropSweeps(before)
  {
    hide Timely, DropSweeps, LooksUp;
    var sweep := FavourSweep(s, clock, step, key);
    if sweep == [] {
      assert before + sweep == before;
    } else {
      assert sweep == [sweep[0]];
      TimelySnoc(before, sweep[0], start);
      DropSweepsSnoc(before, sweep[0]);
    }
  }

  // ---------------------------------------------------------------------------------------------
  // Insertions follow the run
  // ---------------------------------------------------------------------------------------------

  /** After a sweepless beginning `past`, a command is fair to sweeps: a SET spares the living, and no key
      named by a DEL or EXPIRE is listed past its deadline, neither without sweeps nor with those in its
      favour. */
  ghost predicate FairStep(s: Shard, start: int, past: seq<Step>, step: Step) {
    && StepSpares(Run(s, past).0, step) && NoneDue(Run(s, past).0, step)
    && forall k <- Named(step.action) :: !Due(Run(s, SweptFor(s, start, past, k)).0, k, step.now)
  }

  ghost predicate FairRun(s: Shard, start: int, base: seq<Step>) {
    base != [] ==>
      var init, last := base[..|base| - 1], base[|base| - 1];
      FairRun(s, start, init) && FairStep(s, start, init, last)
  }

  /** The run with sweeps, step by step: same replies, a copy of the run without, and a key listed past
      its deadline is listed so in the run that favours it. */
  ghost predicate Follows(s: Shard, start: int, steps: seq<Step>) {
    var past := DropSweeps(steps);
    var kept, copy, now := Run(s, past).0, Run(s, steps).0, LastClock(steps, start);
    && SweepsUnseen(s, steps) && WellFormed(kept) && WellFormed(copy)
    && LastClock(past, start) <= now && Simulates(kept, copy, {}, now)
    && forall k :: Tracked(copy, Run(s, SweptFor(s, start, past, k)).0, k, LastClock(past, start), now)
  }

  /** A key that is due was due at the last step already, and the favouring run has kept it since. */
  ghost predicate Tracked(copy: Shard, favoured: Shard, key: Bytes, before: int, now: int) {
    Due(copy, key, now) ==> before == now && Simulates(copy, favoured, {key}, now)
  }

  lemma LiveOnBoth(kept: Shard, a: Shard, b: Shard, at: int, at': int, now: int)
    requires WellFormed(kept) && Simulates(kept, a, {}, at) && Simulates(kept, b, {}, at') && at <= now && at' <= now
    ensures Alive(a.entries, now) == Alive(b.entries, now) && a.budget == b.budget
  {
    SimulatesLater(kept, a, {}, at, now);
    SimulatesLater(kept, b, {}, at', now);
    SimulatesAlive(kept, a, {}, now);
    SimulatesAlive(kept, b, {}, now);
  }

  /** A key resident and not due is found alike among the same living. */
  lemma LiveFind(a: Shard, b: Shard, key: Bytes, now: int)
    requires WellFormed(a) && WellFormed(b) && Alive(a.entries, now) == Alive(b.entries, now)
    requires key in Keys(a.entries) && !Due(a, key, now)
    ensures Find(b.entries, key) == Find(a.entries, key)
  {
    var e := Find(a.entries, key).value;
    assert e in Alive(a.entries, now);
    FindDistinct(b.entries, e);
  }

  /** A key that lingers on a shard lingers on the one that favours it, and the favouring sweep takes
      nothing away that would have to be there. */
  lemma Lingers(kept: Shard, copy: Shard, favoured: Shard, key: Bytes, before: int, now: int, step: Step)
    requires WellFormed(kept) && WellFormed(copy) && WellFormed(favoured) && before <= now <= step.now
    requires Simulates(kept, copy, {}, now) && Simulates(kept, favoured, {}, before)
    requires Tracked(copy, favoured, key, before, now) && Due(copy, key, step.now)
    ensures Due(favoured, key, step.now)
    ensures !LooksUp(step.action, key) ==> Simulates(copy, Favoured(favoured, before, step, key), {key}, step.now)
  {
    hide Simulates, WellFormed, LooksUp, Find, Sweep, Alive;
    if Due(copy, key, now) {
      SparedFind(copy, favoured, {key}, key, now);
      SimulatesLater(copy, favoured, {key}, now, step.now);
    } else {
      var last := Find(copy.entries, key).value.expireAt.value - 1;
      LiveOnBoth(kept, copy, favoured, now, before, last);
      LiveFind(copy, favoured, key, last);
      SweepSimulates(copy, favoured, {key}, last);
      SimulatesLater(copy, Sweep(favoured, last), {key}, last, step.now);
    }
  }

  /** Otherwise the favouring sweep leaves the living. */
  lemma SweptBefore(kept: Shard, copy: Shard, favoured: Shard, key: Bytes, before: int, now: int, step: Step)
    requires WellFormed(kept) && WellFormed(copy) && WellFormed(favoured) && before <= now <= step.now
    requires Simulates(kept, copy, {}, now) && Simulates(kept, favoured, {}, before)
    requires Due(favoured, key, step.now) ==> LooksUp(step.action, key)
    ensures var spared := if Due(copy, key, step.now) then {} else {key};
            Simulates(copy, Favoured(favoured, before, step, key), spared, step.now)
  {
    hide Simulates, WellFormed, LooksUp, Due;
    LiveOnBoth(kept, copy, favoured, now, before, step.now);
    SweepSimulates(copy, favoured, if Due(copy, key, step.now) then {} else {key}, step.now);
  }

  /** Where the entries after a command come from. */
  lemma EntryAfter(s: Shard, step: Step, x: Entry)
    requires WellFormed(s) && IsCommand(step) && x in Apply(s, step).0.entries
    ensures x in s.entries || x.key in WrittenKeys(s, step) || x.key in Named(step.action)
  {
    hide Get, Set, Ttl, DelAll, WithDeadline, Without, WellFormed;
    match step.action
    case GetKey(k) => GetEntries(s, k, step.now);
    case TtlKey(k) => TtlEntries(s, k, step.now, step.later);
    case SetKey(k, value, _) =>
      GetEntries(s, k, step.now);
      WorkingSet.SetOutcome(s, step);
      SetEntries(s, k, value, WorkingSet.WrittenDeadline(step));
    case DelKeys(keys) => DelAllExact(s, keys);
    case ExpireKey(k, seconds) =>
      if seconds.Some? { DeadlineOthers(s.entries, k, step.now + seconds.value * TICKS_PER_SECOND); }
  }

  lemma SetEntries(s: Shard, key: Bytes, value: Bytes, expireAt: Option<int>)
    ensures forall x <- Set(s, key, value, expireAt).entries :: x.key == key || x in s.entries
  {
    var written := [Entry(key, value, expireAt)] + Without(s.entries, key);
    assert forall x <- Trim(written, s.budget) :: x in written;
  }

  /** A lookup leaves its key out, or not due. */
  lemma LookupSettles(s: Shard, key: Bytes, now: int)
    ensures !Due(Get(s, key, now).0, key, now)
  {
    hide Get, Without;
    GetEntries(s, key, now);
  }

  lemma TtlSettles(s: Shard, key: Bytes, now: int, later: int)
    ensures !Due(Ttl(s, key, now, later).0, key, now)
  {
    hide Ttl, Without;
    TtlEntries(s, key, now, later);
  }

  /** A command after which a key is due has written it, or given it a deadline, or left it alone. */
  lemma DueAfter(s: Shard, step: Step, key: Bytes)
    requires WellFormed(s) && IsCommand(step) && Due(Apply(s, step).0, key, step.now)
    ensures LooksUp(step.action, key) ==> key in WrittenKeys(s, step)
    ensures !LooksUp(step.action, key) ==> Due(s, key, step.now) || key in Named(step.action)
  {
    var x := Find(Apply(s, step).0.entries, key).value;
    EntryAfter(s, step, x);
    if x in s.entries { FindDistinct(s.entries, x); }
    hide Get, Set, Ttl, DelAll, Expire, Find;
    if LooksUp(step.action, key) && key !in WrittenKeys(s, step) {
      LookupSettles(s, key, step.now);
      TtlSettles(s, key, step.now, step.later);
    }
  }

  /** One command after both a run with sweeps and the one that favours a key. */
  lemma StepTracked(kept: Shard, copy: Shard, favoured: Shard, key: Bytes, before: int, now: int, step: Step)
    requires WellFormed(kept) && WellFormed(copy) && WellFormed(favoured) && before <= now <= step.now
    requires Simulates(kept, copy, {}, now) && Simulates(kept, favoured, {}, before)
    requires Tracked(copy, favoured, key, before, now) && IsCommand(step)
    requires StepSpares(copy, step) && NoneDue(copy, step) && NoneDue(favoured, step)
    ensures Tracked(Apply(copy, step).0, Apply(Favoured(favoured, before, step, key), step).0, key, step.now, step.now)
  {
    hide Simulates, WellFormed, LooksUp, Due, StepSpares, Favoured, Apply, WrittenKeys, Sweep;
    if Due(Apply(copy, step).0, key, step.now) {
      var pre := Favoured(favoured, before, step, key);
      var spared: set<Bytes> := {key};
      DueAfter(copy, step, key);
      FavouredKeeps(favoured, before, step, key);
      if Due(copy, key, step.now) {
        Lingers(kept, copy, favoured, key, before, now, step);
      }
      if LooksUp(step.action, key) || !Due(favoured, key, step.now) {
        SweptBefore(kept, copy, favoured, key, before, now, step);
        if Due(copy, key, step.now) {
          spared := {};
        }
      }
      StepSimulates(copy, pre, spared, step);
      SimulatesFewer(Apply(copy, step).0, Apply(pre, step).0, spared + WrittenKeys(copy, step), {key}, step.now);
    }
  }

  /** The favouring sweep keeps the shard well-formed and makes nothing due. */
  lemma FavouredKeeps(s: Shard, before: int, step: Step, key: Bytes)
    requires WellFormed(s)
    ensures WellFormed(Favoured(s, before, step, key))
    ensures NoneDue(s, step) ==> NoneDue(Favoured(s, before, step, key), step)
  {
    hide LooksUp;
    forall t ensures WellFormed(Sweep(s, t)) && (NoneDue(s, step) ==> NoneDue(Sweep(s, t), step)) {
      SweepKeeps(s, t, step);
    }
  }

  lemma SweepKeeps(s: Shard, t: int, step: Step)
    requires WellFormed(s)
    ensures WellFormed(Sweep(s, t)) && (NoneDue(s, step) ==> NoneDue(Sweep(s, t), step))
  {
    AliveKeeps(s.entries, t);
    forall k <- Named(step.action) | !Due(s, k, step.now) ensures !Due(Sweep(s, t), k, step.now) {
      var found := Find(Alive(s.entries, t), k);
      if found.Some? { FindDistinct(s.entries, found.value); }
    }
  }

  lemma FollowsParts(s: Shard, start: int, steps: seq<Step>)
    requires Follows(s, start, steps)
    ensures var past := DropSweeps(steps);
            var kept, copy, now := Run(s, past).0, Run(s, steps).0, LastClock(steps, start);
            && SweepsUnseen(s, steps) && WellFormed(kept) && WellFormed(copy)
            && LastClock(past, start) <= now && Simulates(kept, copy, {}, now)
            && forall k :: Tracked(copy, Run(s, SweptFor(s, start, past, k)).0, k, LastClock(past, start), now)
  {
  }

  /** The run that favours a key, as one of the runs with sweeps. */
  lemma FavouredParts(s: Shard, start: int, past: seq<Step>, key: Bytes)
    requires Timely(past, start) && DropSweeps(past) == past && Follows(s, start, SweptFor(s, start, past, key))
    ensures var favoured := Run(s, SweptFor(s, start, past, key)).0;
            WellFormed(favoured) && Simulates(Run(s, past).0, favoured, {}, LastClock(past, start))
  {
    hide *;
    SweptForFits(s, start, past, key);
    FollowsParts(s, start, SweptFor(s, start, past, key));
  }

  /** No key that a fair command names is due on a run with sweeps. */
  lemma NoneDueOnCopy(s: Shard, start: int, steps: seq<Step>, past: seq<Step>, step: Step)
    requires Follows(s, start, steps) && DropSweeps(steps) == past && Timely(past, start) && DropSweeps(past) == past
    requires forall k :: Follows(s, start, SweptFor(s, start, past, k))
    requires FairStep(s, start, past, step) && LastClock(steps, start) <= step.now
    ensures NoneDue(Run(s, steps).0, step)
  {
    hide Follows, Run, SweptFor, Simulates, WellFormed, StepSpares, Due, Tracked, Timely, DropSweeps, LooksUp;
    FollowsParts(s, start, steps);
    var kept, copy := Run(s, past).0, Run(s, steps).0;
    forall k <- Named(step.action) ensures !Due(copy, k, step.now) {
      var favoured := Run(s, SweptFor(s, start, past, k)).0;
      FavouredParts(s, start, past, k);
      if Due(copy, k, step.now) {
        Lingers(kept, copy, favoured, k, LastClock(past, start), LastClock(steps, start), step);
      }
    }
  }

  /** A fair command keeps a run with sweeps in step with the run without. */
  lemma FollowsCommand(s: Shard, start: int, init: seq<Step>, step: Step)
    requires Follows(s, start, init) && Timely(init, start) && LastClock(init, start) <= step.now && IsCommand(step)
    requires forall k :: Follows(s, start, SweptFor(s, start, DropSweeps(init), k))
    requires FairStep(s, start, DropSweeps(init), step)
    ensures Follows(s, start, init + [step])
  {
    hide Run, SweptFor, Simulates, WellFormed, StepSpares, Due, Tracked, Timely, DropSweeps, LooksUp, Apply, Favoured,
      NoneDue, Named, IsCommand, SweepsUnseen;
    var past := DropSweeps(init);
    var kept, copy, before, now := Run(s, past).0, Run(s, init).0, LastClock(past, start), LastClock(init, start);
    DropSweepsTimely(init, start);
    NoneDueOnCopy(s, start, init, past, step);
    SimulatesLater(kept, copy, {}, now, step.now);
    StepSimulates(kept, copy, {}, step);
    StepSparesOnCopy(kept, copy, {}, step);
    SimulatesFewer(Apply(kept, step).0, Apply(copy, step).0, {} + WrittenKeys(kept, step), {}, step.now);
    StepProgress(kept, step);
    ProgressIsWellFormed(kept, Apply(kept, step).0);
    StepProgress(copy, step);
    ProgressIsWellFormed(copy, Apply(copy, step).0);
    UnseenCommand(s, init, step);
    SnocStates(s, init, step, start);
    forall k
      ensures Tracked(Apply(copy, step).0, Run(s, SweptFor(s, start, past + [step], k)).0, k, step.now, step.now)
    {
      var favoured := Run(s, SweptFor(s, start, past, k)).0;
      FavouredParts(s, start, past, k);
      SweptForFits(s, start, past, k);
      NoneDueOnCopy(s, start, SweptFor(s, start, past, k), past, step);
      StepTracked(kept, copy, favoured, k, before, now, step);
      SweptForSnoc(s, start, past, step, k);
    }
  }

  lemma SnocStates(s: Shard, init: seq<Step>, step: Step, start: int)
    requires IsCommand(step)
    ensures DropSweeps(init + [step]) == DropSweeps(init) + [step]
    ensures Run(s, init + [step]).0 == Apply(Run(s, init).0, step).0
    ensures Run(s, DropSweeps(init) + [step]).0 == Apply(Run(s, DropSweeps(init)).0, step).0
    ensures LastClock(init + [step], start) == step.now == LastClock(DropSweeps(init) + [step], start)
  {
    hide Run, Apply, DropSweeps;
    DropSweepsSnoc(init, step);
    RunSnoc(s, init, step);
    RunSnoc(s, DropSweeps(init), step);
  }

  /** After a sweep nothing is due, and the living are as before. */
  lemma FollowsSweep(s: Shard, start: int, init: seq<Step>, sweep: Step)
    requires Follows(s, start, init) && LastClock(init, start) <= sweep.now && sweep.action.SweepExpired?
    ensures Follows(s, start, init + [sweep])
  {
    hide Run, SweptFor, Simulates, WellFormed, Due, Sweep, DropSweeps, SweepsUnseen, Apply;
    var past := DropSweeps(init);
    var kept, copy := Run(s, past).0, Run(s, init).0;
    SimulatesLater(kept, copy, {}, LastClock(init, start), sweep.now);
    SimulatesAlive(kept, copy, {}, sweep.now);
    SimulatesBudget(kept, copy, {}, sweep.now);
    SweepSimulates(kept, copy, {}, sweep.now);
    UnseenSweep(s, init, sweep);
    DropSweepsSnoc(init, sweep);
    assert DropSweeps(init + [sweep]) == past;
    RunSnoc(s, init, sweep);
    StepKind(copy, sweep);
    StepProgress(copy, sweep);
    ProgressIsWellFormed(copy, Apply(copy, sweep).0);
    forall k ensures !Due(Sweep(copy, sweep.now), k, sweep.now) { SweepSettles(copy, k, sweep.now); }
  }

  lemma SimulatesBudget(kept: Shard, swept: Shard, spared: set<Bytes>, now: int)
    requires Simulates(kept, swept, spared, now)
    ensures swept.budget == kept.budget
  {
  }

  lemma SweepSettles(s: Shard, key: Bytes, now: int)
    ensures !Due(Sweep(s, now), key, now)
  {
  }

  lemma FollowsNothing(s: Shard, start: int)
    requires WellFormed(s)
    ensures Follows(s, start, [])
  {
    hide Simulates, WellFormed, Due;
    SimulatesItself(s, {}, start);
    forall k ensures Simulates(s, s, {k}, start) { SimulatesItself(s, {k}, start); }
  }

  /** Every insertion of sweeps into a fair run follows it. */
  lemma {:induction false} RunFollows(s: Shard, start: int, steps: seq<Step>)
    requires WellFormed(s) && Timely(steps, start) && FairRun(s, start, DropSweeps(steps))
    ensures Follows(s, start, steps)
    decreases |DropSweeps(steps)|, |steps|
  {
    if steps == [] {
      FollowsNothing(s, start);
    } else {
      var init, last := steps[..|steps| - 1], steps[|steps| - 1];
      assert steps == init + [last];
      DropSweepsSnoc(init, last);
      DropSweepsTimely(init, start);
      hide Follows, DropSweeps, WellFormed, FairStep, SweptFor, LastClock;
      var past := DropSweeps(init);
      if last.action.SweepExpired? {
        assert DropSweeps(steps) == past;
        RunFollows(s, start, init);
        FollowsSweep(s, start, init, last);
      } else {
        FairSnoc(s, start, past, last);
        RunFollows(s, start, init);
        forall k ensures Follows(s, start, SweptFor(s, start, past, k)) {
          SweptForFits(s, start, past, k);
          RunFollows(s, start, SweptFor(s, start, past, k));
        }
        FollowsCommand(s, start, init, last);
      }
    }
  }

  lemma FairSnoc(s: Shard, start: int, past: seq<Step>, step: Step)
    ensures FairRun(s, start, past + [step]) <==> FairRun(s, start, past) && FairStep(s, start, past, step)
  {
    assert (past + [step])[..|past|] == past;
  }

  /** Sweeps inserted anywhere into a fair run change no reply, and the live entries at the end are the same
      in the same order. */
  lemma SweepsAreInvisible(s: Shard, start: int, steps: seq<Step>)
    requires WellFormed(s) && Timely(steps, start) && FairRun(s, start, DropSweeps(steps))
    ensures var kept, swept, now := Run(s, DropSweeps(steps)), Run(s, steps), LastClock(steps, start);
            Visible(swept.1) == kept.1 && Alive(swept.0.entries, now) == Alive(kept.0.entries, now)
  {
    RunFollows(s, start, steps);
    FollowsParts(s, start, steps);
    hide Follows, Simulates;
    SimulatesAlive(Run(s, DropSweeps(steps)).0, Run(s, steps).0, {}, LastClock(steps, start));
  }

  // ---------------------------------------------------------------------------------------------
  // Exactly when sweeps can be seen
  // ---------------------------------------------------------------------------------------------

  /** Up to sweeps, a beginning of a run and then one GET. */
  ghost predicate Probes(steps: seq<Step>, base: seq<Step>) {
    exists i, get: Step :: 0 <= i <= |base| && get.action.GetKey? && DropSweeps(steps) == base[..i] + [get]
  }

  ghost predicate AllUnseen(s: Shard, start: int, base: seq<Step>) {
    forall steps :: Probes(steps, base) && Timely(steps, start) ==> SweepsUnseen(s, steps)
  }

  lemma {:induction false} BeginningTimely(base: seq<Step>, start: int, i: nat)
    requires Timely(base, start) && DropSweeps(base) == base && i <= |base|
    ensures Timely(base[..i], start) && DropSweeps(base[..i]) == base[..i]
    ensures i < |base| ==> IsCommand(base[i]) && LastClock(base[..i], start) <= base[i].now
    decreases |base|
  {
    if base == [] || i == |base| {
      assert base[..i] == base;
    } else {
      var init, last := base[..|base| - 1], base[|base| - 1];
      assert base == init + [last] && init[..i] == base[..i];
      CommandsOnly(init, last);
      BeginningTimely(init, start, i);
      if i == |init| { assert init[..i] == init; }
    }
  }

  /** If nothing is ever seen, the next command replies alike with any sweeps before it, and so do all
      lookups just after it. */
  lemma NothingTold(s: Shard, start: int, base: seq<Step>, i: nat, steps: seq<Step>, k: Bytes)
    requires AllUnseen(s, start, base) && i < |base| && IsCommand(base[i])
    requires DropSweeps(steps) == base[..i] && Timely(steps, start) && LastClock(steps, start) <= base[i].now
    ensures var swept, kept := Apply(Run(s, steps).0, base[i]), Apply(Run(s, base[..i]).0, base[i]);
            swept.1 == kept.1 && Get(swept.0, k, base[i].now).1 == Get(kept.0, k, base[i].now).1
  {
    var step, get := base[i], Step(GetKey(k), base[i].now, base[i].now);
    hide *;
    ProbeShape(start, base, i, steps, get);
    ProbeUnseen(s, start, base, steps + [step] + [get]);
    GetIsCommand(get);
    UnseenCommand(s, steps + [step], get);
    UnseenCommand(s, steps, step);
    RunSnoc(s, steps, step);
    RunSnoc(s, base[..i], step);
    GetReply(Apply(Run(s, steps).0, step).0, k, get);
    GetReply(Apply(Run(s, base[..i]).0, step).0, k, get);
  }

  lemma ProbeUnseen(s: Shard, start: int, base: seq<Step>, steps: seq<Step>)
    requires AllUnseen(s, start, base) && Probes(steps, base) && Timely(steps, start)
    ensures SweepsUnseen(s, steps)
  {
  }

  lemma GetIsCommand(get: Step)
    requires get.action.GetKey?
    ensures IsCommand(get)
  {
  }

  lemma ProbeShape(start: int, base: seq<Step>, i: nat, steps: seq<Step>, get: Step)
    requires i < |base| && IsCommand(base[i]) && get.action.GetKey? && get.now == base[i].now
    requires DropSweeps(steps) == base[..i] && Timely(steps, start) && LastClock(steps, start) <= base[i].now
    ensures DropSweeps(steps + [base[i]]) == base[..i] + [base[i]]
    ensures var probe := steps + [base[i]] + [get]; Probes(probe, base) && Timely(probe, start)
  {
    hide DropSweeps, Timely;
    DropSweepsSnoc(steps, base[i]);
    DropSweepsSnoc(steps + [base[i]], get);
    assert base[..i] + [base[i]] == base[..i + 1];
    TimelySnoc(steps, base[i], start);
    TimelySnoc(steps + [base[i]], get, start);
  }

  lemma GetReply(s: Shard, k: Bytes, get: Step)
    requires get.action == GetKey(k)
    ensures Apply(s, get).1 == Value(Get(s, k, get.now).1)
  {
  }

  /** A key whose reply tells whether there was a sweep before the SET. */
  lemma TellingKey(s: Shard, step: Step) returns (k: Bytes)
    requires WellFormed(s) && !StepSpares(s, step)
    ensures var swept := Apply(Sweep(s, step.now), step);
            swept.1 == Apply(s, step).1 ==> Get(swept.0, k, step.now).1 != Get(Apply(s, step).0, k, step.now).1
  {
    hide Get, Set, Spares;
    var SetKey(key, value, _) := step.action;
    var expireAt := WorkingSet.WrittenDeadline(step);
    SweepSeenAfterSet(s, key, value, expireAt, step.now);
    var a, b := Set(s, key, value, expireAt), Set(Sweep(s, step.now), key, value, expireAt);
    k :| Get(a, k, step.now).1 != Get(b, k, step.now).1;
    WorkingSet.SetOutcome(s, step);
    WorkingSet.SetOutcome(Sweep(s, step.now), step);
    GetEntries(a, k, step.now);
    GetEntries(b, k, step.now);
    GetEntries(Apply(s, step).0, k, step.now);
    GetEntries(Apply(Sweep(s, step.now), step).0, k, step.now);
  }

  /** A sweep just before a DEL or EXPIRE is seen if a named key is due. */
  lemma DueSeen(s: Shard, step: Step)
    requires WellFormed(s) && Apply(Sweep(s, step.now), step).1 == Apply(s, step).1
    ensures NoneDue(s, step)
  {
    hide Sweep, Get, Set, Ttl, DelAll, Expire, WellFormed;
    match step.action
    case DelKeys(keys) => SweepSeenByDel(s, keys, step.now);
    case ExpireKey(key, seconds) =>
      if seconds.Some? {
        SweepSeenByExpire(s, key, step.now + seconds.value * TICKS_PER_SECOND, step.now);
      }
    case _ =>
  }

  /** A named key that only the favouring run still lists is seen by the DEL or EXPIRE that names it. */
  lemma LingeringSeen(kept: Shard, favoured: Shard, step: Step, key: Bytes)
    requires WellFormed(kept) && WellFormed(favoured) && Simulates(kept, favoured, {}, step.now)
    requires NoneDue(kept, step) && key in Named(step.action) && Due(favoured, key, step.now)
    ensures Apply(favoured, step).1 != Apply(kept, step).1
  {
    hide Simulates, WellFormed, DelAll, Due, Keys, KeySet;
    OnlyMoreListed(kept, favoured, step, key);
    match step.action
    case ExpireKey(_, _) =>
    case DelKeys(keys) =>
      DelAllExact(kept, keys);
      DelAllExact(favoured, keys);
      MoreCounted(KeySet(keys) * Keys(kept.entries), KeySet(keys) * Keys(favoured.entries), key);
  }

  lemma OnlyMoreListed(kept: Shard, favoured: Shard, step: Step, key: Bytes)
    requires Simulates(kept, favoured, {}, step.now)
    requires NoneDue(kept, step) && key in Named(step.action) && Due(favoured, key, step.now)
    ensures Named(step.action) * Keys(kept.entries) <= Named(step.action) * Keys(favoured.entries)
    ensures key in Keys(favoured.entries) && key !in Keys(kept.entries)
  {
    var gone, extra :| CopyOf(kept.entries, favoured.entries, gone, extra, step.now);
    hide CopyOf, Simulates, Find;
    forall k <- Named(step.action)
      ensures k in Keys(kept.entries) ==> k in Keys(favoured.entries) && !Due(favoured, k, step.now)
    {
      assert !Due(kept, k, step.now);
      CopyFind(kept.entries, favoured.entries, gone, extra, k, step.now);
    }
  }

  lemma MoreCounted(fewer: set<Bytes>, more: set<Bytes>, key: Bytes)
    requires fewer <= more && key in more && key !in fewer
    ensures |fewer| < |more|
  {
    assert more == fewer + (more - fewer) && key in more - fewer;
    assert |fewer + (more - fewer)| == |fewer| + |more - fewer|;
  }

  lemma {:induction false} UnseenMeansFair(s: Shard, start: int, base: seq<Step>, i: nat)
    requires WellFormed(s) && Timely(base, start) && DropSweeps(base) == base && AllUnseen(s, start, base)
    requires i <= |base|
    ensures FairRun(s, start, base[..i])
  {
    hide AllUnseen, FairStep, WellFormed, Timely, DropSweeps;
    if i > 0 {
      UnseenMeansFair(s, start, base, i - 1);
      NextIsFair(s, start, base, i - 1);
      FairSnoc(s, start, base[..i - 1], base[i - 1]);
      assert base[..i] == base[..i - 1] + [base[i - 1]];
    }
  }

  lemma NextIsFair(s: Shard, start: int, base: seq<Step>, i: nat)
    requires WellFormed(s) && Timely(base, start) && DropSweeps(base) == base && AllUnseen(s, start, base) && i < |base|
    requires FairRun(s, start, base[..i])
    ensures FairStep(s, start, base[..i], base[i])
  {
    hide AllUnseen, WellFormed, Timely, DropSweeps, FairRun, Run, Apply, Get, SweptFor, StepSpares, Sweep, Due,
      Simulates, Progress;
    var past, step := base[..i], base[i];
    var kept := Run(s, past).0;
    BeginningTimely(base, start, i);
    RunProgress(s, past);
    ProgressIsWellFormed(s, kept);
    var sweep := SweepAt(step.now);
    SweptOnce(s, start, past, step);
    if !StepSpares(kept, step) {
      var k := TellingKey(kept, step);
      NothingTold(s, start, base, i, past + [sweep], k);
    }
    NothingTold(s, start, base, i, past + [sweep], []);
    DueSeen(kept, step);
    forall k <- Named(step.action) ensures !Due(Run(s, SweptFor(s, start, past, k)).0, k, step.now) {
      var favoured := Run(s, SweptFor(s, start, past, k)).0;
      SweptForFits(s, start, past, k);
      RunFollows(s, start, SweptFor(s, start, past, k));
      FavouredParts(s, start, past, k);
      SimulatesLater(kept, favoured, {}, LastClock(past, start), step.now);
      NothingTold(s, start, base, i, SweptFor(s, start, past, k), []);
      if Due(favoured, k, step.now) { LingeringSeen(kept, favoured, step, k); }
    }
  }

  lemma SweptOnce(s: Shard, start: int, past: seq<Step>, step: Step)
    requires Timely(past, start) && DropSweeps(past) == past && LastClock(past, start) <= step.now
    ensures var steps := past + [SweepAt(step.now)];
            && DropSweeps(steps) == past && Timely(steps, start) && LastClock(steps, start) <= step.now
            && Run(s, steps).0 == Sweep(Run(s, past).0, step.now)
  {
    hide Run, Timely, DropSweeps;
    var sweep := SweepAt(step.now);
    DropSweepsSnoc(past, sweep);
    assert past + [] == past;
    TimelySnoc(past, sweep, start);
    RunSnoc(s, past, sweep);
    StepKind(Run(s, past).0, sweep);
  }

  lemma {:induction false} FairBeginning(s: Shard, start: int, base: seq<Step>, i: nat)
    requires FairRun(s, start, base) && i <= |base|
    ensures FairRun(s, start, base[..i])
    decreases |base|
  {
    if i == |base| {
      assert base[..i] == base;
    } else {
      var init := base[..|base| - 1];
      assert init[..i] == base[..i];
      FairBeginning(s, start, init, i);
    }
  }

  lemma GetIsFair(s: Shard, start: int, past: seq<Step>, get: Step)
    requires get.action.GetKey?
    ensures FairStep(s, start, past, get)
  {
  }

  /** No insertion of sweeps into a run of GET, SET, DEL, EXPIRE and TTL, broken off anywhere for a GET of
      any key, changes a reply, if and only if every command of the run is fair to sweeps. */
  lemma SweepsUnseenExactly(s: Shard, start: int, base: seq<Step>)
    requires WellFormed(s) && Timely(base, start) && DropSweeps(base) == base
    ensures FairRun(s, start, base) <==> AllUnseen(s, start, base)
  {
    hide WellFormed, FairRun, FairStep, Timely, DropSweeps, Run;
    if FairRun(s, start, base) {
      forall steps | Probes(steps, base) && Timely(steps, start) ensures SweepsUnseen(s, steps) {
        var i, get: Step :| 0 <= i <= |base| && get.action.GetKey? && DropSweeps(steps) == base[..i] + [get];
        FairBeginning(s, start, base, i);
        GetIsFair(s, start, base[..i], get);
        FairSnoc(s, start, base[..i], get);
        SweepsAreInvisible(s, start, steps);
      }
    }
    if AllUnseen(s, start, base) {
      UnseenMeansFair(s, start, base, |base|);
      assert base[..|base|] == base;
    }
  }
}
