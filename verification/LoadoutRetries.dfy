/** When fetches start: due ones in the next tick that visits them, and no others
    (Payload/Loadout/LoadoutManager.cpp:457-480, 757-765, 1732-1742). */
module LoadoutRetries {
  import opened Basics
  import opened LoadoutEffects
  import opened LoadoutInvariant
  import opened LoadoutResults
  import opened LoadoutRuns
  import opened LoadoutSpec

  // ---- Visits ----

  /** Nothing is under way or settled, and the time has come. */
  predicate IsDue(p: Connection, now: int) {
    !p.inFlight && !p.completed && !p.terminal && now >= p.nextFetchAt
  }

  /** A task of this record that no worker has finished. */
  predicate HasEmptyTask(s: State, key: Key) {
    FetchTask(key, s.epoch, None) in s.tasks
  }

  /** The record is put in flight with a new task if `starts`, and stays as it is otherwise, as far as fetches go. */
  predicate Starts(s: State, t: State, key: Key, starts: bool)
    requires key in s.players
  {
    t.active == s.active && t.epoch == s.epoch && s.tasks <= t.tasks && key in t.players &&
    var p, q := s.players[key], t.players[key];
    q.completed == p.completed && q.terminal == p.terminal && q.nextFetchAt == p.nextFetchAt &&
    q.inFlight == (p.inFlight || starts) && (starts ==> HasEmptyTask(t, key))
  }

  lemma FetchStarts(s: State, visited: Key, now: int, key: Key)
    requires s.active && visited in s.players && key in s.players
    ensures Starts(s, DueFetch(s, visited, now), key, visited == key && IsDue(s.players[key], now))
  {
    if visited == key && IsDue(s.players[key], now) {
      assert DueFetch(s, visited, now).tasks[|s.tasks|] == FetchTask(key, s.epoch, None);
    }
  }

  lemma SeedStartsNothing(s: State, visited: Key, native: Native, key: Key)
    requires visited in s.players && key in s.players
    ensures Starts(s, DueSeed(s, visited, native), key, false)
  {
    TrySeedKeepsRecord(s.players[visited], native);
  }

  lemma StartsThenNothing(s: State, t: State, u: State, key: Key, starts: bool, later: bool)
    requires key in s.players && Starts(s, t, key, starts) && Starts(t, u, key, later)
    ensures Starts(s, u, key, starts || later)
  {
    if starts && HasEmptyTask(t, key) {
      var i :| 0 <= i < |t.tasks| && t.tasks[i] == FetchTask(key, s.epoch, None);
      assert u.tasks[i] == t.tasks[i];
    }
  }

  lemma VisitStarts(s: State, visited: Key, now: int, native: Native, key: Key)
    requires s.active && key in s.players
    ensures Starts(s, Visited(s, visited, now, native), key, visited == key && IsDue(s.players[key], now))
  {
    if visited in s.players {
      var t := DueFetch(s, visited, now);
      FetchStarts(s, visited, now, key);
      SeedStartsNothing(t, visited, native, key);
      StartsThenNothing(s, t, DueSeed(t, visited, native), key, visited == key && IsDue(s.players[key], now), false);
    }
  }

  lemma {:induction false} VisitsStart(s: State, order: seq<Key>, now: int, native: Key -> Native, key: Key)
    requires s.active && key in s.players
    ensures Starts(s, AllVisited(s, order, now, native), key, key in order && IsDue(s.players[key], now))
  {
    if order != [] {
      var n := |order| - 1;
      var t := AllVisited(s, order[..n], now, native);
      VisitsStart(s, order[..n], now, native, key);
      VisitStarts(t, order[n], now, native(order[n]), key);
      StartsThenNothing(s, t, AllVisited(s, order, now, native), key, key in order[..n] && IsDue(s.players[key], now),
                        order[n] == key && IsDue(t.players[key], now));
      assert order == order[..n] + [order[n]];
    }
  }

  lemma PollStartsNothing(s: State, now: int, key: Key)
    requires key in s.players
    ensures Starts(s, PollAll(s, now), key, false)
  {
  }

  // ---- Ticks ----

  /** Of the records that are still there after an active tick, exactly those are newly in flight that are visited and,
      after the pass over the finished tasks, due; each with a new task that no worker has finished. */
  lemma TickStartsDueFetches(s: State, world: Option<World>, order: seq<Key>, now: int, native: Key -> Native, key: Key)
    requires Invariant(s) && s.active && key in Tick(s, world, order, now, native).players
    ensures var c, t := Consume(BindWorld(s, world), now, native), Tick(s, world, order, now, native);
            key in c.players &&
            var due := key in order && IsDue(c.players[key], now);
            t.players[key].inFlight == (c.players[key].inFlight || due) && (due ==> HasEmptyTask(t, key)) &&
            Count(t.tasks, key) == if t.players[key].inFlight then 1 else 0
    ensures var c, t := Consume(BindWorld(s, world), now, native), Tick(s, world, order, now, native);
            key in c.players && Starts(c, t, key, key in order && IsDue(c.players[key], now))
  {
    var c := Consume(BindWorld(s, world), now, native);
    var v := AllVisited(c, order, now, native);
    TickKeepsInvariant(s, world, order, now, native);
    VisitedKeysStay(c, order, now, native);
    VisitsStart(c, order, now, native, key);
    PollStartsNothing(v, now, key);
    StartsThenNothing(c, v, PollAll(v, now), key, key in order && IsDue(c.players[key], now), false);
  }

  lemma {:induction false} VisitedKeysStay(s: State, order: seq<Key>, now: int, native: Key -> Native)
    ensures AllVisited(s, order, now, native).players.Keys == s.players.Keys
  {
    if order != [] {
      VisitedKeysStay(s, order[..|order| - 1], now, native);
    }
  }

  // ---- Seeds ----

  /** The record is seeded if `seeds`, and what decides about seeding stays as it is. */
  predicate Seeds(s: State, t: State, key: Key, seeds: bool)
    requires key in s.players
  {
    key in t.players &&
    var p, q := s.players[key], t.players[key];
    q.gateActive == p.gateActive && q.freshRole == p.freshRole && q.completed == p.completed &&
    q.baselines == p.baselines && q.containersReady == p.containersReady && q.seeded == (p.seeded || seeds)
  }

  lemma FetchSeedsNothing(s: State, visited: Key, now: int, key: Key)
    requires visited in s.players && key in s.players
    ensures Seeds(s, DueFetch(s, visited, now), key, false)
  {
  }

  lemma SeedSeeds(s: State, visited: Key, native: Native, key: Key)
    requires visited in s.players && key in s.players
    ensures Seeds(s, DueSeed(s, visited, native), key, visited == key && GetsSeeded(s.players[key], native))
  {
    SeedExactly(s.players[visited], native);
  }

  lemma VisitSeeds(s: State, visited: Key, now: int, native: Native, key: Key)
    requires key in s.players
    ensures Seeds(s, Visited(s, visited, now, native), key, visited == key && GetsSeeded(s.players[key], native))
  {
    if visited in s.players {
      FetchSeedsNothing(s, visited, now, key);
      SeedSeeds(DueFetch(s, visited, now), visited, native, key);
    }
  }

  lemma {:induction false} VisitsSeed(s: State, order: seq<Key>, now: int, native: Key -> Native, key: Key)
    requires key in s.players
    ensures Seeds(s, AllVisited(s, order, now, native), key, key in order && GetsSeeded(s.players[key], native(key)))
  {
    if order != [] {
      var n := |order| - 1;
      VisitsSeed(s, order[..n], now, native, key);
      VisitSeeds(AllVisited(s, order[..n], now, native), order[n], now, native(order[n]), key);
      assert order == order[..n] + [order[n]];
    }
  }

  /** Of the records still there after an active tick exactly those are newly seeded that are visited and, after the
      pass over the finished tasks, can be: a seed is needed and missing, and everything for it is there. */
  lemma TickSeedsExactly(s: State, world: Option<World>, order: seq<Key>, now: int, native: Key -> Native, key: Key)
    requires s.active && key in Tick(s, world, order, now, native).players
    ensures var c, t := Consume(BindWorld(s, world), now, native), Tick(s, world, order, now, native);
            key in c.players &&
            t.players[key].seeded ==
              (c.players[key].seeded || (key in order && GetsSeeded(c.players[key], native(key))))
  {
    var c := Consume(BindWorld(s, world), now, native);
    VisitedKeysStay(c, order, now, native);
    VisitsSeed(c, order, now, native, key);
    PollExactly(AllVisited(c, order, now, native).players[key], now);
  }

  // ---- Retries ----

  /** Nothing is under way for the record, nothing is settled, and the next attempt is at this time. */
  predicate IsIdleUntil(s: State, key: Key, time: int) {
    key in s.players && !s.players[key].inFlight && !s.players[key].completed && !s.players[key].terminal &&
    s.players[key].nextFetchAt == time
  }

  /** The tick visits the record in time, and puts it in flight with a new task. */
  predicate StartsRetry(s: State, e: Event, key: Key, time: int) {
    e.TickEvent? && key in e.order && e.now >= time && key in Next(s, e).players && Next(s, e).players[key].inFlight &&
    HasEmptyTask(Next(s, e), key)
  }

  /** A record without a task passes through the pass over the tasks as it is. */
  lemma IdlePassesThrough(s: State, now: int, native: Key -> Native, key: Key)
    requires Invariant(s) && key in s.players && !s.players[key].inFlight
    ensures key in Consume(s, now, native).players && Consume(s, now, native).players[key] == s.players[key]
  {
    CountPresent(s.tasks, key);
    ConsumeAppliesOwnResults(s, now, native, key);
  }

  lemma WorldOfSurvivor(s: State, world: Option<World>, order: seq<Key>, now: int, native: Key -> Native, key: Key)
    requires Invariant(s) && s.active && key in Tick(s, world, order, now, native).players
    ensures BindWorld(s, world).players == s.players && Invariant(BindWorld(s, world))
  {
    SurvivorSawNoChange(s, world, order, now, native, key);
    DiscardedKeepsInvariant(s, world, true);
  }

  lemma TickOnIdle(s: State, e: Event, key: Key, time: int)
    requires Invariant(s) && e.TickEvent? && s.active && IsIdleUntil(s, key, time) && key in Next(s, e).players
    ensures if key in e.order && e.now >= time then StartsRetry(s, e, key, time) else IsIdleUntil(Next(s, e), key, time)
  {
    WorldOfSurvivor(s, e.world, e.order, e.now, e.native, key);
    IdlePassesThrough(BindWorld(s, e.world), e.now, e.native, key);
    TickStartsDueFetches(s, e.world, e.order, e.now, e.native, key);
  }

  lemma RecordEventOnIdle(s: State, e: Event, key: Key, time: int)
    requires Invariant(s) && (IsRecordEvent(e) || e.FinishReplayEvent?) && IsIdleUntil(s, key, time)
    ensures IsIdleUntil(Next(s, e), key, time)
  {
    var q := RecordEventTouches(s, e);
    TouchOnIdle(s, Next(s, e), q, e.FreshEvent?, key, time);
  }

  lemma TouchOnIdle(s: State, t: State, q: Connection, freshly: bool, key: Key, time: int)
    requires Touches(s, t, q, freshly) && IsIdleUntil(s, key, time)
    ensures IsIdleUntil(t, key, time)
  {
  }

  lemma ConnectOnIdle(s: State, e: Event, key: Key, time: int)
    requires Invariant(s) && e.ConnectEvent? && IsIdleUntil(s, key, time) && key in Next(s, e).players
    ensures IsIdleUntil(Next(s, e), key, time)
  {
    ConnectKeepsRecord(s, e.controller, e.world, e.hasAuthority, e.playerId, e.now, key);
  }

  lemma StepOnIdle(s: State, e: Event, key: Key, time: int)
    requires Invariant(s) && IsIdleUntil(s, key, time) && key in Next(s, e).players
    ensures if e.TickEvent? && key in e.order && e.now >= time then StartsRetry(s, e, key, time)
            else IsIdleUntil(Next(s, e), key, time)
  {
    if e.TickEvent? {
      TickOnIdle(s, e, key, time);
    } else if e.ConnectEvent? {
      ConnectOnIdle(s, e, key, time);
    } else if OnlyRemoves(e) {
      RemovalKeepsRecords(s, e);
    } else {
      RecordEventOnIdle(s, e, key, time);
    }
  }

  lemma StepOfRunOnIdle(run: Run, m: nat, key: Key, time: int)
    requires run.Valid() && m < |run.events| && IsIdleUntil(run.states[m], key, time)
    ensures run.states[m + 1] == Next(run.states[m], run.events[m])
    ensures key in run.states[m + 1].players ==>
              var s, e := run.states[m], run.events[m];
              if e.TickEvent? && key in e.order && e.now >= time then StartsRetry(s, e, key, time)
              else IsIdleUntil(run.states[m + 1], key, time)
  {
    assert run.StepsAt(m);
    RunKeepsInvariant(run, m);
    if key in run.states[m + 1].players {
      StepOnIdle(run.states[m], run.events[m], key, time);
    }
  }

  /** A record with nothing under way stays so, with its retry time, until the first tick at or after that time that
      visits it; that tick starts its next fetch. The only exception is that the record goes before. */
  lemma {:induction false} RetryStartsInTime(run: Run, i: nat, n: nat, key: Key, time: int) returns (m: nat)
    requires run.Valid() && i <= n < |run.events| && IsIdleUntil(run.states[i], key, time)
    requires run.events[n].TickEvent? && key in run.events[n].order && run.events[n].now >= time
    ensures i <= m <= n && forall k :: i <= k <= m ==> IsIdleUntil(run.states[k], key, time)
    ensures key !in run.states[m + 1].players || StartsRetry(run.states[m], run.events[m], key, time)
    decreases n - i
  {
    StepOfRunOnIdle(run, i, key, time);
    if key in run.states[i + 1].players && IsIdleUntil(run.states[i + 1], key, time) {
      m := RetryStartsInTime(run, i + 1, n, key, time);
    } else {
      m := i;
    }
  }

  /** A tick that hands a record a failure that can be retried, or an exception, leaves it idle for half a second, two,
      ten or thirty seconds, by the number of failures. */
  lemma FailureIsRetried(s: State, e: Event, key: Key, task: FetchTask)
    requires Invariant(s) && e.TickEvent? && s.active && key in s.players && key in Next(s, e).players
    requires task in s.tasks && task.key == key && (task.future == Some(Failed(true)) || task.future == Some(Threw))
    ensures var failures := s.players[key].failedAttempts + 1;
            IsIdleUntil(Next(s, e), key, e.now + (if failures == 1 then 500 else if failures == 2 then 2000
                                                  else if failures == 3 then 10000 else 30000))
  {
    WorldOfSurvivor(s, e.world, e.order, e.now, e.native, key);
    FailurePasses(BindWorld(s, e.world), e.now, e.native, key, task);
    TickStartsDueFetches(s, e.world, e.order, e.now, e.native, key);
  }

  lemma FailurePasses(s: State, now: int, native: Key -> Native, key: Key, task: FetchTask)
    requires Invariant(s) && key in s.players
    requires task in s.tasks && task.key == key && (task.future == Some(Failed(true)) || task.future == Some(Threw))
    ensures IsIdleUntil(Consume(s, now, native), key, now + Wait(s.players[key].failedAttempts + 1))
  {
    CountPresent(s.tasks, key);
    ConsumeAppliesOwnResults(s, now, native, key);
    HandledExactly(s.scope, s.players[key], task.future.value, now, native(key));
  }
}
