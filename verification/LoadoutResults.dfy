/** What a record settles with: over whole runs, the result of the very fetch that was started for it
    (Payload/Loadout/LoadoutManager.cpp:440-470, 667-816, 1700-1746). */
module LoadoutResults {
  import opened Basics
  import opened LoadoutEffects
  import opened LoadoutInvariant
  import opened LoadoutRuns
  import opened LoadoutSpec

  // ---- Where a task comes from ----

  /** The event fills the future of a task. */
  predicate Fills(s: State, e: Event, task: FetchTask) {
    e.FinishEvent? && e.task < |s.tasks| && s.tasks[e.task].future.None? &&
    task == s.tasks[e.task].(future := Some(e.result))
  }

  predicate OnlyNewTasks(tasks: seq<FetchTask>, after: seq<FetchTask>) {
    forall t :: t in after && t.future.Some? ==> t in tasks
  }

  lemma {:induction false} UnfinishedAreThere(tasks: seq<FetchTask>)
    ensures forall t :: t in Unfinished(tasks) ==> t in tasks
  {
    if tasks != [] {
      UnfinishedAreThere(tasks[1..]);
    }
  }

  lemma StartFetchAddsNew(s: State, key: Key)
    requires key in s.players
    ensures OnlyNewTasks(s.tasks, StartFetch(s, key).tasks)
  {
  }

  lemma VisitAddsNew(s: State, key: Key, now: int, native: Native)
    ensures OnlyNewTasks(s.tasks, Visited(s, key, now, native).tasks)
  {
    if key in s.players {
      StartFetchAddsNew(s, key);
    }
  }

  lemma {:induction false} VisitsAddNew(s: State, order: seq<Key>, now: int, native: Key -> Native)
    ensures OnlyNewTasks(s.tasks, AllVisited(s, order, now, native).tasks)
  {
    if order != [] {
      var n := |order| - 1;
      VisitsAddNew(s, order[..n], now, native);
      VisitAddsNew(AllVisited(s, order[..n], now, native), order[n], now, native(order[n]));
    }
  }

  lemma TickAddsNew(s: State, world: Option<World>, order: seq<Key>, now: int, native: Key -> Native)
    ensures OnlyNewTasks(s.tasks, Tick(s, world, order, now, native).tasks)
  {
    var b := BindWorld(s, world);
    UnfinishedAreThere(b.tasks);
    VisitsAddNew(Consume(b, now, native), order, now, native);
  }

  lemma ConnectAddsNew(s: State, controller: Controller, world: Option<World>, hasAuthority: bool, playerId: string,
                       now: int)
    ensures OnlyNewTasks(s.tasks, Connect(s, controller, world, hasAuthority, playerId, now).tasks)
  {
  }

  lemma RecordEventKeepsTasks(s: State, e: Event)
    requires IsRecordEvent(e) || e.FinishReplayEvent?
    ensures Next(s, e).tasks == s.tasks
  {
  }

  /** Futures are filled by finishing workers only. */
  lemma FinishedTaskOrigin(s: State, e: Event, task: FetchTask)
    requires task in Next(s, e).tasks && task.future.Some?
    ensures task in s.tasks || Fills(s, e, task)
  {
    match e
    case StartEvent(_, _, _) =>
    case StopEvent =>
    case ResetMatchEvent(_) =>
    case ConnectEvent(controller, world, hasAuthority, playerId, now) =>
      ConnectAddsNew(s, controller, world, hasAuthority, playerId, now);
    case DisconnectEvent(_) =>
    case FinishEvent(_, _) =>
    case TickEvent(world, order, now, native) => TickAddsNew(s, world, order, now, native);
    case _ => RecordEventKeepsTasks(s, e);
  }

  /** Between a state without tasks for the key and one with a finished task, an event filled it. */
  lemma {:induction false} WhoFilled(run: Run, i: nat, n: nat, task: FetchTask) returns (j: nat)
    requires run.Valid() && i <= n < |run.states| && Count(run.states[i].tasks, task.key) == 0
    requires task in run.states[n].tasks && task.future.Some?
    ensures i <= j < n && Fills(run.states[j], run.events[j], task)
  {
    CountPresent(run.states[i].tasks, task.key);
    assert run.StepsAt(n - 1);
    FinishedTaskOrigin(run.states[n - 1], run.events[n - 1], task);
    if task in run.states[n - 1].tasks {
      j := WhoFilled(run, i, n - 1, task);
    } else {
      j := n - 1;
    }
  }

  lemma NothingBeforeTheStart(run: Run, i: nat, key: Key)
    requires run.Valid() && i + 1 < |run.states| && StartsFetch(run.states[i], run.states[i + 1], key)
    ensures Count(run.states[i].tasks, key) == 0
  {
    RunKeepsInvariant(run, i);
    RunEvolves(run, i, i + 1);
    CountPresent(run.states[i].tasks, key);
  }

  // ---- What a tick settles with ----

  predicate KeepsOutcomes(s: State, t: State) {
    s.players.Keys == t.players.Keys && forall k :: k in s.players ==> SameOutcome(s.players[k], t.players[k])
  }

  lemma StartFetchKeepsOutcomes(s: State, key: Key)
    requires key in s.players
    ensures KeepsOutcomes(s, StartFetch(s, key))
  {
  }

  lemma DueSeedKeepsOutcomes(s: State, key: Key, native: Native)
    requires key in s.players
    ensures KeepsOutcomes(s, DueSeed(s, key, native))
  {
    TrySeedKeepsRecord(s.players[key], native);
  }

  lemma VisitKeepsOutcomes(s: State, key: Key, now: int, native: Native)
    ensures KeepsOutcomes(s, Visited(s, key, now, native))
  {
    if key in s.players {
      StartFetchKeepsOutcomes(s, key);
      DueSeedKeepsOutcomes(DueFetch(s, key, now), key, native);
    }
  }

  lemma {:induction false} VisitsKeepOutcomes(s: State, order: seq<Key>, now: int, native: Key -> Native)
    ensures KeepsOutcomes(s, AllVisited(s, order, now, native))
  {
    if order != [] {
      var n := |order| - 1;
      VisitsKeepOutcomes(s, order[..n], now, native);
      VisitKeepsOutcomes(AllVisited(s, order[..n], now, native), order[n], now, native(order[n]));
    }
  }

  lemma PollKeepsOutcomes(s: State, now: int)
    ensures KeepsOutcomes(s, PollAll(s, now))
  {
  }

  /** After its pass over the tasks a tick changes no outcome. */
  lemma TickKeepsConsumed(s: State, world: Option<World>, order: seq<Key>, now: int, native: Key -> Native)
    requires s.active
    ensures KeepsOutcomes(Consume(BindWorld(s, world), now, native), Tick(s, world, order, now, native))
  {
    var c := Consume(BindWorld(s, world), now, native);
    VisitsKeepOutcomes(c, order, now, native);
    PollKeepsOutcomes(AllVisited(c, order, now, native), now);
  }

  /** A record that is still there after a tick saw no change of world. */
  lemma SurvivorSawNoChange(s: State, world: Option<World>, order: seq<Key>, now: int, native: Key -> Native, key: Key)
    requires Invariant(s) && s.active && key in Tick(s, world, order, now, native).players
    ensures BindWorld(s, world).players == s.players
  {
    DiscardedKeepsInvariant(s, world, true);
    ConsumeKeepsInvariant(BindWorld(s, world), now, native);
    TickKeepsConsumed(s, world, order, now, native);
  }

  /** A record that settles in a tick does so with the result of its own finished task. */
  lemma TickSettlesWithTask(s: State, world: Option<World>, order: seq<Key>, now: int, native: Key -> Native, key: Key)
    returns (task: FetchTask)
    requires Invariant(s) && key in s.players && !Settled(s.players[key])
    requires key in Tick(s, world, order, now, native).players &&
             Settled(Tick(s, world, order, now, native).players[key])
    ensures task in s.tasks && task.key == key && task.future.Some?
    ensures SameOutcome(Handled(s.scope, s.players[key], task.future.value, now, native(key)),
                        Tick(s, world, order, now, native).players[key])
  {
    var b := BindWorld(s, world);
    SurvivorSawNoChange(s, world, order, now, native, key);
    DiscardedKeepsInvariant(s, world, true);
    TickKeepsConsumed(s, world, order, now, native);
    ConsumeAppliesOwnResults(b, now, native, key);
    if forall t :: t in s.tasks && t.key == key ==> t.future.None? {
      assert false;
    }
    task :| task in s.tasks && task.key == key && task.future.Some?;
  }

  lemma TouchKeepsOutcomes(s: State, t: State, q: Connection, freshly: bool)
    requires Touches(s, t, q, freshly)
    ensures KeepsOutcomes(s, t)
  {
  }

  lemma RecordEventKeepsOutcomes(s: State, e: Event)
    requires Invariant(s) && (IsRecordEvent(e) || e.FinishReplayEvent?)
    ensures KeepsOutcomes(s, Next(s, e))
  {
    var q := RecordEventTouches(s, e);
    TouchKeepsOutcomes(s, Next(s, e), q, e.FreshEvent?);
  }

  lemma ConnectKeepsOutcome(s: State, e: Event, key: Key)
    requires Invariant(s) && key in s.players && key in Next(s, e).players && e.ConnectEvent?
    ensures SameOutcome(s.players[key], Next(s, e).players[key])
  {
    ConnectKeepsRecord(s, e.controller, e.world, e.hasAuthority, e.playerId, e.now, key);
  }

  /** Nothing but a tick settles a record that was there before. */
  lemma OnlyTicksSettle(s: State, e: Event, key: Key)
    requires Invariant(s) && key in s.players && key in Next(s, e).players && !e.TickEvent?
    ensures SameOutcome(s.players[key], Next(s, e).players[key])
  {
    if e.ConnectEvent? {
      ConnectKeepsOutcome(s, e, key);
    } else if IsRecordEvent(e) || e.FinishReplayEvent? {
      RecordEventKeepsOutcomes(s, e);
    } else {
      RemovalKeepsRecords(s, e);
    }
  }

  /** Whatever the completion order, the reconnects and the world changes: a record settles only in a tick, and then it
      was put in flight by one event i; the task of that fetch was still empty until one event j filled it; and the
      record has exactly the outcome h of that result. In between it was there, in flight, with that one task. */
  lemma RecordsSettleWithTheirOwnFetch(run: Run, n: nat, key: Key) returns (i: nat, j: nat, h: Connection)
    requires run.Valid() && run.states[0] == INITIAL && n < |run.events|
    requires key in run.states[n].players && !Settled(run.states[n].players[key])
    requires key in run.states[n + 1].players && Settled(run.states[n + 1].players[key])
    ensures run.events[n].TickEvent? && i <= j < n && StartsFetch(run.states[i], run.states[i + 1], key)
    ensures forall m :: i < m <= n ==>
              key in run.states[m].players && run.states[m].players[key].inFlight &&
              run.states[m].epoch == run.states[n].epoch && Count(run.states[m].tasks, key) == 1
    ensures run.events[j].FinishEvent? && run.events[j].task < |run.states[j].tasks|
    ensures var task := run.states[j].tasks[run.events[j].task]; task.key == key && task.future.None?
    ensures var before, e, result := run.states[n], run.events[n], run.events[j].result;
            Outcome(before.scope, before.players[key], result, e.now, e.native(key), h) &&
            SameOutcome(h, run.states[n + 1].players[key])
  {
    var s, e := run.states[n], run.events[n];
    assert run.StepsAt(n);
    RunKeepsInvariant(run, n);
    if !e.TickEvent? {
      OnlyTicksSettle(s, e, key);
      assert false;
    }
    var task := TickSettlesWithTask(s, e.world, e.order, e.now, e.native, key);
    CountPresent(s.tasks, key);
    i := ResultReachesItsStarter(run, n, key);
    NothingBeforeTheStart(run, i, key);
    j := WhoFilled(run, i, n, task);
    h := Handled(s.scope, s.players[key], task.future.value, e.now, e.native(key));
    HandledExactly(s.scope, s.players[key], task.future.value, e.now, e.native(key));
  }
}
