/** Properties of whole runs of the loadout lifecycle, for every completion order of the fetches, every sequence of
    reconnects and every change of world. */
module LoadoutRuns {
  import opened Basics
  import opened LoadoutInvariant
  import opened LoadoutSpec
  import opened RoleConfirmation

  datatype Event =
    | StartEvent(accepted: bool, scope: Scope, options: Options)
    | StopEvent
    | ResetMatchEvent(world: Option<World>)
    | ConnectEvent(controller: Controller, world: Option<World>, hasAuthority: bool, playerId: string, now: int)
    | DisconnectEvent(controller: Controller)
    | FinishEvent(task: nat, result: FetchResult)
    | TickEvent(world: Option<World>, order: seq<Key>, now: int, native: Key -> Native)
    | FinishReplayEvent(key: Key)
    | ConfirmEvent(controller: Controller, role: string, now: int, answer: Native, prepares: bool)
    | CommitEvent(controller: Controller, role: string)
    | OverrideEvent(controller: Controller, role: string, contentHash: int, internal: bool, matches: bool)
    | RebindEvent(controller: Controller, role: string, normalized: bool)
    | FreshEvent(controller: Controller, normalized: bool)

  function Next(s: State, e: Event): State {
    match e
    case StartEvent(accepted, scope, options) => Start(s, accepted, scope, options)
    case StopEvent => Stop(s)
    case ResetMatchEvent(world) => ResetMatch(s, world)
    case ConnectEvent(controller, world, hasAuthority, playerId, now) =>
      Connect(s, controller, world, hasAuthority, playerId, now)
    case DisconnectEvent(controller) => Disconnect(s, controller)
    case FinishEvent(task, result) => Finish(s, task, result)
    case TickEvent(world, order, now, native) => Tick(s, world, order, now, native)
    case FinishReplayEvent(key) => FinishReplay(s, key)
    case ConfirmEvent(controller, role, now, answer, prepares) =>
      BeginConfirmation(s, controller, role, now, answer, prepares).0
    case CommitEvent(controller, role) => Commit(s, controller, role)
    case OverrideEvent(controller, role, contentHash, internal, matches) =>
      Override(s, controller, role, contentHash, internal, matches)
    case RebindEvent(controller, role, normalized) => RebindRole(s, controller, role, normalized)
    case FreshEvent(controller, normalized) => PrepareFresh(s, controller, normalized)
  }

  // ---- Every step keeps the invariant ----

  lemma TickKeepsInvariant(s: State, world: Option<World>, order: seq<Key>, now: int, native: Key -> Native)
    requires Invariant(s)
    ensures Invariant(Tick(s, world, order, now, native))
  {
    if s.active {
      var b := BindWorld(s, world);
      DiscardedKeepsInvariant(s, world, true);
      ConsumeKeepsInvariant(b, now, native);
      AllVisitedKeepsInvariant(Consume(b, now, native), order, now, native);
      PollKeepsInvariant(AllVisited(Consume(b, now, native), order, now, native), now);
    }
  }

  /** The step leaves the state alone or replaces one record by a sound one of the same connection and with the same
      outcome and retry time; only a fresh role holds back a record that was not held back before. */
  predicate Touches(s: State, t: State, q: Connection, freshly: bool) {
    t == s ||
    (q.key in s.players && t == Updated(s, q) && SameIdentity(s.players[q.key], q) && SoundRecord(q) &&
     q.inFlight == s.players[q.key].inFlight && SameOutcome(s.players[q.key], q) &&
     q.nextFetchAt == s.players[q.key].nextFetchAt &&
     (HeldBack(q) && !freshly ==> HeldBack(s.players[q.key])))
  }

  lemma ConfirmTouches(s: State, controller: Controller, role: string, now: int, answer: Native, prepares: bool)
    returns (q: Connection)
    requires Invariant(s) && Knows(s, controller)
    ensures Touches(s, BeginConfirmation(s, controller, role, now, answer, prepares).0, q, false)
  {
    var p := s.players[s.bindings[controller]];
    ConfirmedIsSound(s.options, p, role, now, answer, prepares);
    ConfirmedHoldsNothingBack(s.options, p, role, now, answer, prepares);
    q := Confirmed(s.options, p, role, now, answer, prepares).0;
  }

  lemma CommitTouches(s: State, controller: Controller, role: string) returns (q: Connection)
    requires Invariant(s) && Knows(s, controller)
    ensures Touches(s, Commit(s, controller, role), q, false)
  {
    var p := s.players[s.bindings[controller]];
    q := p.(selectedRole := role, freshRole := false, pending := Completed(p.pending));
  }

  lemma OverrideTouches(s: State, controller: Controller, role: string, contentHash: int, internal: bool, matches: bool)
    returns (q: Connection)
    requires Invariant(s) && Knows(s, controller)
    ensures Touches(s, Override(s, controller, role, contentHash, internal, matches), q, false)
  {
    var p := s.players[s.bindings[controller]];
    q := p.(overrides := p.overrides[role := contentHash]);
  }

  lemma RebindTouches(s: State, controller: Controller, role: string, normalized: bool) returns (q: Connection)
    requires Invariant(s) && Knows(s, controller)
    ensures Touches(s, RebindRole(s, controller, role, normalized), q, false)
  {
    var p := s.players[s.bindings[controller]];
    q := p.(selectedRole := role, gateActive := true, containersReady := true, seeded := false,
            pending := Completed(p.pending));
  }

  lemma FreshTouches(s: State, controller: Controller, normalized: bool) returns (q: Connection)
    requires Invariant(s) && Knows(s, controller)
    ensures Touches(s, PrepareFresh(s, controller, normalized), q, true)
  {
    q := s.players[s.bindings[controller]].(freshRole := true, seeded := false, containersReady := normalized);
  }

  lemma FinishReplayTouches(s: State, key: Key) returns (q: Connection)
    requires Invariant(s) && key in s.players
    ensures Touches(s, FinishReplay(s, key), q, false)
  {
    q := s.players[key].(pending := Completed(s.players[key].pending));
  }

  predicate IsRecordEvent(e: Event) {
    e.ConfirmEvent? || e.CommitEvent? || e.OverrideEvent? || e.RebindEvent? || e.FreshEvent?
  }

  lemma UnknownControllerDoesNothing(s: State, e: Event)
    requires IsRecordEvent(e) && !Knows(s, e.controller)
    ensures Next(s, e) == s
  {
  }

  lemma SomeRecord() returns (q: Connection)
  {
    q := NewConnection(Key("", 0), 0, 0);
  }

  lemma RecordEventTouches(s: State, e: Event) returns (q: Connection)
    requires Invariant(s) && (IsRecordEvent(e) || e.FinishReplayEvent?)
    ensures Touches(s, Next(s, e), q, e.FreshEvent?)
  {
    q := SomeRecord();
    if e.FinishReplayEvent? {
      if e.key in s.players {
        q := FinishReplayTouches(s, e.key);
      }
    } else if !Knows(s, e.controller) {
      UnknownControllerDoesNothing(s, e);
    } else {
      match e
      case ConfirmEvent(controller, role, now, answer, prepares) =>
        q := ConfirmTouches(s, controller, role, now, answer, prepares);
      case CommitEvent(controller, role) => q := CommitTouches(s, controller, role);
      case OverrideEvent(controller, role, contentHash, internal, matches) =>
        q := OverrideTouches(s, controller, role, contentHash, internal, matches);
      case RebindEvent(controller, role, normalized) => q := RebindTouches(s, controller, role, normalized);
      case FreshEvent(controller, normalized) => q := FreshTouches(s, controller, normalized);
    }
  }

  lemma TouchKeepsInvariant(s: State, t: State, q: Connection, freshly: bool)
    requires Invariant(s) && Touches(s, t, q, freshly)
    ensures Invariant(t)
  {
    if t != s {
      UpdateKeepsInvariant(s, q);
    }
  }

  lemma StepKeepsInvariant(s: State, e: Event)
    requires Invariant(s)
    ensures Invariant(Next(s, e))
  {
    match e
    case StartEvent(_, _, _) =>
    case StopEvent =>
    case ResetMatchEvent(world) => DiscardedKeepsInvariant(s, world, world.Some?);
    case ConnectEvent(controller, world, hasAuthority, playerId, now) =>
      ConnectKeepsInvariant(s, controller, world, hasAuthority, playerId, now);
    case DisconnectEvent(controller) => DisconnectKeepsInvariant(s, controller);
    case FinishEvent(task, result) => FinishKeepsInvariant(s, task, result);
    case TickEvent(world, order, now, native) => TickKeepsInvariant(s, world, order, now, native);
    case _ =>
      var q := RecordEventTouches(s, e);
      TouchKeepsInvariant(s, Next(s, e), q, e.FreshEvent?);
  }

  datatype Run = Run(states: seq<State>, events: seq<Event>) {
    ghost predicate StepsAt(k: nat) {
      k < |events| && k + 1 < |states| && states[k + 1] == Next(states[k], events[k])
    }

    ghost predicate Valid() {
      |states| == |events| + 1 && (forall k :: 0 <= k < |events| ==> StepsAt(k)) && Invariant(states[0])
    }
  }

  /** Bindings inverse to records, generations distinct and below the counter, in flight exactly with one task: in
      every state of every run. */
  lemma {:induction false} RunKeepsInvariant(run: Run, n: nat)
    requires run.Valid() && n < |run.states|
    ensures Invariant(run.states[n])
  {
    if n > 0 {
      RunKeepsInvariant(run, n - 1);
      assert run.StepsAt(n - 1);
      StepKeepsInvariant(run.states[n - 1], run.events[n - 1]);
    }
  }

  lemma InitialIsSound()
    ensures Invariant(INITIAL)
  {
  }

  // ---- Who survives a step ----

  /** Counters never fall; a record that is there before and after was there under one epoch; new records have new
      generations. */
  predicate Evolves(s: State, t: State) {
    s.epoch <= t.epoch && s.nextGeneration <= t.nextGeneration &&
    (forall k :: k in t.players && k !in s.players ==> k.generation >= s.nextGeneration) &&
    (forall k :: k in t.players && k in s.players ==>
      s.epoch == t.epoch && SameIdentity(s.players[k], t.players[k]) &&
      (Settled(s.players[k]) ==> Settled(t.players[k])))
  }

  lemma EvolvesTransitively(a: State, b: State, c: State)
    requires Evolves(a, b) && Evolves(b, c) && Invariant(a)
    ensures Evolves(a, c)
  {
  }

  /** The same records, with settled ones still settled. */
  predicate RecordsEvolve(players: map<Key, Connection>, after: map<Key, Connection>) {
    SamePeople(players, after) && forall k :: k in players && Settled(players[k]) ==> Settled(after[k])
  }

  lemma {:induction false} DeliveriesEvolve(pass: Pass, players: map<Key, Connection>, tasks: seq<FetchTask>)
    ensures RecordsEvolve(players, AllDelivered(pass, players, tasks))
    decreases |tasks|
  {
    if tasks != [] {
      var task := tasks[0];
      var after := Delivered(pass, players, task);
      if task.future.Some? && IsCurrent(players, pass.epoch, task) {
        HandledLands(pass.scope, players[task.key], task.future.value, pass.now, pass.native(task.key));
      }
      DeliveriesEvolve(pass, after, tasks[1..]);
    }
  }

  lemma StartFetchEvolves(s: State, key: Key)
    requires key in s.players
    ensures Evolves(s, StartFetch(s, key))
  {
  }

  lemma DueSeedEvolves(s: State, key: Key, native: Native)
    requires key in s.players
    ensures Evolves(s, DueSeed(s, key, native))
  {
    TrySeedKeepsRecord(s.players[key], native);
  }

  lemma VisitEvolves(s: State, key: Key, now: int, native: Native)
    requires Invariant(s)
    ensures Evolves(s, Visited(s, key, now, native))
  {
    if key in s.players {
      var t := DueFetch(s, key, now);
      StartFetchEvolves(s, key);
      DueSeedEvolves(t, key, native);
      EvolvesTransitively(s, t, DueSeed(t, key, native));
    }
  }

  lemma {:induction false} VisitsEvolve(s: State, order: seq<Key>, now: int, native: Key -> Native)
    requires Invariant(s)
    ensures Evolves(s, AllVisited(s, order, now, native))
  {
    if order != [] {
      var n := |order| - 1;
      var t := AllVisited(s, order[..n], now, native);
      VisitsEvolve(s, order[..n], now, native);
      AllVisitedKeepsInvariant(s, order[..n], now, native);
      VisitEvolves(t, order[n], now, native(order[n]));
      EvolvesTransitively(s, t, AllVisited(s, order, now, native));
    }
  }

  lemma BindWorldEvolves(s: State, world: Option<World>)
    ensures Evolves(s, BindWorld(s, world))
  {
  }

  lemma ConsumeEvolves(s: State, now: int, native: Key -> Native)
    ensures Evolves(s, Consume(s, now, native))
  {
    DeliveriesEvolve(Pass(s.scope, s.epoch, now, native), s.players, s.tasks);
  }

  lemma PollEvolves(s: State, now: int)
    ensures Evolves(s, PollAll(s, now))
  {
  }

  lemma TickEvolves(s: State, world: Option<World>, order: seq<Key>, now: int, native: Key -> Native)
    requires Invariant(s)
    ensures Evolves(s, Tick(s, world, order, now, native))
  {
    if s.active {
      var b := BindWorld(s, world);
      var c := Consume(b, now, native);
      var v := AllVisited(c, order, now, native);
      DiscardedKeepsInvariant(s, world, true);
      ConsumeKeepsInvariant(b, now, native);
      BindWorldEvolves(s, world);
      ConsumeEvolves(b, now, native);
      VisitsEvolve(c, order, now, native);
      PollEvolves(v, now);
      EvolvesTransitively(s, b, c);
      EvolvesTransitively(s, c, v);
      EvolvesTransitively(s, v, PollAll(v, now));
    }
  }

  lemma JoinedEvolves(s: State, controller: Controller, playerId: string, now: int)
    requires Generations(s.players, s.nextGeneration)
    ensures Evolves(s, Joined(s, controller, playerId, now))
  {
  }

  lemma ConnectEvolves(s: State, controller: Controller, world: Option<World>, hasAuthority: bool, playerId: string,
                       now: int)
    requires Invariant(s)
    ensures Evolves(s, Connect(s, controller, world, hasAuthority, playerId, now))
  {
    var b := BindWorld(s, world);
    BindWorldEvolves(s, world);
    JoinedEvolves(b, controller, playerId, now);
    EvolvesTransitively(s, b, Joined(b, controller, playerId, now));
  }

  /** A connection does not touch the records that are there. */
  lemma ConnectKeepsRecord(s: State, controller: Controller, world: Option<World>, hasAuthority: bool, playerId: string,
                           now: int, key: Key)
    requires Generations(s.players, s.nextGeneration) && key.generation < s.nextGeneration
    ensures var t := Connect(s, controller, world, hasAuthority, playerId, now);
            key in t.players ==> key in s.players && t.players[key] == s.players[key]
  {
    var b := BindWorld(s, world);
    JoinedKeepsRecord(b, controller, playerId, now, key);
  }

  lemma JoinedKeepsRecord(s: State, controller: Controller, playerId: string, now: int, key: Key)
    requires key.generation < s.nextGeneration
    ensures var t := Joined(s, controller, playerId, now);
            key in t.players ==> key in s.players && t.players[key] == s.players[key]
  {
  }

  lemma TouchEvolves(s: State, t: State, q: Connection, freshly: bool)
    requires Touches(s, t, q, freshly)
    ensures Evolves(s, t)
  {
  }

  lemma StepEvolves(s: State, e: Event)
    requires Invariant(s)
    ensures Evolves(s, Next(s, e))
  {
    if e.ConnectEvent? {
      ConnectEvolves(s, e.controller, e.world, e.hasAuthority, e.playerId, e.now);
    } else if e.TickEvent? {
      TickEvolves(s, e.world, e.order, e.now, e.native);
    } else if OnlyRemoves(e) {
      RemovalEvolves(s, e);
    } else {
      RecordEventEvolves(s, e);
    }
  }

  /** The event takes records away or leaves them alone. */
  predicate OnlyRemoves(e: Event) {
    e.StartEvent? || e.StopEvent? || e.ResetMatchEvent? || e.DisconnectEvent? || e.FinishEvent?
  }

  lemma RemovalKeepsRecords(s: State, e: Event)
    requires OnlyRemoves(e)
    ensures var t := Next(s, e);
            s.epoch <= t.epoch && s.nextGeneration == t.nextGeneration &&
            forall k :: k in t.players ==> k in s.players && t.players[k] == s.players[k] && t.epoch == s.epoch
  {
  }

  lemma RemovalEvolves(s: State, e: Event)
    requires OnlyRemoves(e)
    ensures Evolves(s, Next(s, e))
  {
    RemovalKeepsRecords(s, e);
  }

  lemma RecordEventEvolves(s: State, e: Event)
    requires Invariant(s) && (IsRecordEvent(e) || e.FinishReplayEvent?)
    ensures Evolves(s, Next(s, e))
  {
    var q := RecordEventTouches(s, e);
    TouchEvolves(s, Next(s, e), q, e.FreshEvent?);
  }

  lemma {:induction false} RunEvolves(run: Run, i: nat, j: nat)
    requires run.Valid() && i <= j < |run.states|
    ensures Evolves(run.states[i], run.states[j])
  {
    RunKeepsInvariant(run, i);
    if i < j {
      RunEvolves(run, i, j - 1);
      RunKeepsInvariant(run, j - 1);
      assert run.StepsAt(j - 1);
      StepEvolves(run.states[j - 1], run.events[j - 1]);
      EvolvesTransitively(run.states[i], run.states[j - 1], run.states[j]);
    }
  }

  // ---- The theorems ----

  /** A connection key that is gone never comes back, so nothing that was fetched for it can reach a later record. */
  lemma GoneKeysStayGone(run: Run, i: nat, k: nat, j: nat, key: Key)
    requires run.Valid() && i <= k <= j < |run.states| && key in run.states[i].players && key !in run.states[k].players
    ensures key !in run.states[j].players
  {
    RunKeepsInvariant(run, i);
    RunEvolves(run, i, k);
    RunEvolves(run, k, j);
  }

  /** The event put this record in flight. */
  predicate StartsFetch(s: State, t: State, key: Key) {
    !(key in s.players && s.players[key].inFlight) && key in t.players && t.players[key].inFlight
  }

  /** Whatever the completion order, the reconnects and the world changes: a task that would be applied at state n was
      started for the very record it is applied to. There is one event that put that record in flight; since then the
      record has been there, in flight, under one epoch, with exactly one task of its key. */
  lemma {:induction false} ResultReachesItsStarter(run: Run, n: nat, key: Key) returns (i: nat)
    requires run.Valid() && run.states[0] == INITIAL && n < |run.states|
    requires key in run.states[n].players && Count(run.states[n].tasks, key) > 0
    ensures i < n && StartsFetch(run.states[i], run.states[i + 1], key)
    ensures forall m :: i < m <= n ==>
              key in run.states[m].players && run.states[m].players[key].inFlight &&
              run.states[m].epoch == run.states[n].epoch && Count(run.states[m].tasks, key) == 1
  {
    var s := run.states[n - 1];
    StepBack(run, n, key);
    if key in s.players && s.players[key].inFlight {
      i := ResultReachesItsStarter(run, n - 1, key);
    } else {
      i := n - 1;
    }
  }

  lemma StepBack(run: Run, n: nat, key: Key)
    requires run.Valid() && run.states[0] == INITIAL && n < |run.states|
    requires key in run.states[n].players && Count(run.states[n].tasks, key) > 0
    ensures n > 0 && run.states[n].players[key].inFlight && Count(run.states[n].tasks, key) == 1
    ensures var s := run.states[n - 1]; key in s.players && s.players[key].inFlight ==>
              s.epoch == run.states[n].epoch && Count(s.tasks, key) == 1
  {
    RunKeepsInvariant(run, n);
    OneTaskInFlight(run.states[n], key);
    RunKeepsInvariant(run, n - 1);
    RunEvolves(run, n - 1, n);
    if key in run.states[n - 1].players {
      OneTaskInFlight(run.states[n - 1], key);
    }
  }

  lemma OneTaskInFlight(s: State, key: Key)
    requires Invariant(s) && key in s.players
    ensures s.players[key].inFlight <==> Count(s.tasks, key) == 1
    ensures !s.players[key].inFlight <==> Count(s.tasks, key) == 0
  {
  }

  /** A task whose key has no live record, or whose epoch has passed, changes nothing when it finishes; and one whose
      record is live is of the current epoch. */
  lemma StaleResultsAreDropped(s: State, task: FetchTask, now: int, native: Key -> Native)
    requires Invariant(s) && task in s.tasks
    ensures IsCurrent(s.players, s.epoch, task) <==> task.key in s.players
    ensures task.key !in s.players ==> Delivered(Pass(s.scope, s.epoch, now, native), s.players, task) == s.players
  {
  }

  /** One pass gives a record the result of its own finished task, once, and leaves every other record alone. */
  lemma {:induction false} PassAppliesOwnResult(pass: Pass, players: map<Key, Connection>, tasks: seq<FetchTask>,
                                                key: Key)
    requires key in players && players[key].key == key && Count(tasks, key) <= 1
    requires forall t :: t in tasks && t.key == key ==> t.epoch == pass.epoch
    ensures key in AllDelivered(pass, players, tasks)
    ensures forall t :: t in tasks && t.key == key && t.future.Some? ==>
              AllDelivered(pass, players, tasks)[key] ==
              Handled(pass.scope, players[key], t.future.value, pass.now, pass.native(key))
    ensures (forall t :: t in tasks && t.key == key ==> t.future.None?) ==>
            AllDelivered(pass, players, tasks)[key] == players[key]
    decreases |tasks|
  {
    if tasks != [] {
      var first, rest := tasks[0], tasks[1..];
      var after := Delivered(pass, players, first);
      assert tasks == [first] + rest;
      CountPresent(rest, key);
      if first.key == key && first.future.Some? {
        HandledLands(pass.scope, players[key], first.future.value, pass.now, pass.native(key));
      }
      PassAppliesOwnResult(pass, after, rest, key);
    }
  }

  /** The same for the whole state: consuming settles exactly the records whose own task has finished. */
  lemma ConsumeAppliesOwnResults(s: State, now: int, native: Key -> Native, key: Key)
    requires Invariant(s) && key in s.players
    ensures key in Consume(s, now, native).players
    ensures forall t :: t in s.tasks && t.key == key && t.future.Some? ==>
              Consume(s, now, native).players[key] == Handled(s.scope, s.players[key], t.future.value, now, native(key))
    ensures (forall t :: t in s.tasks && t.key == key ==> t.future.None?) ==>
              Consume(s, now, native).players[key] == s.players[key]
  {
    PassAppliesOwnResult(Pass(s.scope, s.epoch, now, native), s.players, s.tasks, key);
  }

  /** A record is given a final result at most once: when it has settled, it stays settled and is never in
      flight again. */
  lemma SettledForGood(run: Run, i: nat, j: nat, key: Key)
    requires run.Valid() && i <= j < |run.states| && key in run.states[i].players && key in run.states[j].players
    requires Settled(run.states[i].players[key])
    ensures Settled(run.states[j].players[key]) && !run.states[j].players[key].inFlight
    ensures Count(run.states[j].tasks, key) == 0
  {
    RunEvolves(run, i, j);
    RunKeepsInvariant(run, j);
  }
}
