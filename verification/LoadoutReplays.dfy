/** When a role confirmation is put off, what becomes of it, and how a replay can be put off again
    (Payload/Loadout/LoadoutManager.cpp:1211-1300, 1748-1807). */
module LoadoutReplays {
  import opened Basics
  import opened LoadoutInvariant
  import opened LoadoutRuns
  import opened LoadoutSpec
  import Policy = RoleConfirmation

  // ---- One step ----

  /** A poll at or after the deadline releases every waiting record that is not held back for a fresh role, and
      records held back are left as they are. */
  lemma PollReleasesAfterDeadline(s: State, now: int, key: Key)
    requires key in s.players
    ensures key in PollAll(s, now).players
    ensures var p := s.players[key];
            (p.pending.active && !p.pending.replaying && now >= p.pending.deadline && (!p.freshRole || p.seeded) ==>
              Released(p, now) && PollAll(s, now).players[key].pending.replaying) &&
            (p.freshRole && !p.seeded ==> PollAll(s, now).players[key] == p)
  {
  }

  /** What a record that was just released answers: what the poll decided, unless a role that is ready has to be
      pre-ordered and that fails. */
  function ReplayAnswer(p: Connection, prepares: bool): Policy.Decision {
    if p.pending.replayDecision == Policy.Ready && !(RequiresSeed(p) && p.seeded) && !prepares then Policy.Fallback
    else p.pending.replayDecision
  }

  /** Polling and replaying in one tick, with nothing in between, never puts a role off again. */
  lemma ReplayAfterPollIsDecided(options: Options, p: Connection, now: int, later: int, native: Native, prepares: bool)
    requires Released(p, now)
    ensures var q := PolledConnection(p, now);
            var r := Confirmed(options, q, q.pending.roleId, later, native, prepares);
            r.1 != Policy.Deferred && (options.confirmDeferral ==> r.1 == ReplayAnswer(q, prepares))
  {
  }

  /** A replayed role is put off again exactly if it is held back and still cannot be seeded. */
  lemma ReplayIsDeferredOnlyForFreshRole(options: Options, p: Connection, now: int, native: Native, prepares: bool)
    requires SoundRecord(p) && p.pending.replaying
    ensures var r := Confirmed(options, p, p.pending.roleId, now, native, prepares);
            r.1 == Policy.Deferred <==> HeldBack(p) && !TrySeed(p, native).seeded
  {
    TrySeedKeepsRecord(p, native);
  }

  /** A role that is put off waits in the record, with one exception: if it was being replayed and is held back, the
      record stays as it is but for the failed seed, and the end of the replay drops the request. */
  lemma DeferredRoleWaits(s: State, controller: Controller, role: string, now: int, native: Native, prepares: bool)
    requires Invariant(s) && BeginConfirmation(s, controller, role, now, native, prepares).1 == Policy.Deferred
    ensures Knows(s, controller)
    ensures var key := s.bindings[controller];
            var t := BeginConfirmation(s, controller, role, now, native, prepares).0;
            var p, q := s.players[key], t.players[key];
            if Policy.Replays(p.pending, role) then
              HeldBack(p) && HeldBack(q) && q.pending == p.pending && !FinishReplay(t, key).players[key].pending.active
            else
              Policy.Waits(q.pending, role) && FinishReplay(t, key) == t &&
              q.pending.deadline ==
                if Policy.Waits(p.pending, role) then p.pending.deadline else now + ROLE_CONFIRMATION_GRACE
  {
    DeferredRecordWaits(s.options, s.players[s.bindings[controller]], role, now, native, prepares);
  }

  lemma DeferredRecordWaits(options: Options, p: Connection, role: string, now: int, native: Native, prepares: bool)
    requires SoundRecord(p) && Confirmed(options, p, role, now, native, prepares).1 == Policy.Deferred
    ensures var q := Confirmed(options, p, role, now, native, prepares).0;
            SameIdentity(p, q) &&
            if Policy.Replays(p.pending, role) then HeldBack(p) && HeldBack(q) && q.pending == p.pending
            else Policy.Waits(q.pending, role) &&
                 q.pending.deadline ==
                   if Policy.Waits(p.pending, role) then p.pending.deadline else now + ROLE_CONFIRMATION_GRACE
  {
    TrySeedKeepsRecord(p, native);
  }

  // ---- How a record comes to be held back ----

  /** No record is newly held back. */
  predicate HoldsNothingBack(s: State, t: State) {
    forall k :: k in t.players && HeldBack(t.players[k]) ==> k in s.players && HeldBack(s.players[k])
  }

  lemma SeedHoldsNothingBack(p: Connection, native: Native)
    ensures HeldBack(TrySeed(p, native)) ==> HeldBack(p)
  {
  }

  lemma HandledHoldsNothingBack(scope: Scope, p: Connection, result: FetchResult, now: int, native: Native)
    ensures HeldBack(Handled(scope, p, result, now, native)) ==> HeldBack(p)
  {
    if result.Loaded? || result.Broken? {
      var roles := BaselinesOf(result.roles);
      SeedHoldsNothingBack(p.(inFlight := false, baselines := roles, completed := true, terminal := false), native);
    }
  }

  lemma {:induction false} DeliveriesHoldNothingBack(pass: Pass, players: map<Key, Connection>, tasks: seq<FetchTask>)
    ensures var after := AllDelivered(pass, players, tasks);
            forall k :: k in after && HeldBack(after[k]) ==> k in players && HeldBack(players[k])
    decreases |tasks|
  {
    if tasks != [] {
      var task := tasks[0];
      if task.future.Some? && IsCurrent(players, pass.epoch, task) {
        HandledHoldsNothingBack(pass.scope, players[task.key], task.future.value, pass.now, pass.native(task.key));
      }
      DeliveriesHoldNothingBack(pass, Delivered(pass, players, task), tasks[1..]);
    }
  }

  lemma DueFetchHoldsNothingBack(s: State, key: Key, now: int)
    requires key in s.players
    ensures HoldsNothingBack(s, DueFetch(s, key, now))
  {
  }

  lemma DueSeedHoldsNothingBack(s: State, key: Key, native: Native)
    requires key in s.players
    ensures HoldsNothingBack(s, DueSeed(s, key, native))
  {
    SeedHoldsNothingBack(s.players[key], native);
  }

  lemma VisitHoldsNothingBack(s: State, key: Key, now: int, native: Native)
    ensures HoldsNothingBack(s, Visited(s, key, now, native))
  {
    if key in s.players {
      DueFetchHoldsNothingBack(s, key, now);
      DueSeedHoldsNothingBack(DueFetch(s, key, now), key, native);
    }
  }

  lemma {:induction false} VisitsHoldNothingBack(s: State, order: seq<Key>, now: int, native: Key -> Native)
    ensures HoldsNothingBack(s, AllVisited(s, order, now, native))
  {
    if order != [] {
      var n := |order| - 1;
      VisitsHoldNothingBack(s, order[..n], now, native);
      VisitHoldsNothingBack(AllVisited(s, order[..n], now, native), order[n], now, native(order[n]));
    }
  }

  lemma PollHoldsNothingBack(s: State, now: int)
    ensures HoldsNothingBack(s, PollAll(s, now))
  {
  }

  lemma TickHoldsNothingBack(s: State, world: Option<World>, order: seq<Key>, now: int, native: Key -> Native)
    ensures HoldsNothingBack(s, Tick(s, world, order, now, native))
  {
    if s.active {
      var b := BindWorld(s, world);
      var c := Consume(b, now, native);
      DeliveriesHoldNothingBack(Pass(b.scope, b.epoch, now, native), b.players, b.tasks);
      VisitsHoldNothingBack(c, order, now, native);
      PollHoldsNothingBack(AllVisited(c, order, now, native), now);
    }
  }

  lemma TouchHoldsNothingBack(s: State, t: State, q: Connection)
    requires Touches(s, t, q, false)
    ensures HoldsNothingBack(s, t)
  {
  }

  lemma JoinedHoldsNothingBack(s: State, controller: Controller, playerId: string, now: int)
    ensures HoldsNothingBack(s, Joined(s, controller, playerId, now))
  {
  }

  lemma ConnectHoldsNothingBack(s: State, controller: Controller, world: Option<World>, hasAuthority: bool,
                                playerId: string, now: int)
    ensures HoldsNothingBack(s, Connect(s, controller, world, hasAuthority, playerId, now))
  {
    JoinedHoldsNothingBack(BindWorld(s, world), controller, playerId, now);
  }

  lemma RecordEventHoldsNothingBack(s: State, e: Event)
    requires Invariant(s) && (IsRecordEvent(e) || e.FinishReplayEvent?) && !e.FreshEvent?
    ensures HoldsNothingBack(s, Next(s, e))
  {
    var q := RecordEventTouches(s, e);
    TouchHoldsNothingBack(s, Next(s, e), q);
  }

  lemma StepHoldsNothingBack(s: State, e: Event)
    requires Invariant(s) && !e.FreshEvent?
    ensures HoldsNothingBack(s, Next(s, e))
  {
    if e.ConnectEvent? {
      ConnectHoldsNothingBack(s, e.controller, e.world, e.hasAuthority, e.playerId, e.now);
    } else if e.TickEvent? {
      TickHoldsNothingBack(s, e.world, e.order, e.now, e.native);
    } else if OnlyRemoves(e) {
      RemovalKeepsRecords(s, e);
    } else {
      RecordEventHoldsNothingBack(s, e);
    }
  }

  /** The event prepares a fresh role for this record in the middle of its replay. */
  predicate InterruptsReplay(s: State, e: Event, key: Key) {
    e.FreshEvent? && key in s.players && s.players[key].pending.replaying && s.players[key].controller == e.controller
  }

  lemma NewlyHeldBack(s: State, e: Event, key: Key)
    requires Invariant(s) && key in Next(s, e).players && HeldBack(Next(s, e).players[key])
    ensures (key in s.players && HeldBack(s.players[key])) || InterruptsReplay(s, e, key)
  {
    if !e.FreshEvent? {
      StepHoldsNothingBack(s, e);
    }
  }

  /** The one way for a record to be held back: a fresh role was prepared for it in the middle of its replay. */
  lemma {:induction false} HeldBackByFreshRole(run: Run, n: nat, key: Key) returns (i: nat)
    requires run.Valid() && run.states[0] == INITIAL && n < |run.states|
    requires key in run.states[n].players && HeldBack(run.states[n].players[key])
    ensures i < n && InterruptsReplay(run.states[i], run.events[i], key)
    ensures forall m :: i < m <= n ==> key in run.states[m].players && HeldBack(run.states[m].players[key])
  {
    HeldBackStep(run, n, key);
    if InterruptsReplay(run.states[n - 1], run.events[n - 1], key) {
      i := n - 1;
    } else {
      i := HeldBackByFreshRole(run, n - 1, key);
    }
  }

  lemma HeldBackStep(run: Run, n: nat, key: Key)
    requires run.Valid() && run.states[0] == INITIAL && n < |run.states|
    requires key in run.states[n].players && HeldBack(run.states[n].players[key])
    ensures n > 0
    ensures var s := run.states[n - 1];
            (key in s.players && HeldBack(s.players[key])) || InterruptsReplay(s, run.events[n - 1], key)
  {
    assert run.StepsAt(n - 1);
    RunKeepsInvariant(run, n - 1);
    NewlyHeldBack(run.states[n - 1], run.events[n - 1], key);
  }

  // ---- A run that gets there ----

  const ANSWER := Native(false, false)

  /** A server starts, a client connects and confirms a role while its fetch is under way, the grace passes, and before
      the replay reaches the server a fresh role is prepared: the replayed confirmation is put off, and then dropped. */
  lemma ReplayCanBeDeferred(role: string) returns (run: Run)
    requires UsableRole(role)
    ensures run.Valid() && run.states[0] == INITIAL && |run.states| == 6
    ensures var s := run.states[5];
            Knows(s, 0) && HeldBack(s.players[s.bindings[0]]) &&
            s.players[s.bindings[0]].pending.roleId == role &&
            BeginConfirmation(s, 0, role, ROLE_CONFIRMATION_GRACE, ANSWER, true).1 == Policy.Deferred
  {
    run := Waiting(role);
    run := Extended(run, TickEvent(None, [], ROLE_CONFIRMATION_GRACE, _ => ANSWER));
    Polling(run.states[3], run.states[4], role);
    run := Extended(run, FreshEvent(0, false));
    Interrupted(run.states[4], run.states[5], role);
  }

  predicate FetchesFirst(s: State) {
    s.active && s.options.confirmDeferral && s.hasWorld && s.world == None && s.bindings == map[0 := CLIENT] &&
    s.tasks == [FetchTask(CLIENT, s.epoch, None)]
  }

  /** The run up to the confirmation. */
  lemma Waiting(role: string) returns (run: Run)
    requires UsableRole(role)
    ensures run.Valid() && run.states[0] == INITIAL && |run.states| == 4 && FetchesFirst(run.states[3])
    ensures run.states[3].players == map[CLIENT := NewConnection(CLIENT, 0, 0).(inFlight := true, pending :=
              Policy.Pending(true, false, role, ROLE_CONFIRMATION_GRACE, Policy.Fallback))]
  {
    InitialIsSound();
    run := Run([INITIAL], []);
    run := Extended(run, StartEvent(true, RoomMember, Options(true, false, true)));
    run := Extended(run, ConnectEvent(0, None, true, "p", 0));
    Connected(run.states[1], run.states[2]);
    run := Extended(run, ConfirmEvent(0, role, 0, ANSWER, true));
    Confirming(run.states[2], run.states[3], role);
  }

  lemma Extended(run: Run, e: Event) returns (longer: Run)
    requires run.Valid()
    ensures longer.Valid() && longer.states == run.states + [Next(run.states[|run.events|], e)]
    ensures longer.events == run.events + [e]
  {
    longer := Run(run.states + [Next(run.states[|run.events|], e)], run.events + [e]);
    forall k | 0 <= k < |longer.events| ensures longer.StepsAt(k) {
      assert k < |run.events| ==> run.StepsAt(k);
    }
  }

  const CLIENT := Key("p", 1)

  lemma Connected(s: State, t: State)
    requires s == Start(INITIAL, true, RoomMember, Options(true, false, true)) && t == Connect(s, 0, None, true, "p", 0)
    ensures FetchesFirst(t)
    ensures t.players == map[CLIENT := NewConnection(CLIENT, 0, 0).(inFlight := true)]
  {
  }

  lemma Confirming(s: State, t: State, role: string)
    requires FetchesFirst(s) && UsableRole(role)
    requires s.players == map[CLIENT := NewConnection(CLIENT, 0, 0).(inFlight := true)]
    requires t == BeginConfirmation(s, 0, role, 0, ANSWER, true).0
    ensures t == s.(players := t.players)
    ensures t.players == map[CLIENT := s.players[CLIENT].(pending :=
                               Policy.Pending(true, false, role, ROLE_CONFIRMATION_GRACE, Policy.Fallback))]
  {
  }

  lemma Polling(s: State, t: State, role: string)
    requires FetchesFirst(s)
    requires s.players == map[CLIENT := NewConnection(CLIENT, 0, 0).(inFlight := true, pending :=
                                Policy.Pending(true, false, role, ROLE_CONFIRMATION_GRACE, Policy.Fallback))]
    requires t == Tick(s, None, [], ROLE_CONFIRMATION_GRACE, _ => ANSWER)
    ensures t == s.(players := t.players) && CLIENT in t.players
    ensures t.players[CLIENT] == s.players[CLIENT].(pending :=
              Policy.Pending(true, true, role, ROLE_CONFIRMATION_GRACE, Policy.Fallback))
  {
    assert s.tasks[1..] == [];
    assert AllDelivered(Pass(s.scope, s.epoch, ROLE_CONFIRMATION_GRACE, _ => ANSWER), s.players, s.tasks) == s.players;
    assert Unfinished(s.tasks) == s.tasks;
  }

  lemma Interrupted(s: State, t: State, role: string)
    requires s.active && s.bindings == map[0 := CLIENT] && UsableRole(role) && t == PrepareFresh(s, 0, false)
    requires CLIENT in s.players && s.players[CLIENT] == NewConnection(CLIENT, 0, 0).(inFlight := true, pending :=
               Policy.Pending(true, true, role, ROLE_CONFIRMATION_GRACE, Policy.Fallback))
    ensures Knows(t, 0) && HeldBack(t.players[CLIENT]) && t.players[CLIENT].pending.roleId == role
    ensures BeginConfirmation(t, 0, role, ROLE_CONFIRMATION_GRACE, ANSWER, true).1 == Policy.Deferred
  {
  }
}
