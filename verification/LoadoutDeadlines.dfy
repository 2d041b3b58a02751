/** How long a role waits: what the first tick at or after its deadline does, over whole runs
    (Payload/Loadout/LoadoutManager.cpp:1101-1140, 1211-1300, 1700-1780). */
module LoadoutDeadlines {
  import opened Basics
  import opened LoadoutInvariant
  import opened LoadoutRuns
  import opened LoadoutSpec
  import Policy = RoleConfirmation

  // ---- A tick up to its poll leaves confirmations alone ----

  predicate KeepsPending(s: State, t: State) {
    s.players.Keys == t.players.Keys && forall k :: k in s.players ==> s.players[k].pending == t.players[k].pending
  }

  lemma HandledKeepsPending(scope: Scope, p: Connection, result: FetchResult, now: int, native: Native)
    ensures Handled(scope, p, result, now, native).pending == p.pending
  {
    if result.Loaded? || result.Broken? {
      TakenKeepsPending(p, result.roles, native);
    }
  }

  lemma {:induction false} DeliveriesKeepPending(pass: Pass, players: map<Key, Connection>, tasks: seq<FetchTask>)
    ensures var after := AllDelivered(pass, players, tasks);
            players.Keys == after.Keys && forall k :: k in players ==> players[k].pending == after[k].pending
    decreases |tasks|
  {
    if tasks != [] {
      var task := tasks[0];
      if task.future.Some? && IsCurrent(players, pass.epoch, task) {
        HandledKeepsPending(pass.scope, players[task.key], task.future.value, pass.now, pass.native(task.key));
      }
      DeliveriesKeepPending(pass, Delivered(pass, players, task), tasks[1..]);
    }
  }

  lemma DueFetchKeepsPending(s: State, key: Key, now: int)
    requires key in s.players
    ensures KeepsPending(s, DueFetch(s, key, now))
  {
  }

  lemma DueSeedKeepsPending(s: State, key: Key, native: Native)
    requires key in s.players
    ensures KeepsPending(s, DueSeed(s, key, native))
  {
    TrySeedKeepsRecord(s.players[key], native);
  }

  lemma VisitKeepsPending(s: State, key: Key, now: int, native: Native)
    ensures KeepsPending(s, Visited(s, key, now, native))
  {
    if key in s.players {
      DueFetchKeepsPending(s, key, now);
      DueSeedKeepsPending(DueFetch(s, key, now), key, native);
    }
  }

  lemma {:induction false} VisitsKeepPending(s: State, order: seq<Key>, now: int, native: Key -> Native)
    ensures KeepsPending(s, AllVisited(s, order, now, native))
  {
    if order != [] {
      var n := |order| - 1;
      VisitsKeepPending(s, order[..n], now, native);
      VisitKeepsPending(AllVisited(s, order[..n], now, native), order[n], now, native(order[n]));
    }
  }

  lemma TickVisitsKeepPending(s: State, world: Option<World>, order: seq<Key>, now: int, native: Key -> Native)
    ensures KeepsPending(BindWorld(s, world), TickVisits(s, world, order, now, native))
  {
    var b := BindWorld(s, world);
    DeliveriesKeepPending(Pass(b.scope, b.epoch, now, native), b.players, b.tasks);
    VisitsKeepPending(Consume(b, now, native), order, now, native);
  }

  // ---- What ends a wait ----

  /** The role waits in this record until the deadline. */
  predicate WaitsUntil(s: State, key: Key, role: string, deadline: int) {
    key in s.players && Policy.Waits(s.players[key].pending, role) && s.players[key].pending.deadline == deadline
  }

  /** The tick lets the role go. */
  predicate LetsGo(s: State, e: Event, key: Key, role: string) {
    e.TickEvent? && key in Next(s, e).players && Policy.Replays(Next(s, e).players[key].pending, role)
  }

  /** The record goes, or its role is committed, rebound or replaced by a request for another one. */
  predicate Ends(s: State, e: Event, key: Key, role: string)
    requires key in s.players
  {
    key !in Next(s, e).players ||
    ((e.CommitEvent? || e.RebindEvent?) && e.controller == s.players[key].controller) ||
    (e.ConfirmEvent? && e.controller == s.players[key].controller && e.role != role)
  }

  /** The record is not polled: a fresh role is to be selected and its containers are not seeded. */
  predicate IsHeld(s: State, key: Key) {
    key in s.players && s.players[key].freshRole && !s.players[key].seeded
  }

  lemma PollOfWaiting(p: Connection, role: string, now: int)
    requires Policy.Waits(p.pending, role)
    ensures var q := PolledConnection(p, now);
            q.freshRole == p.freshRole && q.seeded == p.seeded &&
            (Policy.Replays(q.pending, role) ||
             (q.pending == p.pending && (now >= p.pending.deadline ==> p.freshRole && !p.seeded)))
  {
  }

  /** A tick lets a waiting role go or leaves it waiting; at or after the deadline the latter only if it is held. */
  lemma TickOnWaiting(s: State, e: Event, key: Key, role: string, deadline: int)
    requires e.TickEvent? && s.active && WaitsUntil(s, key, role, deadline) && key in Next(s, e).players
    ensures LetsGo(s, e, key, role) ||
            (WaitsUntil(Next(s, e), key, role, deadline) && (e.now >= deadline ==> IsHeld(Next(s, e), key)))
  {
    var v := TickVisits(s, e.world, e.order, e.now, e.native);
    TickVisitsKeepPending(s, e.world, e.order, e.now, e.native);
    assert BindWorld(s, e.world).players == s.players;
    PollOfWaiting(v.players[key], role, e.now);
  }

  lemma ConfirmedKeepsWaiting(options: Options, p: Connection, role: string, now: int, native: Native, prepares: bool)
    requires Policy.Waits(p.pending, role)
    ensures var q := Confirmed(options, p, role, now, native, prepares).0;
            q.key == p.key && Policy.Waits(q.pending, role) && q.pending.deadline == p.pending.deadline
  {
    TrySeedKeepsRecord(p, native);
  }

  lemma ConfirmLeavesOthers(s: State, e: Event, key: Key)
    requires Invariant(s) && e.ConfirmEvent? && key in s.players && s.players[key].controller != e.controller
    ensures key in Next(s, e).players && Next(s, e).players[key] == s.players[key]
  {
    if Knows(s, e.controller) {
      var p := s.players[s.bindings[e.controller]];
      ConfirmedIsSound(s.options, p, e.role, e.now, e.answer, e.prepares);
    }
  }

  lemma OthersAreLeftAlone(s: State, e: Event, key: Key)
    requires Invariant(s) && IsRecordEvent(e) && key in s.players && s.players[key].controller != e.controller
    ensures key in Next(s, e).players && Next(s, e).players[key] == s.players[key]
  {
    if e.ConfirmEvent? {
      ConfirmLeavesOthers(s, e, key);
    }
  }

  lemma OwnConfirmKeepsWaiting(s: State, e: Event, key: Key, role: string, deadline: int)
    requires Invariant(s) && e.ConfirmEvent? && WaitsUntil(s, key, role, deadline)
    requires key == s.bindings[s.players[key].controller] && s.players[key].controller == e.controller && e.role == role
    ensures WaitsUntil(Next(s, e), key, role, deadline)
  {
    ConfirmedKeepsWaiting(s.options, s.players[key], role, e.now, e.answer, e.prepares);
  }

  lemma OwnEventKeepsWaiting(s: State, e: Event, key: Key, role: string, deadline: int)
    requires Invariant(s) && (e.OverrideEvent? || e.FreshEvent?) && WaitsUntil(s, key, role, deadline)
    requires key == s.bindings[s.players[key].controller] && s.players[key].controller == e.controller
    ensures WaitsUntil(Next(s, e), key, role, deadline)
  {
  }

  lemma FinishReplayKeepsWaiting(s: State, done: Key, key: Key, role: string, deadline: int)
    requires WaitsUntil(s, key, role, deadline)
    ensures WaitsUntil(FinishReplay(s, done), key, role, deadline)
  {
  }

  lemma ConnectKeepsWaiting(s: State, e: Event, key: Key, role: string, deadline: int)
    requires Invariant(s) && e.ConnectEvent? && WaitsUntil(s, key, role, deadline) && key in Next(s, e).players
    ensures WaitsUntil(Next(s, e), key, role, deadline)
  {
    ConnectKeepsRecord(s, e.controller, e.world, e.hasAuthority, e.playerId, e.now, key);
  }

  /** A waiting role goes on waiting, with its deadline, unless something ends the wait or a tick lets it go. */
  lemma StepOnWaiting(s: State, e: Event, key: Key, role: string, deadline: int)
    requires Invariant(s) && WaitsUntil(s, key, role, deadline) && !Ends(s, e, key, role)
    ensures LetsGo(s, e, key, role) || WaitsUntil(Next(s, e), key, role, deadline)
  {
    if e.TickEvent? {
      TickOnWaiting(s, e, key, role, deadline);
    } else if e.ConnectEvent? {
      ConnectKeepsWaiting(s, e, key, role, deadline);
    } else if OnlyRemoves(e) {
      RemovalKeepsRecords(s, e);
    } else if e.FinishReplayEvent? {
      FinishReplayKeepsWaiting(s, e.key, key, role, deadline);
    } else if s.players[key].controller != e.controller {
      OthersAreLeftAlone(s, e, key);
    } else if e.ConfirmEvent? {
      OwnConfirmKeepsWaiting(s, e, key, role, deadline);
    } else {
      OwnEventKeepsWaiting(s, e, key, role, deadline);
    }
  }

  lemma StepOfRun(run: Run, m: nat, key: Key, role: string, deadline: int)
    requires run.Valid() && m < |run.events| && WaitsUntil(run.states[m], key, role, deadline)
    ensures var s, e, t := run.states[m], run.events[m], run.states[m + 1];
            if WaitsUntil(t, key, role, deadline) then e.TickEvent? && e.now >= deadline ==> IsHeld(t, key)
            else Ends(s, e, key, role) || LetsGo(s, e, key, role)
  {
    assert run.StepsAt(m);
    RunKeepsInvariant(run, m);
    var s, e := run.states[m], run.events[m];
    if !Ends(s, e, key, role) {
      StepOnWaiting(s, e, key, role, deadline);
    }
    if e.TickEvent? && key in Next(s, e).players {
      TickOnWaiting(s, e, key, role, deadline);
    }
  }

  /** A role that waits is let go by the first tick at or after its deadline at the latest. The exceptions: before, the
      record went or the role was committed, rebound or replaced; or the record is held for a fresh role. Until then
      it waits, and its deadline does not move. */
  lemma {:induction false} WaitEndsByDeadline(run: Run, i: nat, n: nat, key: Key, role: string, deadline: int)
    returns (m: nat)
    requires run.Valid() && i <= n < |run.events| && WaitsUntil(run.states[i], key, role, deadline)
    requires run.events[n].TickEvent? && run.events[n].now >= deadline
    ensures i <= m <= n && WaitsUntil(run.states[m], key, role, deadline)
    ensures forall k :: i <= k <= m ==> WaitsUntil(run.states[k], key, role, deadline)
    ensures if WaitsUntil(run.states[m + 1], key, role, deadline) then m == n && IsHeld(run.states[n + 1], key)
            else Ends(run.states[m], run.events[m], key, role) || LetsGo(run.states[m], run.events[m], key, role)
    decreases n - i
  {
    StepOfRun(run, i, key, role, deadline);
    if i == n || !WaitsUntil(run.states[i + 1], key, role, deadline) {
      m := i;
    } else {
      m := WaitEndsByDeadline(run, i + 1, n, key, role, deadline);
    }
  }
}
