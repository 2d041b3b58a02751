/** The loadout manager object (Payload/Loadout/LoadoutManager.cpp:397-481, 667-816, 971-1340, 1700-1807), method by
    method against LoadoutSpec. */
module LoadoutManagement {
  import opened Basics
  import opened LoadoutInvariant
  import opened LoadoutSpec
  import opened RoleConfirmation

  class LoadoutManager {
    var active: bool
    var epoch: nat
    var nextGeneration: nat
    var scope: Scope
    var options: Options
    var hasWorld: bool
    var world: Option<World>
    var players: map<Key, Connection>
    var bindings: map<Controller, Key>
    var tasks: seq<FetchTask>

    constructor ()
      ensures Valid() && Snapshot() == INITIAL
      ensures !active && epoch == 0 && nextGeneration == 1 && players == map[] && bindings == map[] && tasks == []
    {
      active, epoch, nextGeneration, scope := false, 0, 1, RoomMember;
      options, hasWorld, world := Options(false, false, false), false, None;
      players, bindings, tasks := map[], map[], [];
    }

    function Snapshot(): State
      reads this
    {
      State(active, epoch, nextGeneration, scope, options, hasWorld, world, players, bindings, tasks)
    }

    predicate Valid()
      reads this
    {
      Invariant(Snapshot())
    }

    method Discard(current: Option<World>, bound: bool)
      modifies this
      ensures Snapshot() == Discarded(old(Snapshot()), current, bound)
    {
      epoch := epoch + 1;
      players, bindings := map[], map[];
      world, hasWorld := current, bound;
    }

    method BindCurrentWorld(current: Option<World>)
      requires Valid()
      modifies this
      ensures Valid() && Snapshot() == BindWorld(old(Snapshot()), current)
    {
      DiscardedKeepsInvariant(Snapshot(), current, true);
      if !hasWorld {
        world, hasWorld := current, true;
        return;
      }
      if current == world {
        return;
      }
      Discard(current, true);
    }

    method ResetForMatchGeneration(current: Option<World>)
      requires Valid()
      modifies this
      ensures Valid() && Snapshot() == ResetMatch(old(Snapshot()), current)
    {
      DiscardedKeepsInvariant(Snapshot(), current, current.Some?);
      if active {
        Discard(current, current.Some?);
      }
    }

    method StopServer()
      requires Valid()
      modifies this
      ensures Valid() && Snapshot() == Stop(old(Snapshot()))
    {
      active := false;
      Discard(None, false);
      tasks := [];
    }

    method StartServer(accepted: bool, newScope: Scope, newOptions: Options) returns (started: bool)
      requires Valid()
      modifies this
      ensures Valid() && Snapshot() == Start(old(Snapshot()), accepted, newScope, newOptions) && started == accepted
    {
      StopServer();
      if !accepted {
        return false;
      }
      epoch := epoch + 1;
      options, scope, active := newOptions, newScope, true;
      started := true;
    }

    method StartOne(key: Key)
      requires key in players
      modifies this
      ensures Snapshot() == StartFetch(old(Snapshot()), key)
    {
      var p := players[key];
      if !active || p.inFlight || p.completed || p.terminal {
        return;
      }
      players := players[key := p.(inFlight := true)];
      tasks := tasks + [FetchTask(key, epoch, None)];
    }

    /** The worker of a task finishes; nothing else can touch a task from outside. */
    method FinishTask(i: nat, result: FetchResult)
      requires Valid()
      modifies this
      ensures Valid() && Snapshot() == Finish(old(Snapshot()), i, result)
    {
      FinishKeepsInvariant(Snapshot(), i, result);
      if i < |tasks| && tasks[i].future.None? {
        tasks := tasks[i := tasks[i].(future := Some(result))];
      }
    }

    method HandleFetchResult(key: Key, result: FetchResult, now: int, native: Native)
      requires key in players
      modifies this`players
      ensures players == old(players)[key := Handled(scope, old(players)[key], result, now, native)]
    {
      var p;
      match result {
        case Loaded(playerId, roles) =>
          var taken;
          p, taken := TakeLoadouts(players[key], playerId, roles, true, native);
        case Broken(playerId, roles, completed) =>
          p := HandleBroken(players[key], playerId, roles, completed, now, native);
        case Failed(retryable) =>
          p := HandleFailure(players[key], retryable, now);
        case Threw =>
          p := RetryLater(players[key], now);
      }
      players := players[key := p];
    }

    /** The loadouts are taken in up to an exception, which is then caught. */
    method HandleBroken(record: Connection, playerId: string, roles: seq<FetchedRole>, completed: bool, now: int,
                        native: Native)
      returns (p: Connection)
      ensures p == Handled(scope, record, Broken(playerId, roles, completed), now, native)
    {
      var taken;
      p, taken := TakeLoadouts(record, playerId, roles, completed, native);
      if taken {
        p := RetryLater(p, now);
      }
    }

    static method HandleFailure(record: Connection, retryable: bool, now: int) returns (p: Connection)
      ensures p == if retryable then Retried(record, now)
                   else record.(inFlight := false, failedAttempts := record.failedAttempts + 1, terminal := true)
    {
      if retryable {
        p := RetryLater(record, now);
      } else {
        p := record.(inFlight := false, failedAttempts := record.failedAttempts + 1, terminal := true);
      }
    }

    static method RetryLater(record: Connection, now: int) returns (p: Connection)
      ensures p == Retried(record, now)
    {
      p := record.(inFlight := false, failedAttempts := record.failedAttempts + 1);
      p := p.(nextFetchAt := now + RetryDelay(p.failedAttempts));
    }

    /** Takes in the roles and, unless an exception comes first, completes the record. */
    method TakeLoadouts(record: Connection, playerId: string, roles: seq<FetchedRole>, completes: bool, native: Native)
      returns (p: Connection, taken: bool)
      ensures taken <==> !(scope == CurrentTunnelUser && playerId != record.key.playerId)
      ensures p == if !taken then record.(inFlight := false, terminal := true)
                   else if completes then Taken(record, roles, native)
                   else record.(inFlight := false, baselines := BaselinesOf(roles))
    {
      p := record.(inFlight := false);
      if scope == CurrentTunnelUser && playerId != p.key.playerId {
        return p.(terminal := true), false;
      }
      var baselines := ReadRoles(roles);
      p, taken := p.(baselines := baselines), true;
      if completes {
        p := p.(completed := true, terminal := false);
        p := TrySeedRoles(p, native);
      }
    }

    /** Seeds the containers of a record that needs it, once it has baselines and its client has travelled. */
    static method TrySeedRoles(record: Connection, native: Native) returns (p: Connection)
      ensures p == TrySeed(record, native)
    {
      p := record;
      if !p.gateActive && !p.freshRole {
        return;
      }
      if p.seeded {
        return;
      }
      if !p.completed || !native.travelled || p.baselines == map[] {
        return;
      }
      if !p.containersReady {
        return;
      }
      p := p.(seeded := native.seeds);
    }

    method ReadRoles(roles: seq<FetchedRole>) returns (baselines: map<string, Baseline>)
      ensures baselines == BaselinesOf(roles)
    {
      baselines := map[];
      for i := 0 to |roles|
        invariant baselines == BaselinesOf(roles[..i])
      {
        assert roles[..i + 1][..i] == roles[..i];
        var role := roles[i];
        if UsableRole(role.roleId) && role.baseline.Some? && role.roleId !in baselines {
          baselines := baselines[role.roleId := role.baseline.value];
        }
      }
      assert roles[..|roles|] == roles;
    }

    method ConsumeFetchTasks(now: int, native: Key -> Native)
      requires Valid()
      modifies this
      ensures Valid() && Snapshot() == Consume(old(Snapshot()), now, native)
    {
      ConsumeKeepsInvariant(Snapshot(), now, native);
      WalkTasks(now, native);
    }

    /** Walks the tasks in place, delivering and erasing the finished ones. */
    method WalkTasks(now: int, native: Key -> Native)
      modifies this`players, this`tasks
      ensures Snapshot() == Consume(old(Snapshot()), now, native)
    {
      ghost var pass := Pass(scope, epoch, now, native);
      var at := 0;
      while at < |tasks|
        invariant at <= |tasks|
        invariant AllDelivered(pass, players, tasks[at..]) == AllDelivered(pass, old(players), old(tasks))
        invariant tasks[..at] + Unfinished(tasks[at..]) == Unfinished(old(tasks))
        decreases |tasks| - at
      {
        ghost var rest := tasks[at..];
        PassStep(pass, players, rest);
        assert rest[1..] == tasks[at + 1..];
        var task := tasks[at];
        if task.future.None? {
          assert tasks[..at + 1] + Unfinished(rest[1..]) == tasks[..at] + ([task] + Unfinished(rest[1..]));
          at := at + 1;
        } else {
          if IsCurrent(players, epoch, task) {
            HandleFetchResult(task.key, task.future.value, now, native(task.key));
          }
          EraseAt(tasks, at);
          tasks := tasks[..at] + tasks[at + 1..];
        }
      }
      assert tasks[..at] + Unfinished(tasks[at..]) == tasks;
    }

    method OnPlayerConnected(controller: Controller, current: Option<World>, hasAuthority: bool, playerId: string,
                             now: int)
      requires Valid()
      modifies this
      ensures Valid() && Snapshot() == Connect(old(Snapshot()), controller, current, hasAuthority, playerId, now)
    {
      ConnectKeepsInvariant(Snapshot(), controller, current, hasAuthority, playerId, now);
      if !active {
        return;
      }
      BindCurrentWorld(current);
      if controller in bindings || !hasAuthority || playerId == "" {
        return;
      }
      Join(controller, playerId, now);
    }

    method Join(controller: Controller, playerId: string, now: int)
      modifies this
      ensures Snapshot() == Joined(old(Snapshot()), controller, playerId, now)
    {
      var key := AddConnection(controller, playerId, now);
      if options.baselineOverride {
        StartOne(key);
      } else {
        players := players[key := players[key].(terminal := true)];
      }
    }

    method AddConnection(controller: Controller, playerId: string, now: int) returns (key: Key)
      modifies this
      ensures Snapshot() == Bound(old(Snapshot()), controller, playerId, now)
      ensures key == Key(playerId, old(nextGeneration)) && key in players
    {
      key := Key(playerId, nextGeneration);
      nextGeneration := nextGeneration + 1;
      var pending := Pending(false, false, "", 0, Fallback);
      var connection := Connection(key, controller, map[], map[], false, false, false, 0, 0, "", false, false, false,
                                   false, pending);
      connection := connection.(nextFetchAt := now);
      players := players[key := connection];
      bindings := bindings[controller := key];
    }

    method OnPlayerDisconnected(controller: Controller)
      requires Valid()
      modifies this
      ensures Valid() && Snapshot() == Disconnect(old(Snapshot()), controller)
    {
      DisconnectKeepsInvariant(Snapshot(), controller);
      if controller !in bindings {
        return;
      }
      players := players - {bindings[controller]};
      bindings := bindings - {controller};
    }

    /** The visit of one record by the tick: a due fetch starts, a missing seed is tried. */
    method Visit(key: Key, now: int, native: Native)
      modifies this
      ensures Snapshot() == Visited(old(Snapshot()), key, now, native)
    {
      if key !in players {
        return;
      }
      var p := players[key];
      if !p.inFlight && !p.completed && !p.terminal && now >= p.nextFetchAt {
        StartOne(key);
      }
      p := players[key];
      if (p.gateActive || p.freshRole) && !p.seeded {
        p := TrySeedRoles(p, native);
        players := players[key := p];
      }
    }

    /** The poll of one record: its confirmation stays put while a fresh role has no seed. */
    static method PollRecord(record: Connection, now: int) returns (p: Connection, decision: Option<Decision>)
      requires SoundRecord(record)
      ensures p == PolledConnection(record, now)
      ensures decision.Some? <==> Released(record, now)
    {
      p, decision := record, None;
      if p.freshRole && !p.seeded {
        return;
      }
      var hasEffective := p.pending.roleId in p.overrides || p.pending.roleId in p.baselines;
      var pending;
      pending, decision := PollPending(p.pending, hasEffective, p.completed || p.terminal, now);
      p := p.(pending := pending);
    }

    /** The loop over the records; the records that start replaying are collected. */
    static method PollRecords(before: map<Key, Connection>, now: int)
      returns (after: map<Key, Connection>, replays: set<Key>)
      requires SoundRecords(before)
      ensures after == map k | k in before :: PolledConnection(before[k], now)
      ensures replays == set k | k in before && Released(before[k], now)
    {
      after, replays := before, {};
      var remaining := before.Keys;
      while remaining != {}
        invariant remaining <= before.Keys == after.Keys
        invariant forall k :: k in before ==>
                    after[k] == if k in remaining then before[k] else PolledConnection(before[k], now)
        invariant forall k :: k in replays <==> k in before && k !in remaining && Released(before[k], now)
        decreases |remaining|
      {
        var key :| key in remaining;
        var p, decision := PollRecord(before[key], now);
        if decision.Some? {
          replays := replays + {key};
        }
        after := after[key := p];
        remaining := remaining - {key};
      }
      AllPolled(before, after, now);
    }

    method PollConfirmations(now: int) returns (replays: set<Key>)
      requires Valid()
      modifies this`players
      ensures Valid() && Snapshot() == PollAll(old(Snapshot()), now)
      ensures replays == ReleasedKeys(old(Snapshot()), now)
    {
      PollKeepsInvariant(Snapshot(), now);
      players, replays := PollRecords(players, now);
    }

    /** One tick up to its replays; `order` is the iteration order of the record table. */
    method TickServer(current: Option<World>, order: seq<Key>, now: int, native: Key -> Native)
      returns (replays: set<Key>)
      requires Valid()
      modifies this
      ensures Valid() && Snapshot() == Tick(old(Snapshot()), current, order, now, native)
      ensures replays ==
              if old(active) then ReleasedKeys(TickVisits(old(Snapshot()), current, order, now, native), now) else {}
    {
      replays := {};
      if !active {
        return;
      }
      BindCurrentWorld(current);
      ConsumeFetchTasks(now, native);
      ghost var consumed := Snapshot();
      for i := 0 to |order|
        invariant Snapshot() == AllVisited(consumed, order[..i], now, native)
      {
        assert order[..i + 1][..i] == order[..i];
        Visit(order[i], now, native(order[i]));
      }
      assert order[..|order|] == order;
      AllVisitedKeepsInvariant(consumed, order, now, native);
      replays := PollConfirmations(now);
    }

    method CompleteReplay(key: Key)
      requires Valid()
      modifies this`players
      ensures Valid() && Snapshot() == FinishReplay(old(Snapshot()), key)
    {
      if key in players && players[key].pending.replaying {
        CompletedKeepsInvariant(Snapshot(), key);
        var pending := CompletePending(players[key].pending);
        players := players[key := players[key].(pending := pending)];
      }
    }

    // The pending confirmation is a member of the record: the three operations work on it in place.

    static method CompletePending(p: Pending) returns (q: Pending)
      ensures q == Completed(p)
    {
      var pending := new PendingRoleConfirmation(p);
      pending.CompleteRoleConfirmation();
      q := pending.Snapshot();
    }

    static method PollPending(p: Pending, hasEffective: bool, settled: bool, now: int)
      returns (q: Pending, decision: Option<Decision>)
      requires Sound(p)
      ensures (q, decision) == Polled(p, hasEffective, settled, now)
    {
      var pending := new PendingRoleConfirmation(p);
      decision := pending.PollRoleConfirmation(hasEffective, settled, now);
      q := pending.Snapshot();
    }

    static method BeginPending(p: Pending, role: string, hasEffective: bool, settled: bool, now: int)
      returns (q: Pending, decision: Decision)
      requires Sound(p)
      ensures (q, decision) == Begun(p, role, hasEffective, settled, now, ROLE_CONFIRMATION_GRACE)
    {
      var pending := new PendingRoleConfirmation(p);
      decision := pending.BeginRoleConfirmation(role, hasEffective, settled, now, ROLE_CONFIRMATION_GRACE);
      q := pending.Snapshot();
    }

    method BeginRoleConfirmation(controller: Controller, role: string, now: int, native: Native, prepares: bool)
      returns (decision: Decision)
      requires Valid()
      modifies this`players
      ensures Valid()
      ensures (Snapshot(), decision) == BeginConfirmation(old(Snapshot()), controller, role, now, native, prepares)
    {
      if !active || controller !in bindings || bindings[controller] !in players || !UsableRole(role) {
        return Fallback;
      }
      var p := players[bindings[controller]];
      ConfirmedIsSound(options, p, role, now, native, prepares);
      UpdateKeepsInvariant(Snapshot(), Confirmed(options, p, role, now, native, prepares).0);
      p, decision := Confirm(p, role, now, native, prepares);
      players := players[p.key := p];
    }

    method Confirm(record: Connection, role: string, now: int, native: Native, prepares: bool)
      returns (p: Connection, decision: Decision)
      requires SoundRecord(record)
      ensures (p, decision) == Confirmed(options, record, role, now, native, prepares)
    {
      p := record;
      if p.freshRole && !p.seeded {
        p := TrySeedRoles(p, native);
        if !p.seeded {
          var pending, _ := BeginPending(p.pending, role, false, false, now);
          return p.(pending := pending), Deferred;
        }
      }
      var pending;
      pending, decision := Decide(p, role, now, prepares);
      p := p.(pending := pending);
    }

    /** The decision for a record that needs no seed any more. */
    method Decide(p: Connection, role: string, now: int, prepares: bool) returns (pending: Pending, decision: Decision)
      requires SoundRecord(p)
      ensures (pending, decision) == Decided(options, p, role, now, prepares)
    {
      var hasEffective := role in p.overrides || role in p.baselines;
      pending, decision := p.pending, if hasEffective then Ready else Fallback;
      if options.confirmDeferral {
        pending, decision := BeginPending(p.pending, role, hasEffective, p.completed || p.terminal, now);
      }
      if decision == Deferred {
        return;
      }
      var seededRole := (p.gateActive || p.freshRole) && p.seeded;
      if decision == Ready && !seededRole && hasEffective && !prepares {
        pending, decision := pending.(replayDecision := Fallback), Fallback;
      }
    }

    method CommitRoleConfirmation(controller: Controller, role: string)
      requires Valid()
      modifies this`players
      ensures Valid() && Snapshot() == Commit(old(Snapshot()), controller, role)
    {
      if !active || controller !in bindings || bindings[controller] !in players || !UsableRole(role) {
        return;
      }
      CommitKeepsInvariant(Snapshot(), controller, role);
      var p := players[bindings[controller]];
      var pending := CompletePending(p.pending);
      p := p.(selectedRole := role, freshRole := false, pending := pending);
      players := players[p.key := p];
    }

    method OnExternalPreOrderInventory(controller: Controller, role: string, contentHash: int, internal: bool,
                                       matches: bool)
      requires Valid()
      modifies this`players
      ensures Valid() && Snapshot() == Override(old(Snapshot()), controller, role, contentHash, internal, matches)
    {
      if !active || !options.preOrderIntercept || internal || controller !in bindings ||
         bindings[controller] !in players || !UsableRole(role) || !matches {
        return;
      }
      var p := players[bindings[controller]];
      p := p.(overrides := p.overrides[role := contentHash]);
      OverrideKeepsInvariant(Snapshot(), controller, role, contentHash);
      players := players[p.key := p];
    }

    method RebindSeamlessRole(controller: Controller, role: string, normalized: bool)
      requires Valid()
      modifies this`players
      ensures Valid() && Snapshot() == RebindRole(old(Snapshot()), controller, role, normalized)
    {
      if !active || !UsableRole(role) || controller !in bindings || bindings[controller] !in players || !normalized {
        return;
      }
      RebindKeepsInvariant(Snapshot(), controller, role);
      var p := players[bindings[controller]];
      var pending := CompletePending(p.pending);
      p := p.(selectedRole := role, gateActive := true, containersReady := true, seeded := false, pending := pending);
      players := players[p.key := p];
    }

    method PrepareFreshSeamlessRole(controller: Controller, normalized: bool)
      requires Valid()
      modifies this`players
      ensures Valid() && Snapshot() == PrepareFresh(old(Snapshot()), controller, normalized)
    {
      if !active || controller !in bindings || bindings[controller] !in players {
        return;
      }
      var p := players[bindings[controller]].(freshRole := true, seeded := false, containersReady := normalized);
      UpdateKeepsInvariant(Snapshot(), p);
      players := players[p.key := p];
    }
  }

  lemma EraseAt(tasks: seq<FetchTask>, at: nat)
    requires at < |tasks|
    ensures var erased := tasks[..at] + tasks[at + 1..]; erased[..at] == tasks[..at] && erased[at..] == tasks[at + 1..]
  {
  }

  lemma AllPolled(before: map<Key, Connection>, after: map<Key, Connection>, now: int)
    requires before.Keys == after.Keys && forall k :: k in before ==> after[k] == PolledConnection(before[k], now)
    ensures after == map k | k in before :: PolledConnection(before[k], now)
  {
  }
}
