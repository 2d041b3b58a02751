/** What each operation of the loadout manager changes, written out over its arguments
    (Payload/Loadout/LoadoutManager.cpp:153-159, 397-426, 531-596, 667-816, 971-1340, 1748-1806). */
module LoadoutEffects {
  import opened Basics
  import opened LoadoutInvariant
  import opened LoadoutSpec
  import Policy = RoleConfirmation

  // ---- Roles and seeds ----

  /** 1 to 128 characters without blanks, slashes and quotes, and not None. */
  predicate IsRoleId(role: string) {
    1 <= |role| <= 128 && role != "None" &&
    forall k :: 0 <= k < |role| ==>
      role[k] != ' ' && !('\t' <= role[k] <= '\r') && role[k] != '/' && role[k] != '\\' && role[k] != '"' &&
      role[k] != '\''
  }

  lemma RoleIdsAgree(role: string)
    ensures UsableRole(role) <==> IsRoleId(role)
  {
  }

  predicate Counts(role: FetchedRole) {
    IsRoleId(role.roleId) && role.baseline.Some?
  }

  /** The baselines of the valid roles with a usable id; of two with one id the first. */
  predicate AreBaselines(baselines: map<string, Baseline>, roles: seq<FetchedRole>) {
    (forall id :: id in baselines ==> exists i :: 0 <= i < |roles| && Counts(roles[i]) && roles[i].roleId == id) &&
    forall i :: 0 <= i < |roles| && Counts(roles[i]) && IsFirst(roles, i) ==>
      roles[i].roleId in baselines && baselines[roles[i].roleId] == roles[i].baseline.value
  }

  /** No earlier role that counts has the id. */
  predicate IsFirst(roles: seq<FetchedRole>, i: nat)
    requires i < |roles|
  {
    forall j :: 0 <= j < i ==> !(Counts(roles[j]) && roles[j].roleId == roles[i].roleId)
  }

  lemma {:induction false} BaselinesExactly(roles: seq<FetchedRole>)
    ensures AreBaselines(BaselinesOf(roles), roles)
  {
    if roles != [] {
      var n := |roles| - 1;
      var front, last := roles[..n], roles[n];
      BaselinesExactly(front);
      RoleIdsAgree(last.roleId);
      OneMoreRole(BaselinesOf(front), front, last);
      assert roles == front + [last];
    }
  }

  lemma OneMoreRole(baselines: map<string, Baseline>, front: seq<FetchedRole>, last: FetchedRole)
    requires AreBaselines(baselines, front)
    ensures AreBaselines(if Counts(last) && last.roleId !in baselines then baselines[last.roleId := last.baseline.value]
                         else baselines, front + [last])
  {
    var roles := front + [last];
    var after := if Counts(last) && last.roleId !in baselines then baselines[last.roleId := last.baseline.value]
                 else baselines;
    assert forall i :: 0 <= i < |front| ==> roles[i] == front[i];
    forall id | id in after ensures exists i :: 0 <= i < |roles| && Counts(roles[i]) && roles[i].roleId == id {
      if id in baselines {
        var i :| 0 <= i < |front| && Counts(front[i]) && front[i].roleId == id;
        assert Counts(roles[i]) && roles[i].roleId == id;
      } else {
        assert roles[|front|].roleId == id;
      }
    }
    forall i | 0 <= i < |roles| && Counts(roles[i]) && IsFirst(roles, i)
      ensures roles[i].roleId in after && after[roles[i].roleId] == roles[i].baseline.value
    {
      if i < |front| {
        assert IsFirst(front, i);
      } else {
        NotThereYet(baselines, front, last.roleId);
      }
    }
  }

  lemma NotThereYet(baselines: map<string, Baseline>, roles: seq<FetchedRole>, id: string)
    requires AreBaselines(baselines, roles)
    requires forall j :: 0 <= j < |roles| ==> !(Counts(roles[j]) && roles[j].roleId == id)
    ensures id !in baselines
  {
  }

  /** The containers get seeded now: a seed is needed and missing, baselines are there, the client has travelled, the
      containers are ready, and seeding works. */
  predicate GetsSeeded(p: Connection, native: Native) {
    (p.gateActive || p.freshRole) && !p.seeded && p.completed && native.travelled && p.baselines != map[] &&
    p.containersReady && native.seeds
  }

  lemma SeedExactly(p: Connection, native: Native)
    ensures TrySeed(p, native) == p.(seeded := p.seeded || GetsSeeded(p, native))
  {
  }

  // ---- The result of a fetch ----

  /** What is waited after so many failures, in milliseconds. */
  function Wait(failures: nat): int {
    if failures == 1 then 500 else if failures == 2 then 2000 else if failures == 3 then 10000 else 30000
  }

  /** The record after taking the loadouts in. */
  predicate TookIn(p: Connection, roles: seq<FetchedRole>, native: Native, q: Connection) {
    AreBaselines(q.baselines, roles) &&
    var taken := p.(inFlight := false, completed := true, terminal := false, baselines := q.baselines);
    q == taken.(seeded := p.seeded || GetsSeeded(taken, native))
  }

  /** A failed attempt that is tried again. */
  predicate Postponed(p: Connection, now: int, q: Connection) {
    q == p.(inFlight := false, failedAttempts := p.failedAttempts + 1, nextFetchAt := now + Wait(p.failedAttempts + 1))
  }

  /** What a result makes of its record: loadouts of another player end it for good when they are the tunnel user's own;
      others complete it; a failure is retried or ends it for good; an exception is retried, with what was taken in. */
  predicate Outcome(scope: Scope, p: Connection, result: FetchResult, now: int, native: Native, q: Connection) {
    match result
    case Loaded(playerId, roles) =>
      if scope == CurrentTunnelUser && playerId != p.key.playerId then q == p.(inFlight := false, terminal := true)
      else TookIn(p, roles, native, q)
    case Failed(retryable) =>
      if retryable then Postponed(p, now, q)
      else q == p.(inFlight := false, failedAttempts := p.failedAttempts + 1, terminal := true)
    case Threw => Postponed(p, now, q)
    case Broken(playerId, roles, completed) =>
      if scope == CurrentTunnelUser && playerId != p.key.playerId then q == p.(inFlight := false, terminal := true)
      else if completed then
        TookIn(p, roles, native, q.(failedAttempts := p.failedAttempts, nextFetchAt := p.nextFetchAt)) &&
        q.failedAttempts == p.failedAttempts + 1 && q.nextFetchAt == now + Wait(q.failedAttempts)
      else AreBaselines(q.baselines, roles) && Postponed(p.(baselines := q.baselines), now, q)
  }

  lemma TakenExactly(p: Connection, roles: seq<FetchedRole>, native: Native)
    ensures TookIn(p, roles, native, Taken(p, roles, native))
  {
    BaselinesExactly(roles);
    SeedExactly(p.(inFlight := false, baselines := BaselinesOf(roles), completed := true, terminal := false), native);
  }

  lemma RetriedExactly(p: Connection, now: int)
    ensures Postponed(p, now, Retried(p, now))
  {
  }

  lemma BrokenExactly(p: Connection, roles: seq<FetchedRole>, completed: bool, now: int, native: Native)
    ensures var q := BrokenOff(p, roles, completed, now, native);
            if completed then
              TookIn(p, roles, native, q.(failedAttempts := p.failedAttempts, nextFetchAt := p.nextFetchAt)) &&
              q.failedAttempts == p.failedAttempts + 1 && q.nextFetchAt == now + Wait(q.failedAttempts)
            else AreBaselines(q.baselines, roles) && Postponed(p.(baselines := q.baselines), now, q)
  {
    BaselinesExactly(roles);
    TakenExactly(p, roles, native);
    if completed {
      var q := BrokenOff(p, roles, completed, now, native);
      assert q.(failedAttempts := p.failedAttempts, nextFetchAt := p.nextFetchAt) == Taken(p, roles, native);
    }
  }

  lemma HandledExactly(scope: Scope, p: Connection, result: FetchResult, now: int, native: Native)
    ensures Outcome(scope, p, result, now, native, Handled(scope, p, result, now, native))
  {
    match result
    case Loaded(_, roles) => TakenExactly(p, roles, native);
    case Failed(_) => RetriedExactly(p, now);
    case Threw => RetriedExactly(p, now);
    case Broken(_, roles, completed) => BrokenExactly(p, roles, completed, now, native);
  }

  /** A finished task reaches the record of its key, if there is one with this very key and the epoch is still its own;
      otherwise nothing changes. */
  lemma DeliveredExactly(pass: Pass, players: map<Key, Connection>, task: FetchTask)
    ensures var after := Delivered(pass, players, task);
            if task.future.Some? && task.key in players && players[task.key].key == task.key && task.epoch == pass.epoch
            then task.key in after && after == players[task.key := after[task.key]] &&
                 Outcome(pass.scope, players[task.key], task.future.value, pass.now, pass.native(task.key),
                         after[task.key])
            else after == players
  {
    if task.future.Some? && task.key in players {
      HandledExactly(pass.scope, players[task.key], task.future.value, pass.now, pass.native(task.key));
    }
  }

  // ---- Servers and worlds ----

  /** Nothing of the old connections is left. */
  predicate IsEmptied(t: State) {
    t.players == map[] && t.bindings == map[]
  }

  /** A start empties everything in any case; it activates, with the given settings, only if it is accepted. */
  lemma StartExactly(s: State, accepted: bool, scope: Scope, options: Options)
    ensures var t := Start(s, accepted, scope, options);
            IsEmptied(t) && t.tasks == [] && !t.hasWorld && t.world == None && t.nextGeneration == s.nextGeneration &&
            t.active == accepted && t.epoch == s.epoch + (if accepted then 2 else 1) &&
            (if accepted then t.scope == scope && t.options == options
             else t.scope == s.scope && t.options == s.options)
  {
  }

  lemma StopExactly(s: State)
    ensures var t := Stop(s);
            IsEmptied(t) && t.tasks == [] && !t.hasWorld && t.world == None && t.nextGeneration == s.nextGeneration &&
            !t.active && t.epoch == s.epoch + 1 && t.scope == s.scope && t.options == s.options
  {
  }

  /** The first world is noted; another one empties the connections under a new epoch, but keeps the tasks. */
  lemma WorldExactly(s: State, world: Option<World>)
    ensures var t := BindWorld(s, world);
            if s.hasWorld && s.world != world then
              IsEmptied(t) && t.epoch == s.epoch + 1 &&
              t == s.(players := t.players, bindings := t.bindings, epoch := t.epoch, world := world)
            else t == s.(hasWorld := true, world := world)
  {
  }

  lemma ResetExactly(s: State, world: Option<World>)
    ensures var t := ResetMatch(s, world);
            if s.active then
              IsEmptied(t) && t.epoch == s.epoch + 1 && (t.hasWorld <==> world.Some?) &&
              t == s.(players := t.players, bindings := t.bindings, epoch := t.epoch, world := world,
                      hasWorld := t.hasWorld)
            else t == s
  {
  }

  // ---- Connections ----

  /** A new connection of the active server: a fresh generation, a binding, a blank record whose fetch is under way or,
      with baselines switched off, over. */
  lemma ConnectExactly(s: State, controller: Controller, world: Option<World>, hasAuthority: bool, playerId: string,
                       now: int)
    ensures var b, t := BindWorld(s, world), Connect(s, controller, world, hasAuthority, playerId, now);
            if !s.active then t == s
            else if controller in b.bindings || !hasAuthority || playerId == "" then t == b
            else
              var key := Key(playerId, b.nextGeneration);
              t == b.(nextGeneration := b.nextGeneration + 1, bindings := b.bindings[controller := key],
                      players := t.players, tasks := t.tasks) &&
              t.tasks == b.tasks + (if b.options.baselineOverride then [FetchTask(key, b.epoch, None)] else []) &&
              key in t.players && t.players == b.players[key := t.players[key]] &&
              t.players[key] ==
                Connection(key, controller, map[], map[], b.options.baselineOverride, false,
                           !b.options.baselineOverride, 0, now, "", false, false, false, false,
                           Policy.Pending(false, false, "", 0, Policy.Fallback))
  {
  }

  lemma DisconnectExactly(s: State, controller: Controller)
    ensures var t := Disconnect(s, controller);
            if controller in s.bindings then
              t == s.(players := t.players, bindings := t.bindings) &&
              (forall k :: k in t.players <==> k in s.players && k != s.bindings[controller]) &&
              (forall k :: k in t.players ==> t.players[k] == s.players[k]) &&
              (forall c :: c in t.bindings <==> c in s.bindings && c != controller) &&
              forall c :: c in t.bindings ==> t.bindings[c] == s.bindings[c]
            else t == s
  {
  }

  /** A worker's result fills its own empty future. */
  lemma FinishExactly(s: State, i: nat, result: FetchResult)
    ensures var t := Finish(s, i, result);
            t == s.(tasks := t.tasks) && |t.tasks| == |s.tasks| &&
            forall k :: 0 <= k < |s.tasks| ==>
              var task := s.tasks[k];
              t.tasks[k] == if k == i && task.future.None? then FetchTask(task.key, task.epoch, Some(result)) else task
  {
  }

  // ---- Confirmations ----

  /** A poll lets a waiting role go when it has a baseline or an override, when the fetch is over, or when its time is
      up, unless a fresh role is to be selected and not seeded; the decision is Ready in the first case only. */
  lemma PollExactly(p: Connection, now: int)
    ensures var q := PolledConnection(p, now);
            var effective := p.pending.roleId in p.overrides || p.pending.roleId in p.baselines;
            var goes := p.pending.active && !p.pending.replaying && (!p.freshRole || p.seeded) &&
                        (effective || p.completed || p.terminal || now >= p.pending.deadline);
            q == p.(pending := q.pending) && (Released(p, now) <==> goes) &&
            q.pending == if goes then p.pending.(replaying := true,
                                                 replayDecision := if effective then Policy.Ready else Policy.Fallback)
                         else p.pending
  {
  }

  /** The records whose role a poll of all of them lets go. */
  lemma ReleasedExactly(s: State, now: int, key: Key)
    ensures key in ReleasedKeys(s, now) <==>
              key in s.players &&
              var p := s.players[key];
              p.pending.active && !p.pending.replaying && (!p.freshRole || p.seeded) &&
              (p.pending.roleId in p.overrides || p.pending.roleId in p.baselines || p.completed || p.terminal ||
               now >= p.pending.deadline)
    ensures PollAll(s, now).players.Keys == s.players.Keys
    ensures key in s.players ==> PollAll(s, now).players[key] == PolledConnection(s.players[key], now)
    ensures PollAll(s, now) == s.(players := PollAll(s, now).players)
  {
    if key in s.players {
      PollExactly(s.players[key], now);
    }
  }

  /** A fresh role is to be selected, and the containers are not seeded even now. */
  predicate WaitsForSeed(p: Connection, native: Native) {
    p.freshRole && !p.seeded && !GetsSeeded(p, native)
  }

  /** The answer to a request for a role. It waits for a seed of a fresh role; otherwise, with deferral, a role being
      replayed gets the decision of the replay, and one without baseline and override waits for the fetch. Ready takes a
      seeded record or a pre-order that works. */
  function Answer(options: Options, p: Connection, role: string, native: Native, prepares: bool): Policy.Decision {
    var effective := role in p.overrides || role in p.baselines;
    var seeded := (p.gateActive || p.freshRole) && (p.seeded || (p.freshRole && GetsSeeded(p, native)));
    var replayed := options.confirmDeferral && p.pending.replaying && p.pending.roleId == role;
    if WaitsForSeed(p, native) then Policy.Deferred
    else if replayed && p.pending.replayDecision != Policy.Ready then p.pending.replayDecision
    else if replayed && !effective then Policy.Ready
    else if effective then (if seeded || prepares then Policy.Ready else Policy.Fallback)
    else if options.confirmDeferral && !p.completed && !p.terminal then Policy.Deferred
    else Policy.Fallback
  }

  lemma AnswerExactly(options: Options, p: Connection, role: string, now: int, native: Native, prepares: bool)
    ensures var r := Confirmed(options, p, role, now, native, prepares);
            r.1 == Answer(options, p, role, native, prepares) &&
            r.0 == p.(pending := r.0.pending, seeded := p.seeded || (p.freshRole && GetsSeeded(p, native)))
  {
    SeedExactly(p, native);
  }

  /** What a request leaves pending: a role that is put off waits, with its deadline if it waited already and one second
      from now otherwise; a failed pre-order makes the replay's decision Fallback; nothing else changes it. */
  lemma PendingExactly(options: Options, p: Connection, role: string, now: int, native: Native, prepares: bool)
    ensures var q := Confirmed(options, p, role, now, native, prepares).0.pending;
            var effective := role in p.overrides || role in p.baselines;
            var seeded := (p.gateActive || p.freshRole) && (p.seeded || (p.freshRole && GetsSeeded(p, native)));
            var replayed := options.confirmDeferral && Policy.Replays(p.pending, role);
            if Answer(options, p, role, native, prepares) == Policy.Deferred && !Policy.Replays(p.pending, role) then
              q == if p.pending.active && p.pending.roleId == role then p.pending
                   else Policy.Pending(true, false, role, now + 1000, p.pending.replayDecision)
            else if !WaitsForSeed(p, native) && effective && !seeded && !prepares &&
                    (replayed ==> p.pending.replayDecision == Policy.Ready) then
              q == p.pending.(replayDecision := Policy.Fallback)
            else q == p.pending
  {
    SeedExactly(p, native);
  }

  /** The request of an unknown player, to a stopped server or for an unusable role is answered with Fallback and
      changes nothing; any other changes only its own record. */
  lemma RequestExactly(s: State, controller: Controller, role: string, now: int, native: Native, prepares: bool)
    requires Invariant(s)
    ensures var r := BeginConfirmation(s, controller, role, now, native, prepares);
            if !s.active || controller !in s.bindings || !IsRoleId(role) then r == (s, Policy.Fallback)
            else
              var key := s.bindings[controller];
              var answer := Confirmed(s.options, s.players[key], role, now, native, prepares);
              r == (s.(players := s.players[key := answer.0]), answer.1)
  {
    RoleIdsAgree(role);
    if s.active && Knows(s, controller) {
      ConfirmedIsSound(s.options, s.players[s.bindings[controller]], role, now, native, prepares);
    }
  }

  /** The state with the one record of this controller changed so. */
  predicate ChangesOnly(s: State, controller: Controller, q: Connection, t: State) {
    controller in s.bindings && t == s.(players := s.players[s.bindings[controller] := q])
  }

  predicate IsServed(s: State, controller: Controller) {
    s.active && controller in s.bindings
  }

  /** The role is selected, nothing is pending, and a fresh role is no longer to be selected. */
  lemma CommitExactly(s: State, controller: Controller, role: string)
    requires Invariant(s)
    ensures var t := Commit(s, controller, role);
            if IsServed(s, controller) && IsRoleId(role) then
              var p := s.players[s.bindings[controller]];
              ChangesOnly(s, controller, p.(selectedRole := role, freshRole := false, pending :=
                                              p.pending.(active := false, replaying := false)), t)
            else t == s
  {
    RoleIdsAgree(role);
  }

  /** A pre-order that the client made itself, and that was published, overrides its role. */
  lemma OverrideExactly(s: State, controller: Controller, role: string, contentHash: int, internal: bool, matches: bool)
    requires Invariant(s)
    ensures var t := Override(s, controller, role, contentHash, internal, matches);
            if IsServed(s, controller) && s.options.preOrderIntercept && !internal && IsRoleId(role) && matches then
              var p := s.players[s.bindings[controller]];
              ChangesOnly(s, controller, p.(overrides := p.overrides[role := contentHash]), t)
            else t == s
  {
    RoleIdsAgree(role);
  }

  /** The role is selected behind the gate; the containers are ready and to be seeded; nothing is pending. */
  lemma RebindExactly(s: State, controller: Controller, role: string, normalized: bool)
    requires Invariant(s)
    ensures var t := RebindRole(s, controller, role, normalized);
            if IsServed(s, controller) && IsRoleId(role) && normalized then
              var p := s.players[s.bindings[controller]];
              var pending := p.pending.(active := false, replaying := false);
              ChangesOnly(s, controller, p.(selectedRole := role, gateActive := true, containersReady := true,
                                            seeded := false, pending := pending), t)
            else t == s
  {
    RoleIdsAgree(role);
  }

  /** A fresh role is to be selected, and the containers are to be seeded if they could be normalized. */
  lemma FreshExactly(s: State, controller: Controller, normalized: bool)
    requires Invariant(s)
    ensures var t := PrepareFresh(s, controller, normalized);
            if IsServed(s, controller) then
              var p := s.players[s.bindings[controller]];
              ChangesOnly(s, controller, p.(freshRole := true, seeded := false, containersReady := normalized), t)
            else t == s
  {
  }

  /** A replay that did not commit leaves nothing pending. */
  lemma ReplayEndExactly(s: State, key: Key)
    ensures var t := FinishReplay(s, key);
            if key in s.players && s.players[key].pending.replaying then
              t == s.(players := s.players[key := s.players[key].(pending :=
                                   s.players[key].pending.(active := false, replaying := false))])
            else t == s
  {
  }
}
