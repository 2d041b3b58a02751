/** What every reachable loadout state satisfies, and that every step keeps it. */
module LoadoutInvariant {
  import opened Basics
  import opened LoadoutSpec
  import opened RoleConfirmation

  function Count(tasks: seq<FetchTask>, key: Key): nat {
    if tasks == [] then 0 else (if tasks[0].key == key then 1 else 0) + Count(tasks[1..], key)
  }

  /** Bindings and records are inverse to each other. */
  predicate Inverse(players: map<Key, Connection>, bindings: map<Controller, Key>) {
    (forall c :: c in bindings ==> bindings[c] in players && players[bindings[c]].controller == c) &&
    (forall k :: k in players ==> players[k].key == k && players[k].controller in bindings &&
                                  bindings[players[k].controller] == k)
  }

  predicate Generations(players: map<Key, Connection>, next: nat) {
    (forall k :: k in players ==> k.generation < next) &&
    (forall k, l :: k in players && l in players && k != l ==> k.generation != l.generation)
  }

  /** Tasks belong to keys already given out; those of live records are of the current epoch. */
  predicate TasksAreOld(players: map<Key, Connection>, tasks: seq<FetchTask>, epoch: nat, next: nat) {
    forall t :: t in tasks ==> t.key.generation < next && (t.key in players ==> t.epoch == epoch)
  }

  /** A record is in flight exactly when one task carries its key, and no key is carried twice. */
  predicate InFlightMatches(players: map<Key, Connection>, tasks: seq<FetchTask>) {
    forall k :: k in players ==> Count(tasks, k) == if players[k].inFlight then 1 else 0
  }

  predicate SoundRecord(p: Connection) {
    Sound(p.pending) && (p.inFlight ==> !p.completed && !p.terminal)
  }

  predicate SoundRecords(players: map<Key, Connection>) {
    forall k :: k in players ==> SoundRecord(players[k])
  }

  predicate Invariant(s: State) {
    Inverse(s.players, s.bindings) && Generations(s.players, s.nextGeneration) &&
    TasksAreOld(s.players, s.tasks, s.epoch, s.nextGeneration) && InFlightMatches(s.players, s.tasks) &&
    SoundRecords(s.players) && (!s.active ==> s.players == map[] && s.tasks == [])
  }

  // ---- Counting tasks ----

  lemma {:induction false} CountConcat(a: seq<FetchTask>, b: seq<FetchTask>, key: Key)
    ensures Count(a + b, key) == Count(a, key) + Count(b, key)
  {
    if a == [] {
      assert a + b == b;
    } else {
      CountConcat(a[1..], b, key);
      assert (a + b)[1..] == a[1..] + b;
    }
  }

  lemma CountOne(task: FetchTask, key: Key)
    ensures Count([task], key) == if task.key == key then 1 else 0
  {
    assert Count([task][1..], key) == 0;
  }

  lemma CountMiddle(a: seq<FetchTask>, task: FetchTask, b: seq<FetchTask>, key: Key)
    ensures Count(a + [task] + b, key) == Count(a + b, key) + if task.key == key then 1 else 0
  {
    CountConcat(a + [task], b, key);
    CountConcat(a, [task], key);
    CountConcat(a, b, key);
    CountOne(task, key);
  }

  lemma {:induction false} CountPresent(tasks: seq<FetchTask>, key: Key)
    ensures Count(tasks, key) > 0 <==> exists t :: t in tasks && t.key == key
  {
    if tasks != [] {
      CountPresent(tasks[1..], key);
      assert tasks == [tasks[0]] + tasks[1..];
    }
  }

  lemma {:induction false} CountUpdate(tasks: seq<FetchTask>, i: nat, task: FetchTask, key: Key)
    requires i < |tasks| && task.key == tasks[i].key
    ensures Count(tasks[i := task], key) == Count(tasks, key)
  {
    if i > 0 {
      CountUpdate(tasks[1..], i - 1, task, key);
      assert tasks[i := task][1..] == tasks[1..][i - 1 := task];
    } else {
      assert tasks[i := task][1..] == tasks[1..];
    }
  }

  // ---- Updates of one record ----

  /** What may change in a record without touching the bindings or the tasks. */
  predicate SameIdentity(p: Connection, q: Connection) {
    p.key == q.key && p.controller == q.controller
  }

  /** The fetch of this record is over for good. */
  predicate Settled(p: Connection) {
    p.completed || p.terminal
  }

  /** The same outcome of the fetch. */
  predicate SameOutcome(p: Connection, q: Connection) {
    p.completed == q.completed && p.terminal == q.terminal && p.baselines == q.baselines
  }

  /** The record is being replayed although a fresh role is to be selected and its containers are not seeded. */
  predicate HeldBack(p: Connection) {
    p.pending.replaying && p.freshRole && !p.seeded
  }

  lemma UpdateKeepsInvariant(s: State, q: Connection)
    requires Invariant(s) && q.key in s.players && SameIdentity(s.players[q.key], q)
    requires q.inFlight == s.players[q.key].inFlight && SoundRecord(q)
    ensures Invariant(Updated(s, q))
  {
    var after := Updated(s, q).players;
    SamePeopleStayInverse(s.players, after, s.bindings, s.nextGeneration);
    assert after.Keys == s.players.Keys;
  }

  // ---- Fetches ----

  /** A task is appended and its record marked. */
  lemma AppendKeepsCounts(players: map<Key, Connection>, tasks: seq<FetchTask>, task: FetchTask)
    requires InFlightMatches(players, tasks) && task.key in players && !players[task.key].inFlight
    ensures InFlightMatches(players[task.key := players[task.key].(inFlight := true)], tasks + [task])
  {
    var after := players[task.key := players[task.key].(inFlight := true)];
    forall k | k in after ensures Count(tasks + [task], k) == if after[k].inFlight then 1 else 0 {
      CountConcat(tasks, [task], k);
      CountOne(task, k);
    }
  }

  lemma StartFetchKeepsInvariant(s: State, key: Key)
    requires Invariant(s) && key in s.players
    ensures Invariant(StartFetch(s, key))
  {
    if s.active && CanFetch(s.players[key]) {
      var after := s.players[key := s.players[key].(inFlight := true)];
      AppendKeepsCounts(s.players, s.tasks, FetchTask(key, s.epoch, None));
      assert SamePeople(s.players, after);
      SamePeopleStayInverse(s.players, after, s.bindings, s.nextGeneration);
    }
  }

  lemma TrySeedKeepsRecord(p: Connection, native: Native)
    ensures var q := TrySeed(p, native);
            SameIdentity(p, q) && q.inFlight == p.inFlight && SameOutcome(p, q) && q.pending == p.pending &&
            q.nextFetchAt == p.nextFetchAt
  {
  }

  /** A result has been handled: the same connection, no longer in flight, as sound and as settled as before. */
  predicate Lands(p: Connection, q: Connection) {
    SameIdentity(p, q) && !q.inFlight && (SoundRecord(p) ==> SoundRecord(q)) && (Settled(p) ==> Settled(q))
  }

  lemma TakenLands(p: Connection, roles: seq<FetchedRole>, native: Native)
    ensures Lands(p, Taken(p, roles, native)) && Taken(p, roles, native).completed
  {
    var q := p.(inFlight := false, baselines := BaselinesOf(roles), completed := true, terminal := false);
    TrySeedKeepsRecord(q, native);
  }

  lemma RetriedLands(p: Connection, q: Connection, now: int)
    requires SameIdentity(p, q) && q.pending == p.pending && (Settled(p) ==> Settled(q))
    ensures Lands(p, Retried(q, now))
  {
  }

  lemma LateBreakLands(p: Connection, roles: seq<FetchedRole>, now: int, native: Native)
    ensures Lands(p, Retried(Taken(p, roles, native), now))
  {
    TakenLands(p, roles, native);
    TakenKeepsPending(p, roles, native);
    RetriedLands(p, Taken(p, roles, native), now);
  }

  lemma TakenKeepsPending(p: Connection, roles: seq<FetchedRole>, native: Native)
    ensures Taken(p, roles, native).pending == p.pending
  {
    var q := p.(inFlight := false, baselines := BaselinesOf(roles), completed := true, terminal := false);
    TrySeedKeepsRecord(q, native);
  }

  lemma EarlyBreakLands(p: Connection, baselines: map<string, Baseline>, now: int)
    ensures Lands(p, Retried(p.(baselines := baselines), now))
  {
    RetriedLands(p, p.(baselines := baselines), now);
  }

  lemma BrokenOffLands(p: Connection, roles: seq<FetchedRole>, completed: bool, now: int, native: Native)
    ensures Lands(p, BrokenOff(p, roles, completed, now, native))
  {
    if completed {
      LateBreakLands(p, roles, now, native);
    } else {
      EarlyBreakLands(p, BaselinesOf(roles), now);
    }
  }

  lemma BrokenLands(scope: Scope, p: Connection, result: FetchResult, now: int, native: Native)
    requires result.Broken?
    ensures Lands(p, Handled(scope, p, result, now, native))
  {
    BrokenOffLands(p, result.roles, result.completed, now, native);
  }

  lemma LoadedLands(scope: Scope, p: Connection, result: FetchResult, now: int, native: Native)
    requires result.Loaded?
    ensures Lands(p, Handled(scope, p, result, now, native))
  {
    TakenLands(p, result.roles, native);
  }

  lemma HandledLands(scope: Scope, p: Connection, result: FetchResult, now: int, native: Native)
    ensures Lands(p, Handled(scope, p, result, now, native))
  {
    match result
    case Loaded(_, _) => LoadedLands(scope, p, result, now, native);
    case Broken(_, _, _) => BrokenLands(scope, p, result, now, native);
    case Failed(_) => RetriedLands(p, p, now);
    case Threw => RetriedLands(p, p, now);
  }

  predicate TaskInvariant(players: map<Key, Connection>, tasks: seq<FetchTask>, epoch: nat, next: nat) {
    TasksAreOld(players, tasks, epoch, next) && InFlightMatches(players, tasks) && SoundRecords(players) &&
    forall k :: k in players ==> players[k].key == k
  }

  /** The only record that may differ is this one, and it is no longer in flight. */
  predicate OnlySettles(players: map<Key, Connection>, after: map<Key, Connection>, key: Key) {
    players.Keys == after.Keys &&
    (forall k :: k in players && k != key ==> after[k] == players[k]) &&
    (key in players ==> SameIdentity(players[key], after[key]) && SoundRecord(after[key]) && !after[key].inFlight)
  }

  lemma DroppedTaskKeepsTasks(players: map<Key, Connection>, after: map<Key, Connection>, kept: seq<FetchTask>,
                              task: FetchTask, rest: seq<FetchTask>, epoch: nat, next: nat)
    requires TaskInvariant(players, kept + [task] + rest, epoch, next) && OnlySettles(players, after, task.key)
    ensures TaskInvariant(after, kept + rest, epoch, next) && SamePeople(players, after)
  {
    var tasks := kept + [task] + rest;
    forall k | k in after ensures Count(kept + rest, k) == if after[k].inFlight then 1 else 0 {
      CountMiddle(kept, task, rest, k);
    }
    forall t | t in kept + rest ensures t in tasks {
    }
  }

  lemma DeliveryOnlySettles(pass: Pass, players: map<Key, Connection>, task: FetchTask)
    requires task.future.Some? && SoundRecords(players) && (forall k :: k in players ==> players[k].key == k)
    requires task.key in players ==> task.epoch == pass.epoch
    ensures OnlySettles(players, Delivered(pass, players, task), task.key)
  {
    if task.key in players {
      HandledLands(pass.scope, players[task.key], task.future.value, pass.now, pass.native(task.key));
    }
  }

  /** Delivering a finished task and dropping it keeps tasks and records in step. */
  lemma DeliveryKeepsTasks(pass: Pass, players: map<Key, Connection>, kept: seq<FetchTask>, task: FetchTask,
                           rest: seq<FetchTask>, next: nat)
    requires task.future.Some? && TaskInvariant(players, kept + [task] + rest, pass.epoch, next)
    ensures TaskInvariant(Delivered(pass, players, task), kept + rest, pass.epoch, next)
    ensures SamePeople(players, Delivered(pass, players, task))
  {
    assert task in kept + [task] + rest;
    DeliveryOnlySettles(pass, players, task);
    DroppedTaskKeepsTasks(players, Delivered(pass, players, task), kept, task, rest, pass.epoch, next);
  }

  predicate SamePeople(players: map<Key, Connection>, after: map<Key, Connection>) {
    players.Keys == after.Keys && forall k :: k in players ==> SameIdentity(players[k], after[k])
  }

  lemma {:induction false} ConsumeKeepsTasks(pass: Pass, players: map<Key, Connection>, kept: seq<FetchTask>,
                                             rest: seq<FetchTask>, next: nat)
    requires TaskInvariant(players, kept + rest, pass.epoch, next)
    ensures TaskInvariant(AllDelivered(pass, players, rest), kept + Unfinished(rest), pass.epoch, next)
    ensures SamePeople(players, AllDelivered(pass, players, rest))
    decreases |rest|
  {
    if rest != [] {
      PassStep(pass, players, rest);
      Regroup(kept, rest[0], rest[1..]);
      assert rest == [rest[0]] + rest[1..];
      if rest[0].future.None? {
        Regroup(kept, rest[0], Unfinished(rest[1..]));
        ConsumeKeepsTasks(pass, players, kept + [rest[0]], rest[1..], next);
      } else {
        DeliveryKeepsTasks(pass, players, kept, rest[0], rest[1..], next);
        ConsumeKeepsTasks(pass, Delivered(pass, players, rest[0]), kept, rest[1..], next);
      }
    }
  }

  lemma Regroup(kept: seq<FetchTask>, first: FetchTask, rest: seq<FetchTask>)
    ensures kept + ([first] + rest) == kept + [first] + rest
  {
  }

  lemma PassStep(pass: Pass, players: map<Key, Connection>, rest: seq<FetchTask>)
    requires rest != []
    ensures Unfinished(rest) ==
            if rest[0].future.None? then [rest[0]] + Unfinished(rest[1..]) else Unfinished(rest[1..])
    ensures AllDelivered(pass, players, rest) ==
            AllDelivered(pass, if rest[0].future.None? then players else Delivered(pass, players, rest[0]), rest[1..])
  {
  }

  lemma SamePeopleStayInverse(players: map<Key, Connection>, after: map<Key, Connection>,
                              bindings: map<Controller, Key>, next: nat)
    requires Inverse(players, bindings) && Generations(players, next) && SamePeople(players, after)
    ensures Inverse(after, bindings) && Generations(after, next)
  {
  }

  lemma ConsumeKeepsInvariant(s: State, now: int, native: Key -> Native)
    requires Invariant(s)
    ensures Invariant(Consume(s, now, native)) && SamePeople(s.players, Consume(s, now, native).players)
  {
    var pass := Pass(s.scope, s.epoch, now, native);
    assert [] + s.tasks == s.tasks && [] + Unfinished(s.tasks) == Unfinished(s.tasks);
    ConsumeKeepsTasks(pass, s.players, [], s.tasks, s.nextGeneration);
    SamePeopleStayInverse(s.players, Consume(s, now, native).players, s.bindings, s.nextGeneration);
    if !s.active {
      assert Consume(s, now, native).players.Keys == {};
    }
  }

  lemma FinishKeepsInvariant(s: State, i: nat, result: FetchResult)
    requires Invariant(s)
    ensures Invariant(Finish(s, i, result))
  {
    if i < |s.tasks| && s.tasks[i].future.None? {
      var tasks := Finish(s, i, result).tasks;
      forall k | k in s.players ensures Count(tasks, k) == Count(s.tasks, k) {
        CountUpdate(s.tasks, i, tasks[i], k);
      }
      forall t | t in tasks ensures t.key.generation < s.nextGeneration && (t.key in s.players ==> t.epoch == s.epoch) {
        if t == tasks[i] {
          assert s.tasks[i] in s.tasks;
        }
      }
    }
  }

  // ---- Worlds and connections ----

  lemma DiscardedKeepsInvariant(s: State, world: Option<World>, hasWorld: bool)
    requires Invariant(s)
    ensures Invariant(Discarded(s, world, hasWorld))
  {
  }

  lemma NewRecordKeepsInverse(players: map<Key, Connection>, bindings: map<Controller, Key>, key: Key, p: Connection,
                              next: nat)
    requires Inverse(players, bindings) && Generations(players, next) && p.controller !in bindings
    requires key.generation == next && p.key == key
    ensures Inverse(players[key := p], bindings[p.controller := key]) && Generations(players[key := p], next + 1)
  {
  }

  lemma NewRecordKeepsTasks(players: map<Key, Connection>, tasks: seq<FetchTask>, epoch: nat, key: Key, p: Connection)
    requires TasksAreOld(players, tasks, epoch, key.generation) && InFlightMatches(players, tasks) && !p.inFlight
    ensures TasksAreOld(players[key := p], tasks, epoch, key.generation + 1) &&
            InFlightMatches(players[key := p], tasks)
  {
    CountPresent(tasks, key);
  }

  lemma BoundKeepsInvariant(s: State, controller: Controller, playerId: string, now: int)
    requires Invariant(s) && s.active && controller !in s.bindings
    ensures Invariant(Bound(s, controller, playerId, now))
  {
    var key := Key(playerId, s.nextGeneration);
    var p := NewConnection(key, controller, now);
    NewRecordKeepsInverse(s.players, s.bindings, key, p, s.nextGeneration);
    NewRecordKeepsTasks(s.players, s.tasks, s.epoch, key, p);
  }

  lemma ConnectKeepsInvariant(s: State, controller: Controller, world: Option<World>, hasAuthority: bool,
                              playerId: string, now: int)
    requires Invariant(s)
    ensures Invariant(Connect(s, controller, world, hasAuthority, playerId, now))
  {
    var b := BindWorld(s, world);
    assert Invariant(b);
    if s.active && controller !in b.bindings && hasAuthority && playerId != "" {
      var key := Key(playerId, b.nextGeneration);
      var c := Bound(b, controller, playerId, now);
      BoundKeepsInvariant(b, controller, playerId, now);
      if c.options.baselineOverride {
        StartFetchKeepsInvariant(c, key);
      } else {
        UpdateKeepsInvariant(c, c.players[key].(terminal := true));
      }
    }
  }

  lemma DisconnectKeepsInvariant(s: State, controller: Controller)
    requires Invariant(s)
    ensures Invariant(Disconnect(s, controller))
  {
  }

  // ---- The tick and the confirmations ----

  lemma DueSeedKeepsInvariant(s: State, key: Key, native: Native)
    requires Invariant(s) && key in s.players
    ensures Invariant(DueSeed(s, key, native))
  {
    TrySeedKeepsRecord(s.players[key], native);
    UpdateKeepsInvariant(s, TrySeed(s.players[key], native));
  }

  lemma VisitedKeepsInvariant(s: State, key: Key, now: int, native: Native)
    requires Invariant(s)
    ensures Invariant(Visited(s, key, now, native)) && Visited(s, key, now, native).active == s.active
  {
    if key in s.players {
      StartFetchKeepsInvariant(s, key);
      DueSeedKeepsInvariant(DueFetch(s, key, now), key, native);
    }
  }

  lemma {:induction false} AllVisitedKeepsInvariant(s: State, order: seq<Key>, now: int, native: Key -> Native)
    requires Invariant(s)
    ensures Invariant(AllVisited(s, order, now, native)) && AllVisited(s, order, now, native).active == s.active
  {
    if order != [] {
      var n := |order| - 1;
      AllVisitedKeepsInvariant(s, order[..n], now, native);
      VisitedKeepsInvariant(AllVisited(s, order[..n], now, native), order[n], now, native(order[n]));
    }
  }

  lemma PolledIsSound(p: Connection, now: int)
    requires SoundRecord(p)
    ensures var q := PolledConnection(p, now);
            SoundRecord(q) && SameIdentity(p, q) && q.inFlight == p.inFlight && SameOutcome(p, q)
  {
  }

  lemma PollKeepsInvariant(s: State, now: int)
    requires Invariant(s)
    ensures Invariant(PollAll(s, now))
  {
    forall k | k in s.players
      ensures var p, q := s.players[k], PollAll(s, now).players[k];
              SoundRecord(q) && SameIdentity(p, q) && q.inFlight == p.inFlight
    {
      PolledIsSound(s.players[k], now);
    }
    SamePeopleStayInverse(s.players, PollAll(s, now).players, s.bindings, s.nextGeneration);
  }

  lemma BegunIsSound(p: Pending, role: string, hasBaseline: bool, settled: bool, now: int, grace: int)
    requires Sound(p)
    ensures var r := Begun(p, role, hasBaseline, settled, now, grace);
            Sound(r.0) && Sound(r.0.(replayDecision := Fallback))
  {
  }

  lemma DecidedIsSound(options: Options, p: Connection, role: string, now: int, prepares: bool)
    requires Sound(p.pending)
    ensures Sound(Decided(options, p, role, now, prepares).0)
  {
    BegunIsSound(p.pending, role, role in p.overrides || role in p.baselines, p.completed || p.terminal, now,
                 ROLE_CONFIRMATION_GRACE);
  }

  lemma PendingKeepsRecord(p: Connection, pending: Pending)
    requires SoundRecord(p) && Sound(pending)
    ensures var q := p.(pending := pending);
            SoundRecord(q) && SameIdentity(p, q) && q.inFlight == p.inFlight && SameOutcome(p, q) &&
            q.nextFetchAt == p.nextFetchAt
  {
  }

  lemma ConfirmedHoldsNothingBack(options: Options, p: Connection, role: string, now: int, native: Native,
                                  prepares: bool)
    ensures HeldBack(Confirmed(options, p, role, now, native, prepares).0) ==> HeldBack(p)
  {
  }

  lemma ConfirmedIsSound(options: Options, p: Connection, role: string, now: int, native: Native, prepares: bool)
    requires SoundRecord(p)
    ensures var q := Confirmed(options, p, role, now, native, prepares).0;
            SoundRecord(q) && SameIdentity(p, q) && q.inFlight == p.inFlight && SameOutcome(p, q) &&
            q.nextFetchAt == p.nextFetchAt
  {
    var q := if p.freshRole && !p.seeded then TrySeed(p, native) else p;
    TrySeedKeepsRecord(p, native);
    BegunIsSound(q.pending, role, false, false, now, ROLE_CONFIRMATION_GRACE);
    DecidedIsSound(options, q, role, now, prepares);
    PendingKeepsRecord(q, Begun(q.pending, role, false, false, now, ROLE_CONFIRMATION_GRACE).0);
    PendingKeepsRecord(q, Decided(options, q, role, now, prepares).0);
  }

  lemma CompletedKeepsInvariant(s: State, key: Key)
    requires Invariant(s)
    ensures Invariant(FinishReplay(s, key))
  {
    if key in s.players && s.players[key].pending.replaying {
      var p := s.players[key];
      UpdateKeepsInvariant(s, p.(pending := Completed(p.pending)));
    }
  }

  lemma CommitKeepsInvariant(s: State, controller: Controller, role: string)
    requires Invariant(s) && Knows(s, controller)
    ensures Invariant(Commit(s, controller, role))
  {
    var p := s.players[s.bindings[controller]];
    UpdateKeepsInvariant(s, p.(selectedRole := role, freshRole := false, pending := Completed(p.pending)));
  }

  lemma OverrideKeepsInvariant(s: State, controller: Controller, role: string, contentHash: int)
    requires Invariant(s) && Knows(s, controller)
    ensures var p := s.players[s.bindings[controller]];
            Invariant(Updated(s, p.(overrides := p.overrides[role := contentHash])))
  {
    var p := s.players[s.bindings[controller]];
    UpdateKeepsInvariant(s, p.(overrides := p.overrides[role := contentHash]));
  }

  lemma RebindKeepsInvariant(s: State, controller: Controller, role: string)
    requires Invariant(s) && Knows(s, controller)
    ensures Invariant(RebindRole(s, controller, role, true))
  {
    var p := s.players[s.bindings[controller]];
    UpdateKeepsInvariant(s, p.(selectedRole := role, gateActive := true, containersReady := true, seeded := false,
                               pending := Completed(p.pending)));
  }
}
