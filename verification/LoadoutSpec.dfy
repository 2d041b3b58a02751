/** The asynchronous loadout lifecycle as steps over a state (Payload/Loadout/LoadoutManager.cpp).

    Engine objects are their addresses. What the engine answers while a step runs (travel finished, seeding
    worked, pre-order applied) is a parameter of the step, and re-entrant engine calls are steps of their own. */
module LoadoutSpec {
  import opened Basics
  import opened RoleConfirmation

  type Controller = nat
  type World = nat

  datatype Key = Key(playerId: string, generation: nat)

  datatype Baseline = Baseline(revision: int, contentHash: int)

  datatype Connection = Connection(
    key: Key, controller: Controller, baselines: map<string, Baseline>, overrides: map<string, int>,
    inFlight: bool, completed: bool, terminal: bool, failedAttempts: nat, nextFetchAt: int, selectedRole: string,
    gateActive: bool, freshRole: bool, containersReady: bool, seeded: bool, pending: Pending)

  /** One role of a fetched loadout; no baseline means that it did not pass validation. */
  datatype FetchedRole = FetchedRole(roleId: string, baseline: Option<Baseline>)

  /** What a fetch comes to: loadouts, a failure, or an exception, in the worker or in the middle of handling loadouts.
      Broken has the roles that were taken in by then, and whether the record had been completed. */
  datatype FetchResult =
    | Loaded(playerId: string, roles: seq<FetchedRole>)
    | Failed(retryable: bool)
    | Threw
    | Broken(playerId: string, roles: seq<FetchedRole>, completed: bool)

  /** A fetch that was started for a connection; the future is empty until the worker finishes. */
  datatype FetchTask = FetchTask(key: Key, epoch: nat, future: Option<FetchResult>)

  datatype Scope = RoomMember | CurrentTunnelUser
  datatype Options = Options(baselineOverride: bool, preOrderIntercept: bool, confirmDeferral: bool)

  datatype State = State(
    active: bool, epoch: nat, nextGeneration: nat, scope: Scope, options: Options, hasWorld: bool,
    world: Option<World>, players: map<Key, Connection>, bindings: map<Controller, Key>, tasks: seq<FetchTask>)

  const INITIAL := State(false, 0, 1, RoomMember, Options(false, false, false), false, None, map[], map[], [])

  /** Engine answers for one connection: its client finished travelling, and seeding its containers works. */
  datatype Native = Native(travelled: bool, seeds: bool)

  const ROLE_CONFIRMATION_GRACE := 1000

  predicate IsSpace(ch: char) {
    ch == ' ' || '\t' <= ch <= '\r'
  }

  predicate UsableRole(role: string) {
    role != "" && role != "None" && |role| <= 128 &&
    forall i :: 0 <= i < |role| ==>
      !IsSpace(role[i]) && role[i] != '/' && role[i] != '\\' && role[i] != '"' && role[i] != '\''
  }

  function RetryDelay(failedAttempts: nat): int {
    match failedAttempts
    case 1 => 500
    case 2 => 2000
    case 3 => 10000
    case _ => 30000
  }

  // ---- Worlds, start and stop ----

  function Discarded(s: State, world: Option<World>, hasWorld: bool): State {
    s.(epoch := s.epoch + 1, players := map[], bindings := map[], world := world, hasWorld := hasWorld)
  }

  function BindWorld(s: State, world: Option<World>): State {
    if !s.hasWorld then s.(world := world, hasWorld := true)
    else if world == s.world then s
    else Discarded(s, world, true)
  }

  function ResetMatch(s: State, world: Option<World>): State {
    if s.active then Discarded(s, world, world.Some?) else s
  }

  function Stop(s: State): State {
    Discarded(s, None, false).(active := false, tasks := [])
  }

  /** A start always stops first; it becomes active only with an acceptable tunnel and room. */
  function Start(s: State, accepted: bool, scope: Scope, options: Options): State {
    var stopped := Stop(s);
    if accepted then stopped.(epoch := stopped.epoch + 1, options := options, scope := scope, active := true)
    else stopped
  }

  // ---- Fetches ----

  predicate CanFetch(p: Connection) {
    !p.inFlight && !p.completed && !p.terminal
  }

  function StartFetch(s: State, key: Key): State
    requires key in s.players
  {
    if s.active && CanFetch(s.players[key]) then
      s.(players := s.players[key := s.players[key].(inFlight := true)],
         tasks := s.tasks + [FetchTask(key, s.epoch, None)])
    else s
  }

  predicate RequiresSeed(p: Connection) {
    p.gateActive || p.freshRole
  }

  function TrySeed(p: Connection, native: Native): Connection {
    if !RequiresSeed(p) || p.seeded || !(p.completed && native.travelled && p.baselines != map[]) || !p.containersReady
    then p else p.(seeded := native.seeds)
  }

  /** The usable, valid roles; of two with one id the first stays. */
  function BaselinesOf(roles: seq<FetchedRole>): map<string, Baseline> {
    if roles == [] then map[] else
    var front, last := BaselinesOf(roles[..|roles| - 1]), roles[|roles| - 1];
    if UsableRole(last.roleId) && last.baseline.Some? && last.roleId !in front
    then front[last.roleId := last.baseline.value] else front
  }

  function Retried(p: Connection, now: int): Connection {
    p.(inFlight := false, failedAttempts := p.failedAttempts + 1, nextFetchAt := now + RetryDelay(p.failedAttempts + 1))
  }

  function Taken(p: Connection, roles: seq<FetchedRole>, native: Native): Connection {
    TrySeed(p.(inFlight := false, baselines := BaselinesOf(roles), completed := true, terminal := false), native)
  }

  function BrokenOff(p: Connection, roles: seq<FetchedRole>, completed: bool, now: int, native: Native): Connection {
    Retried(if completed then Taken(p, roles, native) else p.(baselines := BaselinesOf(roles)), now)
  }

  function Handled(scope: Scope, p: Connection, result: FetchResult, now: int, native: Native): Connection {
    match result
    case Loaded(playerId, roles) =>
      if scope == CurrentTunnelUser && playerId != p.key.playerId then p.(inFlight := false, terminal := true)
      else Taken(p, roles, native)
    case Broken(playerId, roles, completed) =>
      if scope == CurrentTunnelUser && playerId != p.key.playerId then p.(inFlight := false, terminal := true)
      else BrokenOff(p, roles, completed, now, native)
    case Failed(retryable) =>
      if retryable then Retried(p, now)
      else p.(inFlight := false, failedAttempts := p.failedAttempts + 1, terminal := true)
    case Threw => Retried(p, now)
  }

  predicate IsCurrent(players: map<Key, Connection>, epoch: nat, task: FetchTask) {
    task.key in players && players[task.key].key == task.key && task.epoch == epoch
  }

  /** The settings and answers of one pass over the tasks. */
  datatype Pass = Pass(scope: Scope, epoch: nat, now: int, native: Key -> Native)

  function Delivered(pass: Pass, players: map<Key, Connection>, task: FetchTask): map<Key, Connection> {
    if task.future.Some? && IsCurrent(players, pass.epoch, task) then
      players[task.key := Handled(pass.scope, players[task.key], task.future.value, pass.now, pass.native(task.key))]
    else players
  }

  function AllDelivered(pass: Pass, players: map<Key, Connection>, tasks: seq<FetchTask>): map<Key, Connection> {
    if tasks == [] then players else AllDelivered(pass, Delivered(pass, players, tasks[0]), tasks[1..])
  }

  function Unfinished(tasks: seq<FetchTask>): seq<FetchTask> {
    if tasks == [] then [] else (if tasks[0].future.None? then [tasks[0]] else []) + Unfinished(tasks[1..])
  }

  /** Every finished task is delivered, if it is current, and removed. */
  function Consume(s: State, now: int, native: Key -> Native): State {
    s.(players := AllDelivered(Pass(s.scope, s.epoch, now, native), s.players, s.tasks), tasks := Unfinished(s.tasks))
  }

  /** A worker finishes. */
  function Finish(s: State, i: nat, result: FetchResult): State {
    if i < |s.tasks| && s.tasks[i].future.None? then s.(tasks := s.tasks[i := s.tasks[i].(future := Some(result))])
    else s
  }

  // ---- Connections ----

  function NewConnection(key: Key, controller: Controller, now: int): Connection {
    Connection(key, controller, map[], map[], false, false, false, 0, now, "", false, false, false, false, IDLE)
  }

  function Bound(s: State, controller: Controller, playerId: string, now: int): State {
    var key := Key(playerId, s.nextGeneration);
    s.(nextGeneration := s.nextGeneration + 1, players := s.players[key := NewConnection(key, controller, now)],
       bindings := s.bindings[controller := key])
  }

  /** A new record, with its first fetch under way unless baselines are switched off. */
  function Joined(s: State, controller: Controller, playerId: string, now: int): State {
    var key := Key(playerId, s.nextGeneration);
    var c := Bound(s, controller, playerId, now);
    if c.options.baselineOverride then StartFetch(c, key)
    else c.(players := c.players[key := c.players[key].(terminal := true)])
  }

  function Connect(s: State, controller: Controller, world: Option<World>, hasAuthority: bool, playerId: string,
                   now: int): State
  {
    if !s.active then s else
    var b := BindWorld(s, world);
    if controller in b.bindings || !hasAuthority || playerId == "" then b else Joined(b, controller, playerId, now)
  }

  function Disconnect(s: State, controller: Controller): State {
    if controller !in s.bindings then s else
    s.(players := s.players - {s.bindings[controller]}, bindings := s.bindings - {controller})
  }

  // ---- The tick ----

  /** A due fetch starts. */
  function DueFetch(s: State, key: Key, now: int): (t: State)
    requires key in s.players
    ensures key in t.players
  {
    if CanFetch(s.players[key]) && now >= s.players[key].nextFetchAt then StartFetch(s, key) else s
  }

  /** A missing seed is tried. */
  function DueSeed(s: State, key: Key, native: Native): State
    requires key in s.players
  {
    if RequiresSeed(s.players[key]) && !s.players[key].seeded
    then s.(players := s.players[key := TrySeed(s.players[key], native)]) else s
  }

  function Visited(s: State, key: Key, now: int, native: Native): State {
    if key in s.players then DueSeed(DueFetch(s, key, now), key, native) else s
  }

  /** The loop over a copy of the keys, in the order of the hash table. */
  function AllVisited(s: State, order: seq<Key>, now: int, native: Key -> Native): State {
    if order == [] then s else
    var key := order[|order| - 1];
    Visited(AllVisited(s, order[..|order| - 1], now, native), key, now, native(key))
  }

  function PolledConnection(p: Connection, now: int): Connection {
    if p.freshRole && !p.seeded then p else
    var hasEffective := p.pending.roleId in p.overrides || p.pending.roleId in p.baselines;
    p.(pending := Polled(p.pending, hasEffective, p.completed || p.terminal, now).0)
  }

  /** The poll lets this record's confirmation go. */
  predicate Released(p: Connection, now: int) {
    PolledConnection(p, now).pending.replaying && !p.pending.replaying
  }

  function PollAll(s: State, now: int): State {
    s.(players := map k | k in s.players :: PolledConnection(s.players[k], now))
  }

  /** The tick up to its poll. */
  function TickVisits(s: State, world: Option<World>, order: seq<Key>, now: int, native: Key -> Native): State {
    AllVisited(Consume(BindWorld(s, world), now, native), order, now, native)
  }

  function Tick(s: State, world: Option<World>, order: seq<Key>, now: int, native: Key -> Native): State {
    if s.active then PollAll(TickVisits(s, world, order, now, native), now) else s
  }

  /** The records whose confirmation this poll lets go. */
  function ReleasedKeys(s: State, now: int): set<Key> {
    set k | k in s.players && Released(s.players[k], now)
  }

  /** The end of a replay whose original call did not commit. */
  function FinishReplay(s: State, key: Key): State {
    if key in s.players && s.players[key].pending.replaying then
      s.(players := s.players[key := s.players[key].(pending := Completed(s.players[key].pending))])
    else s
  }

  // ---- Role confirmations ----

  predicate Knows(s: State, controller: Controller) {
    controller in s.bindings && s.bindings[controller] in s.players
  }

  function Updated(s: State, p: Connection): State {
    s.(players := s.players[p.key := p])
  }

  /** The decision for a record that needs no seed any more. */
  function Decided(options: Options, p: Connection, role: string, now: int, prepares: bool): (Pending, Decision) {
    var hasEffective := role in p.overrides || role in p.baselines;
    var r := if options.confirmDeferral
      then Begun(p.pending, role, hasEffective, p.completed || p.terminal, now, ROLE_CONFIRMATION_GRACE)
      else (p.pending, if hasEffective then Ready else Fallback);
    if r.1 == Ready && !(RequiresSeed(p) && p.seeded) && hasEffective && !prepares
    then (r.0.(replayDecision := Fallback), Fallback) else r
  }

  /** The decision for a connection, with its new record. */
  function Confirmed(options: Options, p: Connection, role: string, now: int, native: Native, prepares: bool)
    : (Connection, Decision)
  {
    var q := if p.freshRole && !p.seeded then TrySeed(p, native) else p;
    if q.freshRole && !q.seeded then
      (q.(pending := Begun(q.pending, role, false, false, now, ROLE_CONFIRMATION_GRACE).0), Deferred)
    else
      var r := Decided(options, q, role, now, prepares);
      (q.(pending := r.0), r.1)
  }

  function BeginConfirmation(s: State, controller: Controller, role: string, now: int, native: Native, prepares: bool)
    : (State, Decision)
  {
    if !s.active || !Knows(s, controller) || !UsableRole(role) then (s, Fallback) else
    var r := Confirmed(s.options, s.players[s.bindings[controller]], role, now, native, prepares);
    (Updated(s, r.0), r.1)
  }

  function Commit(s: State, controller: Controller, role: string): State {
    if !s.active || !Knows(s, controller) || !UsableRole(role) then s else
    var p := s.players[s.bindings[controller]];
    Updated(s, p.(selectedRole := role, freshRole := false, pending := Completed(p.pending)))
  }

  /** A client's own pre-order; `matches` is that the engine has published exactly it. */
  function Override(s: State, controller: Controller, role: string, contentHash: int, internal: bool, matches: bool)
    : State
  {
    if !s.active || !s.options.preOrderIntercept || internal || !Knows(s, controller) || !UsableRole(role) || !matches
    then s
    else
      var p := s.players[s.bindings[controller]];
      Updated(s, p.(overrides := p.overrides[role := contentHash]))
  }

  function RebindRole(s: State, controller: Controller, role: string, normalized: bool): State {
    if !s.active || !UsableRole(role) || !Knows(s, controller) || !normalized then s else
    var p := s.players[s.bindings[controller]];
    Updated(s, p.(selectedRole := role, gateActive := true, containersReady := true, seeded := false,
                  pending := Completed(p.pending)))
  }

  function PrepareFresh(s: State, controller: Controller, normalized: bool): State {
    if !s.active || !Knows(s, controller) then s else
    var p := s.players[s.bindings[controller]];
    Updated(s, p.(freshRole := true, seeded := false, containersReady := normalized))
  }
}
