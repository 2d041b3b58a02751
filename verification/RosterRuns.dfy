/** Properties of whole runs of the admission policy. */
module RosterRuns {
  import opened Base64
  import opened Basics
  import opened RosterDecisions
  import opened RosterInvariant
  import opened RosterSpec

  datatype Event =
    | InstallEvent(allocation: Token<AllocationClaims>, keyId: string, publicKeyBase64: string, now: int)
    | StartEvent(localPlatform: string, now: int)
    | JoinEvent(grant: Token<GrantClaims>, platformId: string, now: int)
    | DisconnectEvent(playerId: string, generation: int)
    | ResetEvent

  function Step(config: Config, s: State, e: Event): JoinResult {
    match e
    case InstallEvent(token, keyId, key, now) =>
      var r := Install(config, s, token, keyId, key, now);
      JoinResult(r.0, r.1, None)
    case StartEvent(platformId, now) =>
      var r := Start(config, s, platformId, now);
      JoinResult(r.0, r.1, None)
    case JoinEvent(grant, platformId, now) => Join(config, s, grant, platformId, now)
    case DisconnectEvent(playerId, generation) =>
      var r := Disconnect(s, playerId, generation);
      JoinResult(r.0, r.1, None)
    case ResetEvent => JoinResult(INITIAL, Accepted, None)
  }

  /** A run: the events and the states between them. */
  datatype Run = Run(config: Config, states: seq<State>, events: seq<Event>) {
    predicate StepsAt(k: nat) {
      k < |events| && k + 1 < |states| && states[k + 1] == Step(config, states[k], events[k]).state
    }

    predicate Valid() {
      |states| == |events| + 1 && forall k :: 0 <= k < |events| ==> StepsAt(k)
    }

    /** Starts in a sound state, such as the initial one. */
    predicate Sound() {
      Valid() && Invariant(config, states[0])
    }

    function ResultAt(k: nat): JoinResult
      requires k < |events| && k < |states|
    {
      Step(config, states[k], events[k])
    }

    predicate JoinsAt(k: nat) {
      k < |events| && k < |states| && events[k].JoinEvent? && ResultAt(k).code == Accepted
    }

    predicate StartsAt(k: nat) {
      k < |events| && k < |states| && events[k].StartEvent? && ResultAt(k).code == Accepted
    }

    predicate ClearsAt(k: nat) {
      k < |events| && k < |states| && Clears(config, states[k], events[k])
    }

    /** No clearing from event i up to but excluding event j. */
    predicate Uncleared(i: nat, j: nat) {
      forall k :: i <= k < j ==> !ClearsAt(k)
    }

    function ClaimsAt(k: nat): GrantClaims
      requires k < |events| && events[k].JoinEvent? && events[k].grant.Jwt?
    {
      events[k].grant.claims
    }
  }

  /** What an install event does to the state it meets. */
  predicate HasEffect(config: Config, s: State, e: Event, effect: Effect) {
    e.InstallEvent? &&
    var r := CheckAllocation(config.verifier, e.allocation, e.keyId, e.publicKeyBase64, e.now);
    r.Sound? && EffectOf(s, r.next) == effect
  }

  /** The event forgets the allocation: a reset, or an install for another authority. */
  predicate Clears(config: Config, s: State, e: Event) {
    e.ResetEvent? || HasEffect(config, s, e, Replaced)
  }

  // ---- One accepted install ----

  lemma CheckedAllocationIsSigned(verifier: Option<Verifier>, token: Token<AllocationClaims>, keyId: string,
                                  publicKeyBase64: string, now: int)
    requires CheckAllocation(verifier, token, keyId, publicKeyBase64, now).Sound?
    ensures verifier.Some? && token.Jwt? && Decoded(publicKeyBase64, false).Some?
    ensures var key := Decoded(publicKeyBase64, false).value;
            |key| == 32 && verifier.value(key, token.signedData, token.signature) && token.keyId == keyId &&
            token.claims.keyId == keyId && token.claims.notBefore <= now + 5 && token.claims.expiresAt > now
    ensures CheckAllocation(verifier, token, keyId, publicKeyBase64, now).next.tokenId == token.claims.tokenId
  {
  }

  lemma AcceptedAllocationIsInstalled(s: State, next: Allocation)
    requires InstallChecked(s, next).1 == Accepted
    requires EffectOf(s, next).Conflict? ==> EffectOf(s, next).code != Accepted
    ensures var t := InstallChecked(s, next).0; t.allocation.Some? && t.allocation.value.tokenId == next.tokenId
  {
  }

  /** An accepted install carries an allocation signed under the very key it brings along, for that key, in its time
      window; afterwards an allocation with its token id is installed. */
  lemma AcceptedInstallIsSigned(config: Config, s: State, token: Token<AllocationClaims>, keyId: string,
                                publicKeyBase64: string, now: int)
    requires Install(config, s, token, keyId, publicKeyBase64, now).1 == Accepted
    ensures config.verifier.Some? && token.Jwt? && Decoded(publicKeyBase64, false).Some?
    ensures var key := Decoded(publicKeyBase64, false).value;
            |key| == 32 && config.verifier.value(key, token.signedData, token.signature) && token.keyId == keyId &&
            token.claims.keyId == keyId && token.claims.notBefore <= now + 5 && token.claims.expiresAt > now
    ensures var t := Install(config, s, token, keyId, publicKeyBase64, now).0;
            t.allocation.Some? && t.allocation.value.tokenId == token.claims.tokenId
  {
    RefusedIsNotAccepted(config.verifier, token, keyId, publicKeyBase64, now);
    CheckedAllocationIsSigned(config.verifier, token, keyId, publicKeyBase64, now);
    AcceptedAllocationIsInstalled(s, CheckAllocation(config.verifier, token, keyId, publicKeyBase64, now).next);
  }

  lemma RefusedIsNotAccepted(verifier: Option<Verifier>, token: Token<AllocationClaims>, keyId: string,
                             publicKeyBase64: string, now: int)
    ensures var r := CheckAllocation(verifier, token, keyId, publicKeyBase64, now); r.Refused? ==> r.code != Accepted
  {
  }

  // ---- One accepted join ----

  /** An accepted join carries a grant signed under the installed key for this authority, this platform and this
      player's seat, not used before; afterwards the grant is used, the seat is connected at the grant's generation,
      which is not below the seat's, and nothing else changed. The seat handed out is the frozen one. */
  lemma AcceptedJoinIsAuthentic(config: Config, s: State, token: Token<GrantClaims>, platformId: string, now: int)
    requires Join(config, s, token, platformId, now).code == Accepted
    ensures token.Jwt? && s.allocation.Some? && s.authorityStarted
    ensures var a, c, r := s.allocation.value, token.claims, Join(config, s, token, platformId, now);
            a.expiresAt > now && IsSignedGrant(config, a, token) && IsAddressedGrant(a, c, platformId, now) &&
            c.playerId in a.seats && IsGrantForSeat(a.seats[c.playerId], c) && c.jti !in s.usedJtis &&
            !(a.hosting == P2P && a.seats[c.playerId].role == Host) &&
            r.state.usedJtis == s.usedJtis + {c.jti} && r.state.authorityStarted && r.state.allocation.Some? &&
            var seats, seats', g := a.seats, r.state.allocation.value.seats, r.grant;
            r.state.allocation.value == a.(seats := seats') && seats'.Keys == seats.Keys && g.Some? &&
            (forall p :: p in seats && p != c.playerId ==> seats'[p] == seats[p]) &&
            seats'[c.playerId] == seats[c.playerId].(generation := c.generation, connected := true) &&
            g.value.generation == c.generation && g.value.logicalSlot == seats[c.playerId].logicalSlot &&
            g.value.teamId == seats[c.playerId].teamId && g.value.teamSlot == seats[c.playerId].teamSlot &&
            (g.value.takesOver <==> seats[c.playerId].connected) &&
            (seats[c.playerId].connected ==> seats[c.playerId].generation < c.generation)
  {
    JoinRefusalNamesReason(config, s, token, platformId, now);
  }

  /** A join is accepted exactly when the grant is entitled: nothing else is refused. So a player who has lost the
      connection gets back in with a new grant of the same generation, and with a higher one even before the loss is
      noticed. */
  lemma JoinIsAcceptedExactlyWhenEntitled(config: Config, s: State, token: Token<GrantClaims>, platformId: string,
                                          now: int)
    ensures Join(config, s, token, platformId, now).code == Accepted <==> Entitled(config, s, token, platformId, now)
  {
    JoinRefusalNamesReason(config, s, token, platformId, now);
  }

  // ---- Rejections ----

  /** A refused event leaves the state as it was, except that a join refused because its seat is already connected
      has used up its grant. */
  lemma RefusalChangesNothing(config: Config, s: State, e: Event)
    requires Step(config, s, e).code != Accepted
    ensures Step(config, s, e).state ==
            if e.JoinEvent? && Step(config, s, e).code == SeatAlreadyConnected
            then s.(usedJtis := s.usedJtis + {e.grant.claims.jti}) else s
    ensures Step(config, s, e).grant == None
  {
  }

  // ---- The invariant over runs ----

  lemma StepKeepsInvariant(config: Config, s: State, e: Event)
    requires Invariant(config, s)
    ensures Invariant(config, Step(config, s, e).state)
  {
    match e
    case InstallEvent(token, keyId, key, now) => InstallKeepsInvariant(config, s, token, keyId, key, now);
    case StartEvent(platformId, now) => StartKeepsInvariant(config, s, platformId, now);
    case JoinEvent(grant, platformId, now) => JoinKeepsInvariant(config, s, grant, platformId, now);
    case DisconnectEvent(playerId, generation) => DisconnectKeepsInvariant(config, s, playerId, generation);
    case ResetEvent =>
  }

  /** Every state of every run is sound: unique players, slots and places, the right number of hosts. */
  lemma {:induction false} RunKeepsInvariant(run: Run, n: nat)
    requires run.Sound() && n <= |run.events|
    ensures Invariant(run.config, run.states[n])
  {
    if n > 0 {
      RunKeepsInvariant(run, n - 1);
      assert run.StepsAt(n - 1);
      StepKeepsInvariant(run.config, run.states[n - 1], run.events[n - 1]);
    }
  }

  // ---- Replay ----

  lemma UsedGrantsStay(config: Config, s: State, e: Event)
    requires !Clears(config, s, e)
    ensures s.usedJtis <= Step(config, s, e).state.usedJtis
  {
  }

  lemma {:induction false} UsedGrantsStayOverRuns(run: Run, i: nat, j: nat)
    requires run.Valid() && i <= j <= |run.events| && run.Uncleared(i, j)
    ensures run.states[i].usedJtis <= run.states[j].usedJtis
  {
    if i < j {
      UsedGrantsStayOverRuns(run, i, j - 1);
      assert run.StepsAt(j - 1) && !run.ClearsAt(j - 1);
      UsedGrantsStay(run.config, run.states[j - 1], run.events[j - 1]);
    }
  }

  /** A grant id is accepted at most once between clearings, whatever refreshes, resumes and disconnects happen. */
  lemma GrantIsAcceptedOnce(run: Run, i: nat, j: nat)
    requires run.Valid() && i < j && run.JoinsAt(i) && run.JoinsAt(j)
    requires run.Uncleared(i + 1, j)
    ensures run.ClaimsAt(i).jti != run.ClaimsAt(j).jti
  {
    var si, sj := run.states[i], run.states[j];
    AcceptedJoinIsAuthentic(run.config, si, run.events[i].grant, run.events[i].platformId, run.events[i].now);
    AcceptedJoinIsAuthentic(run.config, sj, run.events[j].grant, run.events[j].platformId, run.events[j].now);
    assert run.StepsAt(i);
    assert run.ClaimsAt(i).jti in run.states[i + 1].usedJtis;
    UsedGrantsStayOverRuns(run, i + 1, j);
  }

  // ---- One connection per seat and generation ----

  /** The player's seat is connected at this generation, or has moved beyond it. */
  predicate Holds(s: State, player: string, generation: int) {
    s.allocation.Some? && player in s.allocation.value.seats &&
    var seat := s.allocation.value.seats[player];
    seat.generation > generation || (seat.generation == generation && seat.connected)
  }

  predicate Releases(config: Config, s: State, e: Event, player: string, generation: int) {
    Clears(config, s, e) || HasEffect(config, s, e, Resumed) ||
    (e == DisconnectEvent(player, generation) && Step(config, s, e).code == Accepted)
  }

  lemma HeldSeatStaysHeld(config: Config, s: State, e: Event, player: string, generation: int)
    requires Holds(s, player, generation) && !Releases(config, s, e, player, generation)
    ensures Holds(Step(config, s, e).state, player, generation)
  {
  }

  lemma {:induction false} HeldSeatStaysHeldOverRuns(run: Run, i: nat, j: nat,
                                                     player: string, generation: int)
    requires run.Valid() && i <= j <= |run.events| && Holds(run.states[i], player, generation)
    requires forall k :: i <= k < j ==> !Releases(run.config, run.states[k], run.events[k], player, generation)
    ensures Holds(run.states[j], player, generation)
  {
    if i < j {
      HeldSeatStaysHeldOverRuns(run, i, j - 1, player, generation);
      assert run.StepsAt(j - 1);
      HeldSeatStaysHeld(run.config, run.states[j - 1], run.events[j - 1], player, generation);
    }
  }

  lemma AcceptedJoinTakesHold(config: Config, s: State, token: Token<GrantClaims>, platformId: string, now: int)
    requires Join(config, s, token, platformId, now).code == Accepted
    ensures token.Jwt? && !Holds(s, token.claims.playerId, token.claims.generation)
    ensures Holds(Join(config, s, token, platformId, now).state, token.claims.playerId, token.claims.generation)
  {
  }

  lemma JoinAtTakesHold(run: Run, i: nat)
    requires run.Valid() && run.JoinsAt(i)
    ensures run.events[i].grant.Jwt?
    ensures var c := run.ClaimsAt(i);
            !Holds(run.states[i], c.playerId, c.generation) &&
            Holds(run.states[i + 1], c.playerId, c.generation)
  {
    assert run.StepsAt(i);
    AcceptedJoinTakesHold(run.config, run.states[i], run.events[i].grant, run.events[i].platformId, run.events[i].now);
  }

  /** Between two accepted joins of one player at the same generation there is a successful disconnect of exactly
      that connection, a route advance, or a clearing. */
  lemma SeatIsHeldOnce(run: Run, i: nat, j: nat)
    requires run.Valid() && i < j && run.JoinsAt(i) && run.JoinsAt(j)
    requires run.ClaimsAt(i).playerId == run.ClaimsAt(j).playerId
    requires run.ClaimsAt(i).generation == run.ClaimsAt(j).generation
    ensures exists k :: i < k < j &&
              Releases(run.config, run.states[k], run.events[k], run.ClaimsAt(i).playerId,
                       run.ClaimsAt(i).generation)
  {
    var c := run.ClaimsAt(i);
    JoinAtTakesHold(run, i);
    JoinAtTakesHold(run, j);
    if forall k :: i < k < j ==> !Releases(run.config, run.states[k], run.events[k], c.playerId, c.generation) {
      HeldSeatStaysHeldOverRuns(run, i + 1, j, c.playerId, c.generation);
      assert false;
    }
  }

  // ---- Frozen identity and seats ----

  /** s' has the same authority and the same seats as s, with generations and the route not lower. */
  predicate Continues(s: State, s': State) {
    s.allocation.Some? && s'.allocation.Some? &&
    SameAuthority(s.allocation.value, s'.allocation.value) &&
    SeatsKept(s.allocation.value.seats, s'.allocation.value.seats) &&
    s.allocation.value.routeGeneration <= s'.allocation.value.routeGeneration &&
    (s.authorityStarted ==> s'.authorityStarted)
  }

  /** The route rises, by exactly one, on a route advance and on nothing else. */
  predicate RouteMoves(config: Config, s: State, e: Event, s': State)
    requires s.allocation.Some? && s'.allocation.Some?
  {
    s'.allocation.value.routeGeneration ==
      s.allocation.value.routeGeneration + if HasEffect(config, s, e, Resumed) then 1 else 0
  }

  lemma ContinuingSeatsAreKept(current: map<string, Seat>, next: map<string, Seat>)
    requires SeatsContinue(current, next) && |next| == |current| && SoundSeats(current) && SoundSeats(next)
    ensures SeatsKept(current, next)
  {
    assert next.Keys <= current.Keys;
    SubsetIsSmaller(next.Keys, current.Keys);
  }

  lemma ResumeContinues(s: State, next: Allocation)
    requires s.allocation.Some? && SoundAllocation(s.allocation.value) && SoundAllocation(next)
    requires EffectOf(s, next).Resumed?
    ensures Continues(s, InstallChecked(s, next).0)
    ensures InstallChecked(s, next).0.allocation.value.routeGeneration == s.allocation.value.routeGeneration + 1
  {
    ContinuingSeatsAreKept(s.allocation.value.seats, next.seats);
  }

  lemma SoundInstallContinues(s: State, next: Allocation)
    requires s.allocation.Some? && SoundAllocation(s.allocation.value) && SoundAllocation(next)
    requires !EffectOf(s, next).Replaced?
    ensures Continues(s, InstallChecked(s, next).0)
    ensures InstallChecked(s, next).0.allocation.value.routeGeneration ==
            s.allocation.value.routeGeneration + if EffectOf(s, next).Resumed? then 1 else 0
  {
    if EffectOf(s, next).Resumed? {
      ResumeContinues(s, next);
    }
  }

  lemma InstallContinues(config: Config, s: State, e: Event)
    requires Invariant(config, s) && s.allocation.Some? && e.InstallEvent? && !Clears(config, s, e)
    ensures var s' := Step(config, s, e).state; Continues(s, s') && RouteMoves(config, s, e, s')
  {
    var r := CheckAllocation(config.verifier, e.allocation, e.keyId, e.publicKeyBase64, e.now);
    if r.Sound? {
      CheckedAllocationIsSound(config.verifier, e.allocation, e.keyId, e.publicKeyBase64, e.now);
      SoundInstallContinues(s, r.next);
    }
  }

  lemma SeatOperationContinues(config: Config, s: State, e: Event)
    requires s.allocation.Some? && (e.StartEvent? || e.JoinEvent? || e.DisconnectEvent?)
    ensures var s' := Step(config, s, e).state; Continues(s, s') && RouteMoves(config, s, e, s')
  {
  }

  lemma StepContinues(config: Config, s: State, e: Event)
    requires Invariant(config, s) && s.allocation.Some? && !Clears(config, s, e)
    ensures var s' := Step(config, s, e).state; Continues(s, s') && RouteMoves(config, s, e, s')
  {
    if e.InstallEvent? {
      InstallContinues(config, s, e);
    } else {
      SeatOperationContinues(config, s, e);
    }
  }

  /** Until a clearing, identity and seats stay frozen, route and seat generations never fall, and a started
      authority stays started. */
  lemma {:induction false} RunContinues(run: Run, i: nat, j: nat)
    requires run.Sound() && i <= j <= |run.events| && run.states[i].allocation.Some?
    requires run.Uncleared(i, j)
    ensures Continues(run.states[i], run.states[j])
  {
    if i < j {
      RunContinues(run, i, j - 1);
      RunKeepsInvariant(run, j - 1);
      StepOfRunContinues(run, j - 1);
      ContinuesTransitively(run.states[i], run.states[j - 1], run.states[j]);
    } else {
      ContinuesTrivially(run.states[i]);
    }
  }

  lemma ContinuesTrivially(s: State)
    requires s.allocation.Some?
    ensures Continues(s, s)
  {
  }

  lemma ContinuesTransitively(a: State, b: State, c: State)
    requires Continues(a, b) && Continues(b, c)
    ensures Continues(a, c)
  {
  }

  lemma StepOfRunContinues(run: Run, k: nat)
    requires run.Valid() && k < |run.events| && Invariant(run.config, run.states[k]) && run.states[k].allocation.Some?
    requires !run.ClearsAt(k)
    ensures Continues(run.states[k], run.states[k + 1])
  {
    assert run.StepsAt(k);
    StepContinues(run.config, run.states[k], run.events[k]);
  }

  /** Where an accepted join leaves its player: in a seat at the grant's coordinates and generation. */
  predicate Seated(s: State, player: string, g: SeatGrant) {
    s.allocation.Some? && player in s.allocation.value.seats &&
    var seat := s.allocation.value.seats[player];
    seat.teamId == g.teamId && seat.teamSlot == g.teamSlot && seat.logicalSlot == g.logicalSlot &&
    g.generation <= seat.generation
  }

  lemma AcceptedJoinIsSeated(config: Config, s: State, token: Token<GrantClaims>, platformId: string, now: int)
    requires Join(config, s, token, platformId, now).code == Accepted
    ensures var r := Join(config, s, token, platformId, now);
            r.grant.Some? && token.Jwt? && Seated(r.state, token.claims.playerId, r.grant.value) &&
            r.grant.value.generation == token.claims.generation && s.allocation.Some?
    ensures forall g: SeatGrant :: Seated(s, token.claims.playerId, g) ==>
              g.generation <= Join(config, s, token, platformId, now).grant.value.generation
  {
  }

  /** The seat that the accepted join of event i was given. */
  function GrantAt(run: Run, i: nat): (g: SeatGrant)
    requires run.Valid() && run.JoinsAt(i)
    ensures run.events[i].grant.Jwt? && Seated(run.states[i + 1], run.ClaimsAt(i).playerId, g)
    ensures g.generation == run.ClaimsAt(i).generation && run.states[i].allocation.Some?
    ensures run.ResultAt(i).grant == Some(g)
  {
    AcceptedJoinIsSeated(run.config, run.states[i], run.events[i].grant, run.events[i].platformId, run.events[i].now);
    assert run.StepsAt(i);
    run.ResultAt(i).grant.value
  }

  /** Until a clearing, the player of an accepted join keeps the seat. */
  lemma JoinStaysSeated(run: Run, i: nat, j: nat)
    requires run.Sound() && i < j <= |run.events| && run.JoinsAt(i)
    requires run.Uncleared(i + 1, j)
    ensures Seated(run.states[j], run.ClaimsAt(i).playerId, GrantAt(run, i))
  {
    var g := GrantAt(run, i);
    RunContinues(run, i + 1, j);
    StaysSeated(run.states[i + 1], run.states[j], run.ClaimsAt(i).playerId, g);
  }

  lemma JoinDoesNotClear(run: Run, j: nat)
    requires run.Valid() && run.JoinsAt(j)
    ensures !run.ClearsAt(j)
  {
  }

  lemma JoinRaisesGeneration(run: Run, j: nat, g: SeatGrant)
    requires run.Valid() && run.JoinsAt(j)
    requires run.events[j].grant.Jwt? && Seated(run.states[j], run.ClaimsAt(j).playerId, g)
    ensures g.generation <= GrantAt(run, j).generation
  {
    AcceptedJoinIsSeated(run.config, run.states[j], run.events[j].grant, run.events[j].platformId, run.events[j].now);
  }

  lemma StaysSeated(s: State, s': State, player: string, g: SeatGrant)
    requires Seated(s, player, g) && Continues(s, s')
    ensures Seated(s', player, g)
  {
  }

  lemma SeatedApart(config: Config, s: State, p: string, g: SeatGrant, q: string, h: SeatGrant)
    requires Invariant(config, s) && Seated(s, p, g) && Seated(s, q, h)
    ensures p == q <==> g.logicalSlot == h.logicalSlot
    ensures p == q <==> g.teamId == h.teamId && g.teamSlot == h.teamSlot
  {
  }

  /** Without a clearing in between, two accepted joins get the same logical slot exactly when they are the same
      player's, and likewise the same place in a team; and a player's accepted generations never go back. */
  lemma SeatsAreNeverShared(run: Run, i: nat, j: nat)
    requires run.Sound() && i < j && run.JoinsAt(i) && run.JoinsAt(j)
    requires run.Uncleared(i + 1, j)
    ensures var g, h := GrantAt(run, i), GrantAt(run, j);
            var p, q := run.ClaimsAt(i).playerId, run.ClaimsAt(j).playerId;
            (p == q <==> g.logicalSlot == h.logicalSlot) &&
            (p == q <==> g.teamId == h.teamId && g.teamSlot == h.teamSlot) &&
            (p == q ==> g.generation <= h.generation)
  {
    var g, h := GrantAt(run, i), GrantAt(run, j);
    JoinStaysSeated(run, i, j);
    JoinDoesNotClear(run, j);
    JoinStaysSeated(run, i, j + 1);
    RunKeepsInvariant(run, j + 1);
    var p, q := run.ClaimsAt(i).playerId, run.ClaimsAt(j).playerId;
    SeatedApart(run.config, run.states[j + 1], p, g, q, h);
    if p == q {
      JoinRaisesGeneration(run, j, g);
    }
  }

  // ---- Stale disconnects, and admission only after a start ----

  /** After an accepted join, a disconnect for an older generation of that player changes nothing. */
  lemma StaleDisconnectIsHarmless(run: Run, i: nat, j: nat)
    requires run.Sound() && i < j < |run.events| && run.JoinsAt(i)
    requires run.Uncleared(i + 1, j)
    requires run.events[j].DisconnectEvent? && run.events[j].playerId == run.ClaimsAt(i).playerId
    requires run.events[j].generation < run.ClaimsAt(i).generation
    ensures run.states[j + 1] == run.states[j]
    ensures run.ResultAt(j).code == ConnectionGenerationStale
  {
    JoinStaysSeated(run, i, j);
    assert run.StepsAt(j);
  }

  /** From the initial state, a started authority goes back to a successful start with no clearing since. */
  lemma {:induction false} StartedSince(run: Run, n: nat) returns (k: nat)
    requires run.Valid() && run.states[0] == INITIAL && n <= |run.events| && run.states[n].authorityStarted
    ensures k < n && run.StartsAt(k)
    ensures run.Uncleared(k + 1, n)
  {
    var before, e := run.states[n - 1], run.events[n - 1];
    assert run.StepsAt(n - 1);
    if run.StartsAt(n - 1) {
      k := n - 1;
    } else {
      OnlyStartStarts(run.config, before, e);
      k := StartedSince(run, n - 1);
    }
  }

  lemma OnlyStartStarts(config: Config, s: State, e: Event)
    requires Step(config, s, e).state.authorityStarted && !(e.StartEvent? && Step(config, s, e).code == Accepted)
    ensures s.authorityStarted && !Clears(config, s, e)
  {
  }

  /** No join is accepted before the authority was started for the installed allocation. */
  lemma JoinNeedsStart(run: Run, j: nat)
    requires run.Valid() && run.states[0] == INITIAL && run.JoinsAt(j)
    ensures exists k: nat :: k < j && run.StartsAt(k) &&
              run.Uncleared(k + 1, j)
  {
    var k := StartedSince(run, j);
  }
}
