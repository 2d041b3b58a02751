/** What every reachable admission state satisfies. */
module RosterInvariant {
  import opened Basics
  import opened RosterSpec

  predicate SoundSeat(s: Seat) {
    SafeIdentifier(s.playerId, 128) && SafeIdentifier(s.platformId, 128) && !s.role.OtherRole? &&
    (s.teamId == 1 || s.teamId == 2) && s.teamSlot >= 0 && s.logicalSlot >= 0 && s.generation >= 1
  }

  /** Two seats never share a logical slot or a place in a team. */
  predicate Apart(a: Seat, b: Seat) {
    a.logicalSlot != b.logicalSlot && (a.teamId != b.teamId || a.teamSlot != b.teamSlot)
  }

  predicate SoundSeats(seats: map<string, Seat>) {
    (forall p :: p in seats ==> seats[p].playerId == p && SoundSeat(seats[p])) &&
    (forall p, q :: p in seats && q in seats && p != q ==> Apart(seats[p], seats[q]))
  }

  function Hosts(seats: map<string, Seat>): set<string> {
    set p | p in seats && seats[p].role == Host
  }

  predicate SoundAllocation(a: Allocation) {
    0 < |a.seats| <= 64 && SoundSeats(a.seats) &&
    |Hosts(a.seats)| == (if a.hosting == P2P then 1 else 0) && !a.hosting.OtherHosting? &&
    |a.publicKey| == 32 && SafeIdentifier(a.tokenId, 96) && SafeIdentifier(a.attemptId, 128) &&
    SafeIdentifier(a.lobbyId, 128) && SafeIdentifier(a.authorityId, 128) && SafeIdentifier(a.authoritySession, 128) &&
    a.rosterRevision >= 1 && a.routeGeneration >= 1 && 1 <= a.connectionWindow <= 600
  }

  predicate Invariant(config: Config, s: State) {
    match s.allocation
    case None => s.usedJtis == {} && !s.authorityStarted
    case Some(a) => config.verifier.Some? && SoundAllocation(a) && (s.authorityStarted ==> config.nativePathReady)
  }

  // ---- A valid roster gives sound seats ----

  lemma OneMoreSeat(seats: map<string, Seat>, last: SeatClaim)
    requires last.playerId !in seats
    ensures var grown := seats[last.playerId := SeatOf(last)];
            |grown| == |seats| + 1 && |Hosts(grown)| == |Hosts(seats)| + if last.role == Host then 1 else 0
  {
    var grown := seats[last.playerId := SeatOf(last)];
    assert Hosts(grown) == if last.role == Host then Hosts(seats) + {last.playerId} else Hosts(seats);
  }

  predicate SeatsFrom(roster: seq<SeatClaim>, seats: map<string, Seat>) {
    SoundSeats(seats) && seats.Keys == Players(roster) &&
    forall p :: p in seats ==> seats[p].logicalSlot in LogicalSlots(roster) &&
                               (seats[p].teamId, seats[p].teamSlot) in TeamSlots(roster)
  }

  lemma NewSeatIsSound(seats: map<string, Seat>, front: seq<SeatClaim>, last: SeatClaim)
    requires SeatsFrom(front, seats) && ValidSeat(last) && IsNew(last, front)
    ensures SeatsFrom(front + [last], seats[last.playerId := SeatOf(last)])
  {
    SlotsGrow(front, last);
  }

  lemma {:induction false} RosterSeatsAreSound(roster: seq<SeatClaim>)
    requires ValidRoster(roster)
    ensures SeatsFrom(roster, SeatsOf(roster)) && |SeatsOf(roster)| == |roster|
    ensures |Hosts(SeatsOf(roster))| == HostCount(roster)
  {
    if roster == [] {
      assert Hosts(map[]) == {};
    } else {
      var front, last := roster[..|roster| - 1], roster[|roster| - 1];
      assert roster == front + [last];
      ValidRosterGrows(front, last);
      RosterSeatsAreSound(front);
      NewSeatIsSound(SeatsOf(front), front, last);
      OneMoreSeat(SeatsOf(front), last);
    }
  }

  lemma CheckedAllocationIsSound(verifier: Option<Verifier>, token: Token<AllocationClaims>, keyId: string,
                                 publicKeyBase64: string, now: int)
    requires CheckAllocation(verifier, token, keyId, publicKeyBase64, now).Sound?
    ensures SoundAllocation(CheckAllocation(verifier, token, keyId, publicKeyBase64, now).next) && verifier.Some?
  {
    RosterSeatsAreSound(token.claims.roster.value);
  }

  // ---- Every operation keeps the invariant ----

  /** Seats that differ only in generation (upwards) and connection. */
  predicate SeatsKept(before: map<string, Seat>, after: map<string, Seat>) {
    before.Keys == after.Keys &&
    forall p :: p in before ==>
      SameSeat(before[p], after[p]) && before[p].playerId == after[p].playerId &&
      before[p].generation <= after[p].generation
  }

  lemma KeptSeatsAreSound(before: map<string, Seat>, after: map<string, Seat>)
    requires SeatsKept(before, after) && SoundSeats(before)
    ensures SoundSeats(after) && Hosts(after) == Hosts(before) && |after| == |before|
  {
    assert |after.Keys| == |before.Keys|;
  }

  lemma InstallKeepsInvariant(config: Config, s: State, token: Token<AllocationClaims>, keyId: string,
                              publicKeyBase64: string, now: int)
    requires Invariant(config, s)
    ensures Invariant(config, Install(config, s, token, keyId, publicKeyBase64, now).0)
  {
    var result := CheckAllocation(config.verifier, token, keyId, publicKeyBase64, now);
    if result.Sound? {
      CheckedAllocationIsSound(config.verifier, token, keyId, publicKeyBase64, now);
      SoundInstallKeepsInvariant(config, s, result.next);
    }
  }

  lemma SoundInstallKeepsInvariant(config: Config, s: State, next: Allocation)
    requires Invariant(config, s) && SoundAllocation(next) && config.verifier.Some?
    ensures Invariant(config, InstallChecked(s, next).0)
  {
    if EffectOf(s, next).Resumed? {
      KeptSeatsAreSound(next.seats, ResumedBy(next, s.authorityStarted).seats);
    }
  }

  lemma StartKeepsInvariant(config: Config, s: State, platformId: string, now: int)
    requires Invariant(config, s)
    ensures Invariant(config, Start(config, s, platformId, now).0)
  {
    if s.allocation.Some? {
      var seats := s.allocation.value.seats;
      KeptSeatsAreSound(seats, ConnectLocalHost(seats, platformId));
    }
  }

  lemma JoinKeepsInvariant(config: Config, s: State, token: Token<GrantClaims>, platformId: string, now: int)
    requires Invariant(config, s)
    ensures Invariant(config, Join(config, s, token, platformId, now).state)
  {
    var r := Join(config, s, token, platformId, now);
    if r.code == Accepted {
      KeptSeatsAreSound(s.allocation.value.seats, r.state.allocation.value.seats);
    }
  }

  lemma DisconnectKeepsInvariant(config: Config, s: State, playerId: string, generation: int)
    requires Invariant(config, s)
    ensures Invariant(config, Disconnect(s, playerId, generation).0)
  {
    var r := Disconnect(s, playerId, generation);
    if r.1 == Accepted {
      KeptSeatsAreSound(s.allocation.value.seats, r.0.allocation.value.seats);
    }
  }

  lemma HostIsUnique(config: Config, s: State, p: string, q: string)
    requires Invariant(config, s) && s.allocation.Some?
    requires p in Hosts(s.allocation.value.seats) && q in Hosts(s.allocation.value.seats)
    ensures p == q
  {
    var hosts := Hosts(s.allocation.value.seats);
    if p != q {
      assert {p, q} <= hosts;
      SubsetIsSmaller({p, q}, hosts);
      assert false;
    }
  }

  /** Connecting one host seat is connecting every seat that is the local host's. */
  lemma OneHostConnects(config: Config, s: State, host: string, platformId: string)
    requires Invariant(config, s) && s.allocation.Some?
    requires host in s.allocation.value.seats && IsLocalHost(s.allocation.value.seats[host], platformId)
    ensures var seats := s.allocation.value.seats;
            seats[host := seats[host].(connected := true)] == ConnectLocalHost(seats, platformId)
  {
    var seats := s.allocation.value.seats;
    forall p | p in seats && IsLocalHost(seats[p], platformId) ensures p == host {
      HostIsUnique(config, s, p, host);
    }
  }

  lemma {:induction false} SubsetIsSmaller<T>(a: set<T>, b: set<T>)
    requires a <= b
    ensures |a| <= |b| && (|a| == |b| ==> a == b)
  {
    if a != {} {
      var x :| x in a;
      SubsetIsSmaller(a - {x}, b - {x});
    }
  }
}
