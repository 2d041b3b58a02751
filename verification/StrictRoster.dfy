/** The admission policy object (Payload/Admission/StrictRosterPolicy.h:155-534), method by method against
    RosterSpec. */
module StrictRoster {
  import opened Basics
  import opened Base64
  import opened RosterInvariant
  import opened RosterSpec

  /** The first i members are valid, and these are their seats, host count and taken slots. */
  ghost predicate ReadSoFar(roster: seq<SeatClaim>, i: nat, seats: map<string, Seat>, hostCount: nat,
                            logicalSlots: set<int>, teamSlots: set<(int, int)>) {
    i <= |roster| && ValidRoster(roster[..i]) && seats == SeatsOf(roster[..i]) && hostCount == HostCount(roster[..i]) &&
    seats.Keys == Players(roster[..i]) && logicalSlots == LogicalSlots(roster[..i]) &&
    teamSlots == TeamSlots(roster[..i])
  }

  lemma ReadStep(roster: seq<SeatClaim>, i: nat, seats: map<string, Seat>, hostCount: nat, logicalSlots: set<int>,
                 teamSlots: set<(int, int)>)
    requires i < |roster| && ReadSoFar(roster, i, seats, hostCount, logicalSlots, teamSlots)
    ensures var c := roster[i];
            var team := (c.teamId, c.teamSlot);
            if ValidSeat(c) && c.logicalSlot !in logicalSlots && team !in teamSlots && c.playerId !in seats then
              ReadSoFar(roster, i + 1, seats[c.playerId := SeatOf(c)], hostCount + (if c.role == Host then 1 else 0),
                        logicalSlots + {c.logicalSlot}, teamSlots + {team})
            else !ValidRoster(roster)
  {
    SeatsStep(roster, i);
    ValidRosterGrows(roster[..i], roster[i]);
    SlotsGrow(roster[..i], roster[i]);
    ValidRosterHasValidFront(roster, i + 1);
  }

  /** Reads a roster into seats, stopping at the first member that is invalid or clashes with an earlier one. */
  method ReadRoster(roster: seq<SeatClaim>) returns (ok: bool, seats: map<string, Seat>, hostCount: nat)
    ensures ok <==> ValidRoster(roster)
    ensures ok ==> seats == SeatsOf(roster) && hostCount == HostCount(roster)
  {
    var logicalSlots: set<int>, teamSlots: set<(int, int)> := {}, {};
    seats, hostCount := map[], 0;
    for i := 0 to |roster|
      invariant ReadSoFar(roster, i, seats, hostCount, logicalSlots, teamSlots)
    {
      ReadStep(roster, i, seats, hostCount, logicalSlots, teamSlots);
      var claim := roster[i];
      var team := (claim.teamId, claim.teamSlot);
      if !ValidSeat(claim) || claim.logicalSlot in logicalSlots || team in teamSlots || claim.playerId in seats {
        return false, seats, hostCount;
      }
      logicalSlots, teamSlots := logicalSlots + {claim.logicalSlot}, teamSlots + {team};
      seats := seats[claim.playerId := SeatOf(claim)];
      if claim.role == Host {
        hostCount := hostCount + 1;
      }
    }
    assert roster[..|roster|] == roster;
    ok := true;
  }

  class Policy {
    const verifier: Option<Verifier>
    const nativePathReady: bool
    var allocation: Option<Allocation>
    var usedJtis: set<string>
    var authorityStarted: bool

    constructor (verifier: Option<Verifier>, nativePathReady: bool)
      ensures this.verifier == verifier && this.nativePathReady == nativePathReady && Valid() && Snapshot() == INITIAL
    {
      this.verifier, this.nativePathReady := verifier, nativePathReady;
      allocation, usedJtis, authorityStarted := None, {}, false;
    }

    function Settings(): Config {
      Config(verifier, nativePathReady)
    }

    function Snapshot(): State
      reads this
    {
      State(allocation, usedJtis, authorityStarted)
    }

    method Check(token: Token<AllocationClaims>, keyId: string, publicKeyBase64: string, now: int)
      returns (result: Checked)
      ensures result == CheckAllocation(verifier, token, keyId, publicKeyBase64, now)
    {
      if verifier.None? {
        return Refused(SignatureVerifierUnavailable);
      }
      var decoded, publicKey := DecodeBase64(publicKeyBase64, false);
      if !decoded || |publicKey| != 32 {
        return Refused(InvalidPublicKey);
      }
      if token.Malformed? {
        return Refused(InvalidAllocation);
      }
      if token.algorithm != "EdDSA" || token.kind != "match-allocation+jwt" || token.keyId != keyId {
        return Refused(AllocationKeyMismatch);
      }
      if !verifier.value(publicKey, token.signedData, token.signature) {
        return Refused(InvalidAllocationSignature);
      }
      var claims := token.claims;
      if claims.issuer != "game-control-plane" || claims.audience != "project-rebound-match-authority" ||
         claims.keyId != keyId || claims.notBefore > now + 5 || claims.expiresAt <= now {
        return Refused(AllocationInactive);
      }
      if !ClaimsAreSound(claims) {
        return Refused(InvalidAllocationClaims);
      }
      if claims.roster.None? || |claims.roster.value| == 0 || |claims.roster.value| > 64 {
        return Refused(InvalidAllocationRoster);
      }
      var ok, seats, hostCount := ReadRoster(claims.roster.value);
      if !ok {
        return Refused(InvalidAllocationRoster);
      }
      if (claims.hosting == P2P && hostCount != 1) || (claims.hosting == Dedicated && hostCount != 0) {
        return Refused(InvalidAllocationHost);
      }
      result := Sound(AllocationOf(claims, keyId, publicKey, seats));
    }

    /** The loop over the frozen seats. */
    method SeatsMatch(current: map<string, Seat>, next: map<string, Seat>) returns (ok: bool)
      ensures ok <==> SeatsContinue(current, next)
    {
      var remaining := next.Keys;
      while remaining != {}
        invariant remaining <= next.Keys
        invariant forall p :: p in next && p !in remaining ==>
                    p in current && SameSeat(current[p], next[p]) && next[p].generation >= current[p].generation
        decreases |remaining|
      {
        var p :| p in remaining;
        if p !in current || !SameSeat(current[p], next[p]) || next[p].generation < current[p].generation {
          return false;
        }
        remaining := remaining - {p};
      }
      ok := true;
    }

    /** The loop that reconnects the host of a resumed route. */
    method Reconnect(seats: map<string, Seat>) returns (result: map<string, Seat>)
      ensures result == HostConnected(seats)
    {
      result := seats;
      var remaining := seats.Keys;
      while remaining != {}
        invariant remaining <= seats.Keys && result.Keys == seats.Keys
        invariant forall p :: p in seats ==>
                    result[p] == if p in remaining then seats[p] else seats[p].(connected := seats[p].role == Host)
        decreases |remaining|
      {
        var p :| p in remaining;
        result := result[p := result[p].(connected := result[p].role == Host)];
        remaining := remaining - {p};
      }
    }

    /** The class invariant: the state is one that RosterInvariant allows. */
    predicate Valid()
      reads this
    {
      Invariant(Settings(), Snapshot())
    }

    method InstallAllocation(token: Token<AllocationClaims>, keyId: string, publicKeyBase64: string, now: int)
      returns (code: Code)
      requires Valid()
      modifies this
      ensures Valid()
      ensures (Snapshot(), code) == Install(Settings(), old(Snapshot()), token, keyId, publicKeyBase64, now)
    {
      InstallKeepsInvariant(Settings(), Snapshot(), token, keyId, publicKeyBase64, now);
      var result := Check(token, keyId, publicKeyBase64, now);
      if result.Refused? {
        return result.code;
      }
      code := Take(result.next);
    }

    /** The part of InstallAllocation that looks at the state, for an allocation that passed the checks. */
    method Take(checked: Allocation) returns (code: Code)
      modifies this
      ensures (Snapshot(), code) == InstallChecked(old(Snapshot()), checked)
    {
      var next := checked;
      if allocation.Some? && allocation.value.tokenId == next.tokenId {
        return Accepted;
      }
      if allocation.Some? && SameAuthority(allocation.value, next) {
        if next.routeGeneration < allocation.value.routeGeneration ||
           next.routeGeneration > allocation.value.routeGeneration + 1 ||
           |next.seats| != |allocation.value.seats| {
          return AllocationGenerationConflict;
        }
        var ok := SeatsMatch(allocation.value.seats, next.seats);
        if !ok {
          return AllocationRosterConflict;
        }
        if next.routeGeneration == allocation.value.routeGeneration {
          allocation := Some(RefreshedBy(allocation.value, next));
          return Accepted;
        }
        var wasStarted := authorityStarted;
        if wasStarted && next.hosting == P2P {
          var seats := Reconnect(next.seats);
          next := next.(seats := seats);
        }
        allocation, authorityStarted := Some(next), wasStarted;
        return Accepted;
      }
      Reset();
      allocation := Some(next);
      code := Accepted;
    }

    /** The search for the host seat of the local machine. */
    method FindHost(seats: map<string, Seat>, platformId: string) returns (host: Option<string>)
      ensures host.None? <==> !HasLocalHost(seats, platformId)
      ensures host.Some? ==> host.value in seats && IsLocalHost(seats[host.value], platformId)
    {
      var remaining := seats.Keys;
      while remaining != {}
        invariant remaining <= seats.Keys
        invariant forall p :: p in seats && p !in remaining ==> !IsLocalHost(seats[p], platformId)
        decreases |remaining|
      {
        var p :| p in remaining;
        if IsLocalHost(seats[p], platformId) {
          return Some(p);
        }
        remaining := remaining - {p};
      }
      host := None;
    }

    method StartAuthority(platformId: string, now: int) returns (code: Code)
      requires Valid()
      modifies this
      ensures Valid()
      ensures (Snapshot(), code) == Start(Settings(), old(Snapshot()), platformId, now)
    {
      StartKeepsInvariant(Settings(), Snapshot(), platformId, now);
      if allocation.None? || allocation.value.expiresAt <= now {
        return AllocationUnavailable;
      }
      if !nativePathReady {
        return NativeAdmissionUnverified;
      }
      if allocation.value.hosting == P2P {
        var seats := allocation.value.seats;
        var host := FindHost(seats, platformId);
        if host.None? {
          return HostIdentityMismatch;
        }
        OneHostConnects(Settings(), Snapshot(), host.value, platformId);
        var connected := seats[host.value := seats[host.value].(connected := true)];
        allocation := Some(allocation.value.(seats := connected));
      }
      authorityStarted := true;
      code := Accepted;
    }

    method ValidateJoinGrant(token: Token<GrantClaims>, platformId: string, now: int)
      returns (code: Code, grant: Option<SeatGrant>)
      requires Valid()
      modifies this
      ensures Valid()
      ensures JoinResult(Snapshot(), code, grant) == Join(Settings(), old(Snapshot()), token, platformId, now)
    {
      JoinKeepsInvariant(Settings(), Snapshot(), token, platformId, now);
      grant := None;
      if !nativePathReady || !authorityStarted || allocation.None? {
        return AdmissionClosed, None;
      }
      var a := allocation.value;
      if a.expiresAt <= now {
        return AllocationExpired, None;
      }
      if token.Malformed? || token.algorithm != "EdDSA" || token.kind != "match-join+jwt" || token.keyId != a.keyId ||
         !verifier.value(a.publicKey, token.signedData, token.signature) {
        return InvalidGrantSignature, None;
      }
      var claims := token.claims;
      if claims.issuer != "game-control-plane" || claims.audience != "project-rebound-match-client" ||
         claims.keyId != a.keyId || claims.attemptId != a.attemptId || claims.lobbyId != a.lobbyId ||
         claims.authorityId != a.authorityId || claims.authoritySession != a.authoritySession ||
         claims.hosting != a.hosting || claims.rosterRevision != a.rosterRevision ||
         claims.routeGeneration != a.routeGeneration || claims.notBefore > now + 5 || claims.expiresAt <= now ||
         claims.platformId != platformId || !SafeIdentifier(claims.jti, 96) {
        return GrantClaimMismatch, None;
      }
      if claims.playerId !in a.seats {
        return PlayerNotRostered, None;
      }
      var seat := a.seats[claims.playerId];
      if a.hosting == P2P && seat.role == Host {
        return HostUsesAllocation, None;
      }
      if claims.platformId != seat.platformId || claims.teamId != seat.teamId || claims.teamSlot != seat.teamSlot ||
         claims.logicalSlot != seat.logicalSlot || claims.generation < seat.generation {
        return SeatClaimMismatch, None;
      }
      if claims.jti in usedJtis {
        return GrantReplayed, None;
      }
      usedJtis := usedJtis + {claims.jti};
      if seat.connected && claims.generation == seat.generation {
        return SeatAlreadyConnected, None;
      }
      grant := Some(SeatGrant(seat.teamId, seat.teamSlot, seat.logicalSlot, claims.generation,
                              seat.connected && claims.generation > seat.generation));
      seat := seat.(generation := claims.generation, connected := true);
      allocation := Some(a.(seats := a.seats[claims.playerId := seat]));
      code := Accepted;
    }

    method MarkDisconnected(playerId: string, generation: int) returns (code: Code)
      requires Valid()
      modifies this
      ensures Valid()
      ensures (Snapshot(), code) == Disconnect(old(Snapshot()), playerId, generation)
    {
      DisconnectKeepsInvariant(Settings(), Snapshot(), playerId, generation);
      if allocation.None? {
        return AllocationUnavailable;
      }
      var seats := allocation.value.seats;
      if playerId !in seats || seats[playerId].generation != generation {
        return ConnectionGenerationStale;
      }
      allocation := Some(allocation.value.(seats := seats[playerId := seats[playerId].(connected := false)]));
      code := Accepted;
    }

    method Reset()
      modifies this
      ensures Valid() && Snapshot() == INITIAL
    {
      allocation, usedJtis, authorityStarted := None, {}, false;
    }
  }
}
