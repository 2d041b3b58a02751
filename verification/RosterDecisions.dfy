/** What admission decides and what a decision changes, written out over claims and states
    (Payload/Admission/StrictRosterPolicy.h:148-154, 171-445). */
module RosterDecisions {
  import opened Basics
  import opened Base64
  import opened RosterInvariant
  import opened RosterSpec

  // ---- The rules for an allocation ----

  predicate Identifier(s: string, maximum: nat) {
    1 <= |s| <= maximum &&
    forall k :: 0 <= k < |s| ==>
      'A' <= s[k] <= 'Z' || 'a' <= s[k] <= 'z' || '0' <= s[k] <= '9' || s[k] == '_' || s[k] == '-' || s[k] == ':'
  }

  /** Signed with the key that comes along, which is a Base64 text of 32 bytes. */
  predicate IsSignedAllocation(config: Config, token: Token<AllocationClaims>, keyId: string, publicKeyBase64: string) {
    config.verifier.Some? && Decoded(publicKeyBase64, false).Some? && |Decoded(publicKeyBase64, false).value| == 32 &&
    token.Jwt? && token.algorithm == "EdDSA" && token.kind == "match-allocation+jwt" && token.keyId == keyId &&
    config.verifier.value(Decoded(publicKeyBase64, false).value, token.signedData, token.signature)
  }

  /** From the control plane to an authority, for this key, in its time window of which the start may be 5 early. */
  predicate IsCurrentAllocation(c: AllocationClaims, keyId: string, now: int) {
    c.issuer == "game-control-plane" && c.audience == "project-rebound-match-authority" && c.keyId == keyId &&
    c.notBefore - 5 <= now < c.expiresAt
  }

  predicate HasSoundIdentity(c: AllocationClaims) {
    Identifier(c.tokenId, 96) && Identifier(c.attemptId, 128) && Identifier(c.lobbyId, 128) &&
    Identifier(c.authorityId, 128) && Identifier(c.authoritySession, 128) && c.rosterRevision >= 1 &&
    c.routeGeneration >= 1 && 1 <= c.connectionWindow <= 600 && (c.hosting == P2P || c.hosting == Dedicated)
  }

  predicate IsSoundMember(m: SeatClaim) {
    Identifier(m.playerId, 128) && Identifier(m.platformId, 128) && (m.role == Host || m.role == Member) &&
    1 <= m.teamId <= 2 && m.teamSlot >= 0 && m.logicalSlot >= 0 && m.generation >= 1
  }

  /** One to 64 sound members, no two of one player, in one logical slot or in one place of a team. */
  predicate IsSoundRoster(roster: seq<SeatClaim>) {
    1 <= |roster| <= 64 && (forall i :: 0 <= i < |roster| ==> IsSoundMember(roster[i])) &&
    forall i, j :: 0 <= i < j < |roster| ==>
      roster[i].playerId != roster[j].playerId && roster[i].logicalSlot != roster[j].logicalSlot &&
      (roster[i].teamId, roster[i].teamSlot) != (roster[j].teamId, roster[j].teamSlot)
  }

  predicate HasNoHost(roster: seq<SeatClaim>) {
    forall i :: 0 <= i < |roster| ==> roster[i].role != Host
  }

  predicate IsOnlyHost(roster: seq<SeatClaim>, h: nat) {
    h < |roster| && roster[h].role == Host && forall i :: 0 <= i < |roster| && i != h ==> roster[i].role != Host
  }

  predicate HasOneHost(roster: seq<SeatClaim>) {
    exists h: nat :: h < |roster| && IsOnlyHost(roster, h)
  }

  predicate HostsFit(c: AllocationClaims, roster: seq<SeatClaim>) {
    if c.hosting == P2P then HasOneHost(roster) else HasNoHost(roster)
  }

  predicate IsSameAuthority(a: Allocation, c: AllocationClaims) {
    c.attemptId == a.attemptId && c.lobbyId == a.lobbyId && c.hosting == a.hosting && c.authorityId == a.authorityId &&
    c.authoritySession == a.authoritySession && c.rosterRevision == a.rosterRevision
  }

  /** The same route or the next, with as many members. */
  predicate RouteFits(a: Allocation, c: AllocationClaims, roster: seq<SeatClaim>) {
    a.routeGeneration <= c.routeGeneration <= a.routeGeneration + 1 && |roster| == |a.seats|
  }

  /** Every member has the seat the player has already, at this generation or a later one. */
  predicate SeatsFit(a: Allocation, roster: seq<SeatClaim>) {
    forall i :: 0 <= i < |roster| ==>
      var m := roster[i];
      m.playerId in a.seats &&
      var seat := a.seats[m.playerId];
      m.platformId == seat.platformId && m.role == seat.role && m.teamId == seat.teamId &&
      m.teamSlot == seat.teamSlot && m.logicalSlot == seat.logicalSlot && m.generation >= seat.generation
  }

  /** The installed allocation, if any, is not in the way. */
  predicate IsAdmissible(s: State, c: AllocationClaims, roster: seq<SeatClaim>) {
    s.allocation.Some? ==>
      var a := s.allocation.value;
      a.tokenId == c.tokenId || !IsSameAuthority(a, c) || (RouteFits(a, c, roster) && SeatsFit(a, roster))
  }

  // ---- The specification's checks are these rules ----

  lemma IdentifiersAgree(s: string, maximum: nat)
    ensures SafeIdentifier(s, maximum) <==> Identifier(s, maximum)
  {
    if SafeIdentifier(s, maximum) {
      assert forall k :: 0 <= k < |s| ==> SafeCharacter(s[k]);
    }
  }

  lemma MembersAgree(m: SeatClaim)
    ensures ValidSeat(m) <==> IsSoundMember(m)
  {
    IdentifiersAgree(m.playerId, 128);
    IdentifiersAgree(m.platformId, 128);
  }

  lemma RostersAgree(roster: seq<SeatClaim>)
    ensures 0 < |roster| <= 64 && ValidRoster(roster) <==> IsSoundRoster(roster)
  {
    forall i | 0 <= i < |roster| ensures ValidSeat(roster[i]) <==> IsSoundMember(roster[i]) {
      MembersAgree(roster[i]);
    }
  }

  lemma IdentitiesAgree(c: AllocationClaims)
    ensures ClaimsAreSound(c) <==> HasSoundIdentity(c)
  {
    IdentifiersAgree(c.tokenId, 96);
    IdentifiersAgree(c.attemptId, 128);
    IdentifiersAgree(c.lobbyId, 128);
    IdentifiersAgree(c.authorityId, 128);
    IdentifiersAgree(c.authoritySession, 128);
  }

  lemma {:induction false} NoHostExactly(roster: seq<SeatClaim>)
    ensures HostCount(roster) == 0 <==> HasNoHost(roster)
  {
    if roster != [] {
      var front, last := roster[..|roster| - 1], roster[|roster| - 1];
      NoHostExactly(front);
      assert roster == front + [last];
      if HasNoHost(roster) {
        assert forall i :: 0 <= i < |front| ==> front[i] == roster[i];
      }
      if HasNoHost(front) && last.role != Host {
        assert forall i :: 0 <= i < |roster| ==> roster[i] == if i < |front| then front[i] else last;
      }
    }
  }

  lemma {:induction false} OneHostExactly(roster: seq<SeatClaim>)
    ensures HostCount(roster) == 1 <==> HasOneHost(roster)
  {
    if roster != [] {
      var front, last := roster[..|roster| - 1], roster[|roster| - 1];
      OneHostExactly(front);
      NoHostExactly(front);
      if last.role == Host {
        LastIsOnlyHost(roster);
      } else {
        HostIsInFront(roster);
      }
    }
  }

  lemma LastIsOnlyHost(roster: seq<SeatClaim>)
    requires roster != [] && roster[|roster| - 1].role == Host
    ensures HasOneHost(roster) <==> HasNoHost(roster[..|roster| - 1])
  {
    var n := |roster| - 1;
    if HasOneHost(roster) {
      var h: nat :| h < |roster| && IsOnlyHost(roster, h);
      assert h == n;
    }
    if HasNoHost(roster[..n]) {
      assert forall i :: 0 <= i < n ==> roster[i] == roster[..n][i];
      assert IsOnlyHost(roster, n);
    }
  }

  lemma HostIsInFront(roster: seq<SeatClaim>)
    requires roster != [] && roster[|roster| - 1].role != Host
    ensures HasOneHost(roster) <==> HasOneHost(roster[..|roster| - 1])
  {
    var front := roster[..|roster| - 1];
    if HasOneHost(roster) {
      var h: nat :| h < |roster| && IsOnlyHost(roster, h);
      assert IsOnlyHost(front, h);
    }
    if HasOneHost(front) {
      var h: nat :| h < |front| && IsOnlyHost(front, h);
      OnlyHostOfFront(roster, h);
    }
  }

  lemma OnlyHostOfFront(roster: seq<SeatClaim>, h: nat)
    requires roster != [] && roster[|roster| - 1].role != Host && IsOnlyHost(roster[..|roster| - 1], h)
    ensures IsOnlyHost(roster, h)
  {
    var front := roster[..|roster| - 1];
    assert forall i :: 0 <= i < |front| ==> roster[i] == front[i];
  }

  /** The seat of every member and no others, with the host connected or nobody. */
  predicate AreFreshSeats(seats: map<string, Seat>, roster: seq<SeatClaim>, hostConnected: bool) {
    (forall p :: p in seats ==> exists i :: 0 <= i < |roster| && roster[i].playerId == p) &&
    forall i :: 0 <= i < |roster| ==>
      var m := roster[i];
      m.playerId in seats &&
      seats[m.playerId] == Seat(m.playerId, m.platformId, m.role, m.teamId, m.teamSlot, m.logicalSlot, m.generation,
                                hostConnected && m.role == Host)
  }

  lemma {:induction false} SeatsOfRoster(roster: seq<SeatClaim>)
    requires ValidRoster(roster)
    ensures AreFreshSeats(SeatsOf(roster), roster, false)
  {
    if roster != [] {
      var front, last := roster[..|roster| - 1], roster[|roster| - 1];
      assert roster == front + [last];
      ValidRosterGrows(front, last);
      SeatsOfRoster(front);
      NewExactlyWithoutClash(last, front);
      OneMoreMember(SeatsOf(front), front, last);
    }
  }

  lemma OneMoreMember(seats: map<string, Seat>, front: seq<SeatClaim>, last: SeatClaim)
    requires AreFreshSeats(seats, front, false) && forall i :: 0 <= i < |front| ==> front[i].playerId != last.playerId
    ensures AreFreshSeats(seats[last.playerId := SeatOf(last)], front + [last], false)
  {
    var roster, grown := front + [last], seats[last.playerId := SeatOf(last)];
    assert forall i :: 0 <= i < |front| ==> roster[i] == front[i];
    forall p | p in grown ensures exists i :: 0 <= i < |roster| && roster[i].playerId == p {
      if p == last.playerId {
        assert roster[|front|].playerId == p;
      } else {
        var i :| 0 <= i < |front| && front[i].playerId == p;
        assert roster[i].playerId == p;
      }
    }
  }

  lemma SeatsFitExactly(a: Allocation, roster: seq<SeatClaim>)
    requires ValidRoster(roster)
    ensures SeatsContinue(a.seats, SeatsOf(roster)) <==> SeatsFit(a, roster)
  {
    SeatsOfRoster(roster);
    var next := SeatsOf(roster);
    if SeatsContinue(a.seats, next) {
      forall i | 0 <= i < |roster| ensures roster[i].playerId in next {
      }
    }
    if SeatsFit(a, roster) {
      forall p | p in next
        ensures p in a.seats && SameSeat(a.seats[p], next[p]) && next[p].generation >= a.seats[p].generation
      {
        var i :| 0 <= i < |roster| && roster[i].playerId == p;
        assert SeatsOf(roster)[roster[i].playerId].role == roster[i].role;
      }
    }
  }

  // ---- Installing ----

  lemma CheckPassesExactly(config: Config, token: Token<AllocationClaims>, keyId: string, publicKeyBase64: string,
                           now: int)
    ensures var r := CheckAllocation(config.verifier, token, keyId, publicKeyBase64, now);
            r.Sound? <==>
              IsSignedAllocation(config, token, keyId, publicKeyBase64) &&
              IsCurrentAllocation(token.claims, keyId, now) && HasSoundIdentity(token.claims) &&
              token.claims.roster.Some? && IsSoundRoster(token.claims.roster.value) &&
              HostsFit(token.claims, token.claims.roster.value)
    ensures var r := CheckAllocation(config.verifier, token, keyId, publicKeyBase64, now);
            r.Refused? ==> r.code != Accepted
  {
    if token.Jwt? {
      IdentitiesAgree(token.claims);
      if token.claims.roster.Some? {
        RostersAgree(token.claims.roster.value);
        NoHostExactly(token.claims.roster.value);
        OneHostExactly(token.claims.roster.value);
      }
    }
  }

  /** An install is accepted exactly when the allocation is signed, current and sound, and the installed one is not in
      the way: it is another authority's, or has the same token, or is continued on the same route or the next. */
  lemma InstallIsAcceptedExactly(config: Config, s: State, token: Token<AllocationClaims>, keyId: string,
                                 publicKeyBase64: string, now: int)
    ensures Install(config, s, token, keyId, publicKeyBase64, now).1 == Accepted <==>
              IsSignedAllocation(config, token, keyId, publicKeyBase64) &&
              IsCurrentAllocation(token.claims, keyId, now) && HasSoundIdentity(token.claims) &&
              token.claims.roster.Some? && IsSoundRoster(token.claims.roster.value) &&
              HostsFit(token.claims, token.claims.roster.value) &&
              IsAdmissible(s, token.claims, token.claims.roster.value)
  {
    CheckPassesExactly(config, token, keyId, publicKeyBase64, now);
    var r := CheckAllocation(config.verifier, token, keyId, publicKeyBase64, now);
    if r.Sound? {
      CheckedIsAdmissible(s, token.claims, r.next);
    }
  }

  lemma CheckedIsAdmissible(s: State, c: AllocationClaims, next: Allocation)
    requires c.roster.Some? && IsSoundRoster(c.roster.value) && next.seats == SeatsOf(c.roster.value)
    requires next == AllocationOf(c, next.keyId, next.publicKey, next.seats)
    ensures InstallChecked(s, next).1 ==
            if IsAdmissible(s, c, c.roster.value) then Accepted
            else if !RouteFits(s.allocation.value, c, c.roster.value) then AllocationGenerationConflict
            else AllocationRosterConflict
  {
    var roster := c.roster.value;
    assert |next.seats| == |roster| by {
      RostersAgree(roster);
      RosterSeatsAreSound(roster);
    }
    if s.allocation.Some? {
      assert SeatsContinue(s.allocation.value.seats, next.seats) <==> SeatsFit(s.allocation.value, roster) by {
        RostersAgree(roster);
        SeatsFitExactly(s.allocation.value, roster);
      }
    }
    CodeOfChecked(s, c, roster, next);
  }

  lemma CodeOfChecked(s: State, c: AllocationClaims, roster: seq<SeatClaim>, next: Allocation)
    requires next == AllocationOf(c, next.keyId, next.publicKey, next.seats) && |next.seats| == |roster|
    requires s.allocation.Some? ==>
               (SeatsContinue(s.allocation.value.seats, next.seats) <==> SeatsFit(s.allocation.value, roster))
    ensures InstallChecked(s, next).1 ==
            if IsAdmissible(s, c, roster) then Accepted
            else if !RouteFits(s.allocation.value, c, roster) then AllocationGenerationConflict
            else AllocationRosterConflict
  {
  }

  /** The code of a refused install names the first rule that fails, in this order. */
  lemma InstallRefusalNamesReason(config: Config, s: State, token: Token<AllocationClaims>, keyId: string,
                                  publicKeyBase64: string, now: int)
    ensures Install(config, s, token, keyId, publicKeyBase64, now).1 ==
            if config.verifier.None? then SignatureVerifierUnavailable
            else if Decoded(publicKeyBase64, false).None? || |Decoded(publicKeyBase64, false).value| != 32 then
              InvalidPublicKey
            else if token.Malformed? then InvalidAllocation
            else if token.algorithm != "EdDSA" || token.kind != "match-allocation+jwt" || token.keyId != keyId then
              AllocationKeyMismatch
            else if !IsSignedAllocation(config, token, keyId, publicKeyBase64) then InvalidAllocationSignature
            else if !IsCurrentAllocation(token.claims, keyId, now) then AllocationInactive
            else if !HasSoundIdentity(token.claims) then InvalidAllocationClaims
            else if token.claims.roster.None? || !IsSoundRoster(token.claims.roster.value) then InvalidAllocationRoster
            else if !HostsFit(token.claims, token.claims.roster.value) then InvalidAllocationHost
            else if IsAdmissible(s, token.claims, token.claims.roster.value) then Accepted
            else if !RouteFits(s.allocation.value, token.claims, token.claims.roster.value) then
              AllocationGenerationConflict
            else AllocationRosterConflict
  {
    var r := CheckAllocation(config.verifier, token, keyId, publicKeyBase64, now);
    if token.Jwt? {
      IdentitiesAgree(token.claims);
      if token.claims.roster.Some? {
        RostersAgree(token.claims.roster.value);
        NoHostExactly(token.claims.roster.value);
        OneHostExactly(token.claims.roster.value);
        if r.Sound? {
          CheckedIsAdmissible(s, token.claims, r.next);
        }
      }
    }
  }

  /** The allocation that the claims describe, with these seats. */
  predicate IsAllocationOf(a: Allocation, c: AllocationClaims, publicKeyBase64: string) {
    a.keyId == c.keyId && Decoded(publicKeyBase64, false) == Some(a.publicKey) && a.tokenId == c.tokenId &&
    a.attemptId == c.attemptId && a.lobbyId == c.lobbyId && a.hosting == c.hosting && a.authorityId == c.authorityId &&
    a.authoritySession == c.authoritySession && a.rosterRevision == c.rosterRevision &&
    a.routeGeneration == c.routeGeneration && a.connectionWindow == c.connectionWindow && a.expiresAt == c.expiresAt
  }

  /** What an accepted install leaves behind. The same token again changes nothing. Otherwise key, token, window and
      expiry are the new ones, always; on the same route the seats stay with their connections, on the next route they
      are those of the new roster, with only the host of a started P2P match connected; used grants and the start stay.
      For another authority the roster's seats start unconnected and nothing of the old state is left. */
  lemma AcceptedInstallEffect(config: Config, s: State, token: Token<AllocationClaims>, keyId: string,
                              publicKeyBase64: string, now: int)
    requires Install(config, s, token, keyId, publicKeyBase64, now).1 == Accepted
    ensures token.Jwt? && token.claims.roster.Some?
    ensures Takes(s, token.claims, token.claims.roster.value, publicKeyBase64,
                  Install(config, s, token, keyId, publicKeyBase64, now).0)
  {
    CheckPassesExactly(config, token, keyId, publicKeyBase64, now);
    RostersAgree(token.claims.roster.value);
    var next := CheckAllocation(config.verifier, token, keyId, publicKeyBase64, now).next;
    TakenAllocation(s, token.claims, token.claims.roster.value, publicKeyBase64, next);
  }

  predicate Takes(s: State, c: AllocationClaims, roster: seq<SeatClaim>, publicKeyBase64: string, t: State) {
    if s.allocation.Some? && s.allocation.value.tokenId == c.tokenId then t == s
    else
      t.allocation.Some? && IsAllocationOf(t.allocation.value, c, publicKeyBase64) &&
      var seats := t.allocation.value.seats;
      if s.allocation.None? || !IsSameAuthority(s.allocation.value, c) then
        AreFreshSeats(seats, roster, false) && t.usedJtis == {} && !t.authorityStarted
      else
        t.usedJtis == s.usedJtis && t.authorityStarted == s.authorityStarted &&
        if c.routeGeneration == s.allocation.value.routeGeneration then seats == s.allocation.value.seats
        else AreFreshSeats(seats, roster, s.authorityStarted && c.hosting == P2P)
  }

  lemma TakenAllocation(s: State, c: AllocationClaims, roster: seq<SeatClaim>, publicKeyBase64: string,
                        next: Allocation)
    requires ValidRoster(roster) && IsAllocationOf(next, c, publicKeyBase64) && next.seats == SeatsOf(roster)
    requires InstallChecked(s, next).1 == Accepted
    ensures Takes(s, c, roster, publicKeyBase64, InstallChecked(s, next).0)
  {
    if s.allocation.None? || !IsSameAuthority(s.allocation.value, c) {
      SeatsOfRoster(roster);
    } else if c.routeGeneration != s.allocation.value.routeGeneration {
      ResumedAllocation(s, c, roster, publicKeyBase64, next);
    }
  }

  lemma ResumedAllocation(s: State, c: AllocationClaims, roster: seq<SeatClaim>, publicKeyBase64: string,
                          next: Allocation)
    requires ValidRoster(roster) && IsAllocationOf(next, c, publicKeyBase64) && next.seats == SeatsOf(roster)
    requires s.allocation.Some? && IsSameAuthority(s.allocation.value, c) && InstallChecked(s, next).1 == Accepted
    requires c.routeGeneration != s.allocation.value.routeGeneration
    ensures Takes(s, c, roster, publicKeyBase64, InstallChecked(s, next).0)
  {
    if s.allocation.value.tokenId != c.tokenId {
      ResumeResult(s, next);
      SeatsOfRoster(roster);
      ReconnectedSeats(next.seats, roster);
      FreshSeatsAreTaken(s, c, roster, publicKeyBase64, next,
                         if s.authorityStarted && c.hosting == P2P then HostConnected(next.seats) else next.seats);
    }
  }

  lemma ResumeResult(s: State, next: Allocation)
    requires s.allocation.Some? && InstallChecked(s, next).1 == Accepted
    requires var a := s.allocation.value;
             a.tokenId != next.tokenId && SameAuthority(a, next) && next.routeGeneration != a.routeGeneration
    ensures var seats := if s.authorityStarted && next.hosting == P2P then HostConnected(next.seats) else next.seats;
            InstallChecked(s, next).0 == s.(allocation := Some(next.(seats := seats)))
  {
  }

  lemma FreshSeatsAreTaken(s: State, c: AllocationClaims, roster: seq<SeatClaim>, publicKeyBase64: string,
                           next: Allocation, seats: map<string, Seat>)
    requires s.allocation.Some? && s.allocation.value.tokenId != c.tokenId && IsAllocationOf(next, c, publicKeyBase64)
    requires IsSameAuthority(s.allocation.value, c) && c.routeGeneration != s.allocation.value.routeGeneration
    requires AreFreshSeats(seats, roster, s.authorityStarted && c.hosting == P2P)
    ensures Takes(s, c, roster, publicKeyBase64, s.(allocation := Some(next.(seats := seats))))
  {
  }

  lemma ReconnectedSeats(seats: map<string, Seat>, roster: seq<SeatClaim>)
    requires AreFreshSeats(seats, roster, false)
    ensures AreFreshSeats(HostConnected(seats), roster, true)
  {
  }

  // ---- Starting ----

  /** A start is accepted exactly for a live allocation with verified paths and, in a P2P match, a host seat of the
      local platform. Then exactly those host seats are connected, the authority is started, and nothing else
      changes. */
  lemma StartExactly(config: Config, s: State, platformId: string, now: int)
    ensures Start(config, s, platformId, now).1 == Accepted <==>
              s.allocation.Some? && now < s.allocation.value.expiresAt && config.nativePathReady &&
              (s.allocation.value.hosting == P2P ==>
                exists p :: p in s.allocation.value.seats && s.allocation.value.seats[p].role == Host &&
                            s.allocation.value.seats[p].platformId == platformId)
    ensures Start(config, s, platformId, now).1 == Accepted ==>
              var t, seats := Start(config, s, platformId, now).0, s.allocation.value.seats;
              t.authorityStarted && t.usedJtis == s.usedJtis && t.allocation.Some? &&
              var seats' := t.allocation.value.seats;
              t.allocation.value == s.allocation.value.(seats := seats') && seats'.Keys == seats.Keys &&
              forall p :: p in seats ==>
                seats'[p] == seats[p].(connected :=
                  seats[p].connected ||
                  (s.allocation.value.hosting == P2P && seats[p].role == Host && seats[p].platformId == platformId))
    ensures Start(config, s, platformId, now).1 != Accepted ==>
              Start(config, s, platformId, now) ==
                (s, if s.allocation.None? || s.allocation.value.expiresAt <= now then AllocationUnavailable
                    else if !config.nativePathReady then NativeAdmissionUnverified else HostIdentityMismatch)
  {
    if s.allocation.Some? {
      var seats := s.allocation.value.seats;
      assert HasLocalHost(seats, platformId) <==>
             exists p :: p in seats && seats[p].role == Host && seats[p].platformId == platformId;
    }
  }

  // ---- Joining and leaving ----

  predicate IsSignedGrant(config: Config, a: Allocation, token: Token<GrantClaims>) {
    config.verifier.Some? && token.Jwt? && token.algorithm == "EdDSA" && token.kind == "match-join+jwt" &&
    token.keyId == a.keyId && config.verifier.value(a.publicKey, token.signedData, token.signature)
  }

  predicate IsAddressedGrant(a: Allocation, c: GrantClaims, platformId: string, now: int) {
    c.issuer == "game-control-plane" && c.audience == "project-rebound-match-client" && c.keyId == a.keyId &&
    c.attemptId == a.attemptId && c.lobbyId == a.lobbyId && c.authorityId == a.authorityId &&
    c.authoritySession == a.authoritySession && c.hosting == a.hosting && c.rosterRevision == a.rosterRevision &&
    c.routeGeneration == a.routeGeneration && c.notBefore - 5 <= now < c.expiresAt && c.platformId == platformId &&
    Identifier(c.jti, 96)
  }

  predicate IsGrantForSeat(seat: Seat, c: GrantClaims) {
    c.platformId == seat.platformId && c.teamId == seat.teamId && c.teamSlot == seat.teamSlot &&
    c.logicalSlot == seat.logicalSlot && c.generation >= seat.generation
  }

  /** The grant entitles its bearer to a seat now. */
  predicate Entitled(config: Config, s: State, token: Token<GrantClaims>, platformId: string, now: int) {
    config.nativePathReady && s.authorityStarted && s.allocation.Some? &&
    var a := s.allocation.value;
    now < a.expiresAt && IsSignedGrant(config, a, token) &&
    var c := token.claims;
    IsAddressedGrant(a, c, platformId, now) && c.playerId in a.seats && c.jti !in s.usedJtis &&
    var seat := a.seats[c.playerId];
    !(a.hosting == P2P && seat.role == Host) && IsGrantForSeat(seat, c) &&
    (seat.connected ==> seat.generation < c.generation)
  }

  /** The code of a join names the first rule that fails, in this order; it is accepted if none does. */
  lemma JoinRefusalNamesReason(config: Config, s: State, token: Token<GrantClaims>, platformId: string, now: int)
    ensures Join(config, s, token, platformId, now).code ==
            if !config.nativePathReady || !s.authorityStarted || s.allocation.None? then AdmissionClosed else
            var a := s.allocation.value;
            if now >= a.expiresAt then AllocationExpired
            else if !IsSignedGrant(config, a, token) then InvalidGrantSignature else
            var c := token.claims;
            if !IsAddressedGrant(a, c, platformId, now) then GrantClaimMismatch
            else if c.playerId !in a.seats then PlayerNotRostered
            else if a.hosting == P2P && a.seats[c.playerId].role == Host then HostUsesAllocation
            else if !IsGrantForSeat(a.seats[c.playerId], c) then SeatClaimMismatch
            else if c.jti in s.usedJtis then GrantReplayed
            else if a.seats[c.playerId].connected && c.generation == a.seats[c.playerId].generation then
              SeatAlreadyConnected
            else Accepted
  {
    if token.Jwt? {
      IdentifiersAgree(token.claims.jti, 96);
    }
  }

  /** A disconnect is accepted exactly for the generation of the player's seat. Then that seat is not connected, and
      nothing else has changed. */
  lemma DisconnectExactly(s: State, player: string, generation: int)
    ensures Disconnect(s, player, generation).1 ==
            if s.allocation.None? then AllocationUnavailable
            else if player in s.allocation.value.seats && s.allocation.value.seats[player].generation == generation
            then Accepted
            else ConnectionGenerationStale
    ensures Disconnect(s, player, generation).1 == Accepted ==>
              var t, seats := Disconnect(s, player, generation).0, s.allocation.value.seats;
              t.usedJtis == s.usedJtis && t.authorityStarted == s.authorityStarted && t.allocation.Some? &&
              var seats' := t.allocation.value.seats;
              t.allocation.value == s.allocation.value.(seats := seats') && seats'.Keys == seats.Keys &&
              (forall p :: p in seats && p != player ==> seats'[p] == seats[p]) &&
              seats'[player] == seats[player].(connected := false)
  {
  }

  /** After an accepted disconnect the player gets back in, at the same generation, with any other grant that fits:
      nothing but the old connection was in the way. */
  lemma DisconnectedPlayerGetsBackIn(config: Config, s: State, player: string, generation: int,
                                     token: Token<GrantClaims>, platformId: string, now: int)
    requires Disconnect(s, player, generation).1 == Accepted && config.nativePathReady && s.authorityStarted
    requires var a := s.allocation.value;
             now < a.expiresAt && IsSignedGrant(config, a, token) && token.claims.playerId == player &&
             token.claims.generation == generation && IsAddressedGrant(a, token.claims, platformId, now) &&
             token.claims.jti !in s.usedJtis && !(a.hosting == P2P && a.seats[player].role == Host) &&
             IsGrantForSeat(a.seats[player], token.claims)
    ensures var t := Disconnect(s, player, generation).0;
            Join(config, t, token, platformId, now).code == Accepted &&
            (Join(config, s, token, platformId, now).code == Accepted <==> !s.allocation.value.seats[player].connected)
  {
    JoinRefusalNamesReason(config, s, token, platformId, now);
    JoinRefusalNamesReason(config, Disconnect(s, player, generation).0, token, platformId, now);
  }
}
