/** The decisions of strict roster admission as functions of the policy state
    (Payload/Admission/StrictRosterPolicy.h:171-520). */
module RosterSpec {
  import opened Basics
  import opened Base64

  /** Decision codes. */
  datatype Code =
    | Accepted
    | SignatureVerifierUnavailable
    | InvalidPublicKey
    | InvalidAllocation
    | AllocationKeyMismatch
    | InvalidAllocationSignature
    | AllocationInactive
    | InvalidAllocationClaims
    | InvalidAllocationRoster
    | InvalidAllocationHost
    | AllocationGenerationConflict
    | AllocationRosterConflict
    | AllocationUnavailable
    | NativeAdmissionUnverified
    | HostIdentityMismatch
    | AdmissionClosed
    | AllocationExpired
    | InvalidGrantSignature
    | GrantClaimMismatch
    | PlayerNotRostered
    | HostUsesAllocation
    | SeatClaimMismatch
    | GrantReplayed
    | SeatAlreadyConnected
    | ConnectionGenerationStale

  datatype Hosting = Dedicated | P2P | OtherHosting(text: string)
  datatype Role = Host | Member | OtherRole(text: string)

  /** A roster member with the defaults of the source for absent fields. A member that is not an object is the
      record of all defaults: both are refused with the same code. */
  datatype SeatClaim = SeatClaim(playerId: string, platformId: string, role: Role, teamId: int, teamSlot: int,
                                 logicalSlot: int, generation: int)

  datatype AllocationClaims = AllocationClaims(
    issuer: string, audience: string, keyId: string, notBefore: int, expiresAt: int, tokenId: string,
    attemptId: string, lobbyId: string, hosting: Hosting, authorityId: string, authoritySession: string,
    rosterRevision: int, routeGeneration: int, connectionWindow: int, roster: Option<seq<SeatClaim>>)

  datatype GrantClaims = GrantClaims(
    issuer: string, audience: string, keyId: string, notBefore: int, expiresAt: int, jti: string,
    attemptId: string, lobbyId: string, hosting: Hosting, authorityId: string, authoritySession: string,
    rosterRevision: int, routeGeneration: int, playerId: string, platformId: string, teamId: int, teamSlot: int,
    logicalSlot: int, generation: int)

  /** A token after ParseJwt: malformed, or its header, claims, signed text and signature. */
  datatype Token<+Claims> =
    | Malformed
    | Jwt(algorithm: string, kind: string, keyId: string, claims: Claims, signedData: seq<Byte>, signature: seq<Byte>)

  type Verifier = (seq<Byte>, seq<Byte>, seq<Byte>) -> bool

  datatype Seat = Seat(playerId: string, platformId: string, role: Role, teamId: int, teamSlot: int,
                       logicalSlot: int, generation: int, connected: bool)

  datatype Allocation = Allocation(
    keyId: string, publicKey: seq<Byte>, tokenId: string, attemptId: string, lobbyId: string, hosting: Hosting,
    authorityId: string, authoritySession: string, rosterRevision: int, routeGeneration: int,
    connectionWindow: int, expiresAt: int, seats: map<string, Seat>)

  datatype State = State(allocation: Option<Allocation>, usedJtis: set<string>, authorityStarted: bool)

  /** What the policy is constructed with. */
  datatype Config = Config(verifier: Option<Verifier>, nativePathReady: bool)

  const INITIAL := State(None, {}, false)

  predicate SafeCharacter(ch: char) {
    'a' <= ch <= 'z' || 'A' <= ch <= 'Z' || '0' <= ch <= '9' || ch == '_' || ch == '-' || ch == ':'
  }

  predicate SafeIdentifier(value: string, maximum: nat) {
    0 < |value| <= maximum && forall i :: 0 <= i < |value| ==> SafeCharacter(value[i])
  }

  // ---- The roster of an allocation ----

  predicate ValidSeat(c: SeatClaim) {
    SafeIdentifier(c.playerId, 128) && SafeIdentifier(c.platformId, 128) && !c.role.OtherRole? &&
    (c.teamId == 1 || c.teamId == 2) && c.teamSlot >= 0 && c.logicalSlot >= 0 && c.generation >= 1
  }

  predicate Clash(a: SeatClaim, b: SeatClaim) {
    a.playerId == b.playerId || a.logicalSlot == b.logicalSlot || (a.teamId == b.teamId && a.teamSlot == b.teamSlot)
  }

  predicate ValidRoster(roster: seq<SeatClaim>) {
    (forall i :: 0 <= i < |roster| ==> ValidSeat(roster[i])) &&
    (forall i, j :: 0 <= i < j < |roster| ==> !Clash(roster[i], roster[j]))
  }

  function SeatOf(c: SeatClaim): Seat {
    Seat(c.playerId, c.platformId, c.role, c.teamId, c.teamSlot, c.logicalSlot, c.generation, false)
  }

  function SeatsOf(roster: seq<SeatClaim>): map<string, Seat> {
    if roster == [] then map[] else
    var last := roster[|roster| - 1];
    SeatsOf(roster[..|roster| - 1])[last.playerId := SeatOf(last)]
  }

  function HostCount(roster: seq<SeatClaim>): nat {
    if roster == [] then 0 else
    HostCount(roster[..|roster| - 1]) + if roster[|roster| - 1].role == Host then 1 else 0
  }

  function Players(roster: seq<SeatClaim>): set<string> {
    set c | c in roster :: c.playerId
  }

  function LogicalSlots(roster: seq<SeatClaim>): set<int> {
    set c | c in roster :: c.logicalSlot
  }

  function TeamSlots(roster: seq<SeatClaim>): set<(int, int)> {
    set c | c in roster :: (c.teamId, c.teamSlot)
  }

  lemma SlotsGrow(front: seq<SeatClaim>, last: SeatClaim)
    ensures Players(front + [last]) == Players(front) + {last.playerId}
    ensures LogicalSlots(front + [last]) == LogicalSlots(front) + {last.logicalSlot}
    ensures TeamSlots(front + [last]) == TeamSlots(front) + {(last.teamId, last.teamSlot)}
  {
  }

  predicate IsNew(c: SeatClaim, front: seq<SeatClaim>) {
    c.playerId !in Players(front) && c.logicalSlot !in LogicalSlots(front) &&
    (c.teamId, c.teamSlot) !in TeamSlots(front)
  }

  lemma NewExactlyWithoutClash(c: SeatClaim, front: seq<SeatClaim>)
    ensures IsNew(c, front) <==> forall i :: 0 <= i < |front| ==> !Clash(front[i], c)
  {
    if IsNew(c, front) {
      forall i | 0 <= i < |front| ensures !Clash(front[i], c) {
        assert front[i] in front;
      }
    } else {
      var d :| d in front && Clash(d, c);
    }
  }

  lemma ValidRosterGrows(front: seq<SeatClaim>, last: SeatClaim)
    ensures ValidRoster(front + [last]) <==> ValidRoster(front) && ValidSeat(last) && IsNew(last, front)
  {
    var roster := front + [last];
    NewExactlyWithoutClash(last, front);
    assert roster[|front|] == last;
    if ValidRoster(roster) {
      forall i | 0 <= i < |front| ensures ValidSeat(front[i]) && !Clash(front[i], last) {
        assert roster[i] == front[i] && roster[|front|] == last;
      }
      forall i, j | 0 <= i < j < |front| ensures !Clash(front[i], front[j]) {
        assert roster[i] == front[i] && roster[j] == front[j];
      }
    }
    if ValidRoster(front) && ValidSeat(last) && IsNew(last, front) {
      forall i, j | 0 <= i < j < |roster| ensures !Clash(roster[i], roster[j]) {
        assert roster[i] == front[i] && (j < |front| ==> roster[j] == front[j]);
      }
    }
  }

  lemma ValidRosterHasValidFront(roster: seq<SeatClaim>, i: nat)
    requires i <= |roster|
    ensures ValidRoster(roster) ==> ValidRoster(roster[..i])
  {
  }

  lemma SeatsStep(roster: seq<SeatClaim>, i: nat)
    requires i < |roster|
    ensures roster[..i + 1] == roster[..i] + [roster[i]]
    ensures SeatsOf(roster[..i + 1]) == SeatsOf(roster[..i])[roster[i].playerId := SeatOf(roster[i])]
    ensures HostCount(roster[..i + 1]) == HostCount(roster[..i]) + if roster[i].role == Host then 1 else 0
  {
    assert roster[..i + 1][..i] == roster[..i];
  }

  // ---- InstallAllocation ----

  datatype Checked = Refused(code: Code) | Sound(next: Allocation)

  predicate ClaimsAreSound(c: AllocationClaims) {
    SafeIdentifier(c.tokenId, 96) && SafeIdentifier(c.attemptId, 128) && SafeIdentifier(c.lobbyId, 128) &&
    SafeIdentifier(c.authorityId, 128) && SafeIdentifier(c.authoritySession, 128) &&
    c.rosterRevision >= 1 && c.routeGeneration >= 1 && 1 <= c.connectionWindow <= 600 && !c.hosting.OtherHosting?
  }

  function AllocationOf(c: AllocationClaims, keyId: string, publicKey: seq<Byte>, seats: map<string, Seat>)
    : Allocation
  {
    Allocation(keyId, publicKey, c.tokenId, c.attemptId, c.lobbyId, c.hosting, c.authorityId, c.authoritySession,
               c.rosterRevision, c.routeGeneration, c.connectionWindow, c.expiresAt, seats)
  }

  /** Every check that does not look at the state, in the order of the source. */
  function CheckAllocation(verifier: Option<Verifier>, token: Token<AllocationClaims>, keyId: string,
                           publicKeyBase64: string, now: int): Checked
  {
    if verifier.None? then Refused(SignatureVerifierUnavailable) else
    var key := Decoded(publicKeyBase64, false);
    if key.None? || |key.value| != 32 then Refused(InvalidPublicKey)
    else if token.Malformed? then Refused(InvalidAllocation)
    else if token.algorithm != "EdDSA" || token.kind != "match-allocation+jwt" || token.keyId != keyId then
      Refused(AllocationKeyMismatch)
    else if !verifier.value(key.value, token.signedData, token.signature) then Refused(InvalidAllocationSignature)
    else
      var c := token.claims;
      if c.issuer != "game-control-plane" || c.audience != "project-rebound-match-authority" || c.keyId != keyId ||
         c.notBefore > now + 5 || c.expiresAt <= now then
        Refused(AllocationInactive)
      else if !ClaimsAreSound(c) then Refused(InvalidAllocationClaims)
      else if c.roster.None? || !(0 < |c.roster.value| <= 64) || !ValidRoster(c.roster.value) then
        Refused(InvalidAllocationRoster)
      else if (c.hosting == P2P && HostCount(c.roster.value) != 1) ||
              (c.hosting == Dedicated && HostCount(c.roster.value) != 0) then
        Refused(InvalidAllocationHost)
      else Sound(AllocationOf(c, keyId, key.value, SeatsOf(c.roster.value)))
  }

  /** The same attempt, lobby, hosting, authority, session and roster revision. */
  predicate SameAuthority(a: Allocation, b: Allocation) {
    a.attemptId == b.attemptId && a.lobbyId == b.lobbyId && a.hosting == b.hosting &&
    a.authorityId == b.authorityId && a.authoritySession == b.authoritySession && a.rosterRevision == b.rosterRevision
  }

  /** The seat fields that are frozen for the life of an allocation. */
  predicate SameSeat(a: Seat, b: Seat) {
    a.platformId == b.platformId && a.role == b.role && a.teamId == b.teamId && a.teamSlot == b.teamSlot &&
    a.logicalSlot == b.logicalSlot
  }

  predicate SeatsContinue(current: map<string, Seat>, next: map<string, Seat>) {
    forall p :: p in next ==>
      p in current && SameSeat(current[p], next[p]) && next[p].generation >= current[p].generation
  }

  /** What an allocation that passed the checks means for the installed one. */
  datatype Effect = Repeated | Conflict(code: Code) | Refreshed | Resumed | Replaced

  function EffectOf(s: State, next: Allocation): Effect {
    if s.allocation.None? then Replaced else
    var a := s.allocation.value;
    if a.tokenId == next.tokenId then Repeated
    else if SameAuthority(a, next) then
      if next.routeGeneration < a.routeGeneration || next.routeGeneration > a.routeGeneration + 1 ||
         |next.seats| != |a.seats| then Conflict(AllocationGenerationConflict)
      else if !SeatsContinue(a.seats, next.seats) then Conflict(AllocationRosterConflict)
      else if next.routeGeneration == a.routeGeneration then Refreshed
      else Resumed
    else Replaced
  }

  /** A refresh takes the key, the token and the expiry; the seats stay. */
  function RefreshedBy(a: Allocation, next: Allocation): Allocation {
    a.(keyId := next.keyId, publicKey := next.publicKey, tokenId := next.tokenId,
       connectionWindow := next.connectionWindow, expiresAt := next.expiresAt)
  }

  function HostConnected(seats: map<string, Seat>): map<string, Seat> {
    map p | p in seats :: seats[p].(connected := seats[p].role == Host)
  }

  /** A resumed route takes the whole new snapshot; only a started P2P host is still connected. */
  function ResumedBy(next: Allocation, started: bool): Allocation {
    if started && next.hosting == P2P then next.(seats := HostConnected(next.seats)) else next
  }

  function InstallChecked(s: State, next: Allocation): (State, Code) {
    match EffectOf(s, next)
    case Repeated => (s, Accepted)
    case Conflict(code) => (s, code)
    case Refreshed => (s.(allocation := Some(RefreshedBy(s.allocation.value, next))), Accepted)
    case Resumed => (s.(allocation := Some(ResumedBy(next, s.authorityStarted))), Accepted)
    case Replaced => (State(Some(next), {}, false), Accepted)
  }

  function Install(config: Config, s: State, token: Token<AllocationClaims>, keyId: string, publicKeyBase64: string,
                   now: int): (State, Code)
  {
    match CheckAllocation(config.verifier, token, keyId, publicKeyBase64, now)
    case Refused(code) => (s, code)
    case Sound(next) => InstallChecked(s, next)
  }

  // ---- StartAuthority ----

  predicate IsLocalHost(seat: Seat, platformId: string) {
    seat.role == Host && seat.platformId == platformId
  }

  predicate HasLocalHost(seats: map<string, Seat>, platformId: string) {
    exists p :: p in seats && IsLocalHost(seats[p], platformId)
  }

  function ConnectLocalHost(seats: map<string, Seat>, platformId: string): map<string, Seat> {
    map p | p in seats :: if IsLocalHost(seats[p], platformId) then seats[p].(connected := true) else seats[p]
  }

  function Start(config: Config, s: State, platformId: string, now: int): (State, Code) {
    if s.allocation.None? || s.allocation.value.expiresAt <= now then (s, AllocationUnavailable)
    else if !config.nativePathReady then (s, NativeAdmissionUnverified)
    else
      var a := s.allocation.value;
      if a.hosting != P2P then (s.(authorityStarted := true), Accepted)
      else if !HasLocalHost(a.seats, platformId) then (s, HostIdentityMismatch)
      else (s.(allocation := Some(a.(seats := ConnectLocalHost(a.seats, platformId))), authorityStarted := true),
            Accepted)
  }

  // ---- ValidateJoinGrant ----

  /** The seat an accepted join is told to take. */
  datatype SeatGrant = SeatGrant(teamId: int, teamSlot: int, logicalSlot: int, generation: int, takesOver: bool)

  datatype JoinResult = JoinResult(state: State, code: Code, grant: Option<SeatGrant>)

  predicate GrantIsSigned(config: Config, a: Allocation, token: Token<GrantClaims>) {
    token.Jwt? && token.algorithm == "EdDSA" && token.kind == "match-join+jwt" && token.keyId == a.keyId &&
    config.verifier.Some? && config.verifier.value(a.publicKey, token.signedData, token.signature)
  }

  predicate GrantIsForAuthority(a: Allocation, c: GrantClaims, platformId: string, now: int) {
    c.issuer == "game-control-plane" && c.audience == "project-rebound-match-client" && c.keyId == a.keyId &&
    c.attemptId == a.attemptId && c.lobbyId == a.lobbyId && c.authorityId == a.authorityId &&
    c.authoritySession == a.authoritySession && c.hosting == a.hosting && c.rosterRevision == a.rosterRevision &&
    c.routeGeneration == a.routeGeneration && c.notBefore <= now + 5 && c.expiresAt > now &&
    c.platformId == platformId && SafeIdentifier(c.jti, 96)
  }

  predicate GrantOwnsSeat(seat: Seat, c: GrantClaims) {
    c.platformId == seat.platformId && c.teamId == seat.teamId && c.teamSlot == seat.teamSlot &&
    c.logicalSlot == seat.logicalSlot && c.generation >= seat.generation
  }

  function Join(config: Config, s: State, token: Token<GrantClaims>, platformId: string, now: int): JoinResult {
    if !config.nativePathReady || !s.authorityStarted || s.allocation.None? then
      JoinResult(s, AdmissionClosed, None)
    else
    var a := s.allocation.value;
    if a.expiresAt <= now then JoinResult(s, AllocationExpired, None)
    else if !GrantIsSigned(config, a, token) then JoinResult(s, InvalidGrantSignature, None) else
    var c := token.claims;
    if !GrantIsForAuthority(a, c, platformId, now) then JoinResult(s, GrantClaimMismatch, None)
    else if c.playerId !in a.seats then JoinResult(s, PlayerNotRostered, None) else
    var seat := a.seats[c.playerId];
    if a.hosting == P2P && seat.role == Host then JoinResult(s, HostUsesAllocation, None)
    else if !GrantOwnsSeat(seat, c) then JoinResult(s, SeatClaimMismatch, None)
    else if c.jti in s.usedJtis then JoinResult(s, GrantReplayed, None) else
    var consumed := s.(usedJtis := s.usedJtis + {c.jti});
    if seat.connected && c.generation == seat.generation then JoinResult(consumed, SeatAlreadyConnected, None) else
    var taken := seat.(generation := c.generation, connected := true);
    JoinResult(consumed.(allocation := Some(a.(seats := a.seats[c.playerId := taken]))), Accepted,
               Some(SeatGrant(seat.teamId, seat.teamSlot, seat.logicalSlot, c.generation,
                              seat.connected && c.generation > seat.generation)))
  }

  // ---- MarkDisconnected ----

  function Disconnect(s: State, playerId: string, generation: int): (State, Code) {
    if s.allocation.None? then (s, AllocationUnavailable) else
    var a := s.allocation.value;
    if playerId !in a.seats || a.seats[playerId].generation != generation then (s, ConnectionGenerationStale)
    else (s.(allocation := Some(a.(seats := a.seats[playerId := a.seats[playerId].(connected := false)]))), Accepted)
  }
}
