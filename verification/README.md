# Verified models of the ProjectRebound payload

ProjectRebound runs matches of a game client as dedicated or peer-to-peer servers. Its payload library decides who may
join a match, keeps every player's loadout, talks to a controller over a pipe and records what happened. This project
models those parts of the library whose correctness is hardest to see from the code, and proves what they are for.

- **Signature verification.** The Ed25519 verifier works on sixteen signed 64-bit limbs with lazy carries, in place and
  with aliased arguments, and adds points in extended coordinates. The methods here run on arrays as the original does;
  `FieldValue` and `Value` say which integer they hold. From there the proofs go up: the field and scalar arithmetic,
  completeness of the addition law for these very constants, the ladder, point decoding, and finally that a signature is
  accepted exactly when it satisfies the verification equation, that honestly made signatures are, and that no other
  scalar goes with the same R.
- **Strict roster admission.** The policy object with its allocation, seat table and used grants, method by method, and
  properties of whole runs: replay, one connection per seat, frozen seats, generations, refusals. Its Base64 decoder is
  proved against the encoders of RFC 4648.
- **Loadout lifecycle.** Connections, world epochs, fetches that finish in any order, and deferred role confirmations,
  as steps over a state, with the invariant of every run and where a fetch result can go.
- **Wire formats.** The line-framing reader with the command protocol, and the minimal protobuf decoder.
- **Timeline.** The bounded, hash-chained log of a peer-to-peer match.

## Reading the files

A class whose methods change state is proved against functions of its `Snapshot()`; the lemmas about runs are about
those functions. What such a function decides and changes is written out over its arguments in `RosterDecisions`,
`LoadoutEffects` and the lemmas named `...Exactly` and `...NamesReason`, so that it does not rest on its own name. The
loadout manager works on the pending confirmation of a record through `PendingRoleConfirmation`. A row that begins with
"In one step" states a consequence of a single step, beside the theorems about runs. The files belong together as
follows.

| files | part |
|---|---|
| `Basics`, `Modular`, `PrimeField`, `Bits`, `Digits` | options and bytes, integers modulo m, two's-complement operators, digit strings |
| `FieldArithmetic`, `ScalarOrder` | limb arithmetic, reduction modulo the group order |
| `Edwards`, `NonSquare`, `EdwardsGroup`, `Ladder` | the curve over any parameters, and scalar multiples over any monoid |
| `PointArithmetic`, `Decompression`, `PointCodec` | points on arrays, decoding |
| `VerificationEquation`, `Ed25519Verify` | encodings and the equation over any complete curve, the verifier |
| `BitStrings`, `Base64` | bit strings, Base64 |
| `RosterSpec`, `RosterDecisions`, `RosterInvariant` | admission: decisions, what they mean, invariant |
| `StrictRoster`, `RosterRuns` | admission: policy object, runs |
| `RoleConfirmation`, `Inventory` | policies of the loadout manager |
| `LoadoutSpec`, `LoadoutEffects`, `LoadoutInvariant` | loadouts: steps, what they change, invariant |
| `LoadoutManager` | loadouts: the manager object |
| `LoadoutRuns`, `LoadoutResults`, `LoadoutRetries` | runs: connections and fetches, what records settle with, when fetches start |
| `LoadoutReplays`, `LoadoutDeadlines` | runs: confirmations that are put off again, and how long they wait |
| `FrameReader`, `CommandProtocol` | framing and commands |
| `WireFormat`, `WeaponArchive` | varints and fields, the archive decoder |
| `WeaponRoundTrip`, `UnknownFields`, `TruncatedMessages` | its round trips, and what unknown and cut off fields do to it |
| `Timeline` | the hash chain |

Where one step of a long loop stands in a method of its own (`EliminateTop`, `PushSextet`, `DrainLines` and so on), the
order of the original statements is kept.

## Hypotheses

They are stated where they are used and nowhere else.

- `PrimeModulus(P)`: 2^255 - 19 is prime, in the form of Fermat's little theorem for every residue.
- `Associative(ED25519)`: the affine Edwards law is associative. Closure, the neutral element, inverses, commutativity
  and completeness are proved.
- `CurveTimes(ED25519, L, BASE) == NEUTRAL` in `HonestSignatureIsAccepted`: the base point has order dividing L.
- `NoSmallerOrder(ED25519, BASE, L)` in `SignatureIsUnique`: no positive multiple of the base point below L is neutral.
- SHA-512 is any function that may fail; nothing else about it is used. For the timeline, the digest is any function to
  nonempty text without bars, and the last theorem asks that the texts hashed for the two timelines in question do not
  collide; no claim is made about all texts. Match, capability, nonce and session ids have no bar (`SoundRun`).
- `Lawful(lib)`: the JSON library parses what it dumps, and a dumped object has no line feed and ends with a brace.

## Where the code and its surroundings differ

- Section 5.1.3 of RFC 8032 rejects an encoded y of p or more, and x = 0 with the sign bit set. The code takes y modulo p
  and accepts both; the theorems describe what it does.
- The verification equation is the one without the cofactor 8.
- The Base64 decoder takes any amount of padding, and a single dangling character if its bits are zero. The round trip of
  texts holds exactly outside the second case (`EncodeInvertsDecode`).
- A join grant that meets a seat connected at the same generation is refused and yet used up (`RefusalChangesNothing`).
- A weapon part whose slot varint is cut off has slot 0, not none.
- A bare weapon archive is first read as a request, so a field 3 in it that holds an archive replaces it
  (`UnknownInBareForm`, `BareFormCanChange`). Its parts are read as archives then too: a field 1 inserted in a part,
  which the part itself skips, replaces the whole result by an archive of that id (`UnknownInPartOfBareForm`,
  `PartOfBareFormCanChange`). In a request or an aggregate unknown fields change nothing at any depth.
- A role being replayed can be put off again, and is then dropped, if a fresh role is prepared for the player between
  the poll and the replay. The tick replays right after its poll, so this takes a re-entrant engine call in between
  (`ReplayAfterPollIsDecided`, `HeldBackByFreshRole`, `ReplayCanBeDeferred`, `DeferredRoleWaits`).
- A sequence number of the timeline is used up even when hashing fails, so numbers increase but may have gaps.

## Model

| member | source | states |
|---|---|---|
| `FieldArithmetic.Carry` | Payload/Admission/Ed25519Verifier.cpp:102-114 | One in-place carry pass keeps the limbs 0 to 14 below 2^16 and replaces the value v by v mod 2^256 + 38 (v div 2^256), so it is unchanged mod p; no 64-bit limb overflows. |
| `FieldArithmetic.ConditionalSwap` | Payload/Admission/Ed25519Verifier.cpp:116-125 | The masked exchange is an exact swap for choice 1 and the identity for choice 0, for all limbs. |
| `FieldArithmetic.SubtractPrime` | Payload/Admission/Ed25519Verifier.cpp:139-149 | The borrow chain subtracts exactly p; the borrow is 1 exactly when the value was below p, and otherwise the result is canonical. |
| `FieldArithmetic.PackField` | Payload/Admission/Ed25519Verifier.cpp:127-154 | For all limbs below 2^56 in magnitude, three carries and two conditional subtractions write the unique little-endian representative in [0, p). |
| `FieldArithmetic.EqualBytes` | Payload/Admission/Ed25519Verifier.cpp:156-166 | The accumulated difference is zero exactly when the two byte strings are equal, lengths included. |
| `FieldArithmetic.EqualField` | Payload/Admission/Ed25519Verifier.cpp:168-175 | True exactly when the two limb vectors are congruent mod p, whatever their representation. |
| `FieldArithmetic.Parity` | Payload/Admission/Ed25519Verifier.cpp:177-182 | The low bit of the representative in [0, p). |
| `FieldArithmetic.UnpackField` | Payload/Admission/Ed25519Verifier.cpp:184-192 | The limbs are canonical and denote the 32 bytes mod 2^255: the top bit is dropped, y < p is not demanded. |
| `FieldArithmetic.AddField` | Payload/Admission/Ed25519Verifier.cpp:194-198 | Limb-wise sum under every aliasing, so the values add exactly and no limb overflows. |
| `FieldArithmetic.SubtractField` | Payload/Admission/Ed25519Verifier.cpp:200-204 | Limb-wise difference under every aliasing, exactly. |
| `FieldArithmetic.MultiplyField` | Payload/Admission/Ed25519Verifier.cpp:206-219 | Multiplication mod p under every aliasing of output and operands; for limbs up to 2^18 nothing overflows int64, limb 0 ends in [-38, 65573] and the others in [0, 65535]. |
| `FieldArithmetic.SquareField` | Payload/Admission/Ed25519Verifier.cpp:221-224 | The square mod p, in place as well, with the bounds of a product. |
| `FieldArithmetic.InvertField` | Payload/Admission/Ed25519Verifier.cpp:226-236 | Computes x^(p-2) mod p through the loop that skips two bits of the exponent. |
| `FieldArithmetic.Power2523` | Payload/Admission/Ed25519Verifier.cpp:238-248 | Computes x^((p-5)/8) mod p through the loop that skips one bit of the exponent. |
| `PointArithmetic.ConstantsAreRight` | Payload/Admission/Ed25519Verifier.cpp:26-40 | The integers D, I, BASE_X and BASE_Y are d = -121665/121666, a square root of -1, and a base point with y = 4/5 and even x on the curve. |
| `PointArithmetic.DDenotes` | Payload/Admission/Ed25519Verifier.cpp:26-28 | The sixteen limbs of the table for d denote D. |
| `PointArithmetic.D2Denotes` | Payload/Admission/Ed25519Verifier.cpp:29-31 | The limbs of the table for 2d denote 2 D - p, which is 2d mod p. |
| `PointArithmetic.XDenotes` | Payload/Admission/Ed25519Verifier.cpp:32-34 | The limbs of the table for the base point's x denote BASE_X. |
| `PointArithmetic.YDenotes` | Payload/Admission/Ed25519Verifier.cpp:35-37 | The limbs of the table for the base point's y denote BASE_Y. |
| `PointArithmetic.IDenotes` | Payload/Admission/Ed25519Verifier.cpp:38-40 | The limbs of the table for the square root of -1 denote I. |
| `PointArithmetic.AddPoints` | Payload/Admission/Ed25519Verifier.cpp:250-279 | Writes the unified sum of section 5.1.4 of RFC 8032 in place, also when both arguments are one object, with every limb bound of the multiplications met. |
| `Edwards.SumIsExtended` | Payload/Admission/Ed25519Verifier.cpp:250-279 | XY = ZT mod p holds of every sum, whatever the summands. |
| `Edwards.SumStaysOnCurve` | Payload/Admission/Ed25519Verifier.cpp:250-279 | If both summands satisfy XY = ZT and -X^2 + Y^2 = Z^2 + dT^2, so does the sum. |
| `Edwards.DenominatorsAreInvertible` | Payload/Admission/Ed25519Verifier.cpp:250-279 | The addition law is complete: for p prime and d no square, 1 + dxxyy and 1 - dxxyy are nonzero for any two curve points. |
| `Edwards.SumIsAffineSum` | Payload/Admission/Ed25519Verifier.cpp:250-279 | The extended sum of two curve points is again one with invertible Z, and its affine point is the affine Edwards sum of theirs. |
| `PointArithmetic.Ed25519IsComplete` | Payload/Admission/Ed25519Verifier.cpp:26-40 | d is no square mod p, derived from the primality of p and the constants; so the completeness above applies to these constants. |
| `PointArithmetic.SwapPoints` | Payload/Admission/Ed25519Verifier.cpp:281-285 | Exact swap or identity of four coordinates. |
| `PointArithmetic.ScalarMultiply` | Payload/Admission/Ed25519Verifier.cpp:287-305 | 256 masked-swap rounds in place compute the ladder run over the bits of the 32-byte scalar, for every scalar; the source point may be any. |
| `PointArithmetic.ScalarBase` | Payload/Admission/Ed25519Verifier.cpp:307-315 | The same from the base point with T = XY. |
| `Ladder.LadderHoldsMultiples` | Payload/Admission/Ed25519Verifier.cpp:287-305 | After the bits n of every scalar prefix the two working points are [n]P and [n+1]P, over any monoid and any representation of it. |
| `EdwardsGroup.LadderComputesMultiple` | Payload/Admission/Ed25519Verifier.cpp:287-305 | For every scalar below 2^rounds the ladder over curve points gives [n]P on the affine curve; of the group laws only associativity is assumed. |
| `EdwardsGroup.CurveIsMonoid` | Payload/Admission/Ed25519Verifier.cpp:250-279 | Closure and the neutral element of the affine law, proved; associativity is the one hypothesis. |
| `EdwardsGroup.NegatedCancels` | Payload/Admission/Ed25519Verifier.cpp:365-366 | (-x, y) is the inverse of (x, y): the negation that UnpackNegative performs. |
| `VerificationEquation.ScalingKeepsAffine` | Payload/Admission/Ed25519Verifier.cpp:317-327 | Scaling X, Y, Z and T of any point, on the curve or not, by a factor that is nonzero mod p keeps the affine point and the encoding that is packed. |
| `VerificationEquation.ReducingKeepsAffine` | Payload/Admission/Ed25519Verifier.cpp:317-327 | Reducing X, Y, Z and T mod p keeps the affine point, for any point. |
| `PointCodec.PackPoint` | Payload/Admission/Ed25519Verifier.cpp:317-327 | The 32 bytes are the section 5.1.2 encoding of the affine point: y in [0, p) with the parity of x on top. |
| `VerificationEquation.ScaledIsOnCurve` | Payload/Admission/Ed25519Verifier.cpp:317-327 | Scaling X, Y, Z and T of a curve point by any factor keeps both curve equations. |
| `VerificationEquation.EncodingsAgreeExactlyOnSamePoint` | Payload/Admission/Ed25519Verifier.cpp:317-327 | Given p prime, two curve points have the same encoding exactly when they are projectively equal. |
| `Decompression.RootExistsExactlyWhenFound` | Payload/Admission/Ed25519Verifier.cpp:329-364 | The corrected candidate root u v^3 (u v^7)^((p-5)/8) passes the final test exactly when some x completes y to a curve point. |
| `Decompression.SignedRootIsUnique` | Payload/Admission/Ed25519Verifier.cpp:365-366 | Given y and the sign there is at most one x in [0, p). |
| `PointCodec.UnpackNegative` | Payload/Admission/Ed25519Verifier.cpp:329-368 | Succeeds exactly when the corrected root of the encoded y passes; then the point is the one of that y whose x has the parity opposite to the sign bit. |
| `Decompression.NegativePointIsOnCurve` | Payload/Admission/Ed25519Verifier.cpp:329-368 | Whenever decoding succeeds the point is on the curve with Z = 1 and T = XY, its y is the encoded one mod p, and a nonzero x has the opposite of the sign bit as parity. |
| `VerificationEquation.EncodedPointDecodes` | Payload/Admission/Ed25519Verifier.cpp:317-368 | Decoding the encoding of any curve point succeeds and gives its negative. |
| `ScalarOrder.ReduceModOrder` | Payload/Admission/Ed25519Verifier.cpp:370-406 | For every 64-byte value the first 32 bytes become the value mod L, fully reduced, and the rest zero; no int64 overflow in the elimination rounds, the quotient or the borrow. |
| `ScalarOrder.CanonicalScalar` | Payload/Admission/Ed25519Verifier.cpp:408-420 | The comparison from the top byte is true exactly when the scalar is below L. |
| `Ed25519Verify.VerifyEd25519` | Payload/Admission/Ed25519Verifier.cpp:423-474 | True exactly for the inputs that the decision over byte strings accepts: sizes, canonical scalar, decodable key, digest available, and equal encodings of R and [h](-A) + [s]B. |
| `Ed25519Verify.AcceptanceIsTheEquation` | Payload/Admission/Ed25519Verifier.cpp:423-474 | Given p prime and associativity, acceptance is the cofactorless equation of section 5.1.7 of RFC 8032 on the affine curve, in both directions, with all 64 bytes of the digest of R, key and message reduced mod L as the challenge. |
| `Ed25519Verify.HonestSignatureIsAccepted` | Payload/Admission/Ed25519Verifier.cpp:423-474 | Every signature made as in section 5.1.6 of RFC 8032, with the whole digest as challenge, is accepted, given in addition that B has order dividing L. |
| `Ed25519Verify.SignatureIsUnique` | Payload/Admission/Ed25519Verifier.cpp:408-474 | Given p prime, associativity, and that no positive multiple of B below L is neutral: two accepted signatures with one R, for one key and message, are equal. So no one can change the scalar of an accepted signature. |
| `Base64.DecodeBase64` | Payload/Admission/StrictRosterPolicy.h:52-98 | Returns exactly what the bit-string specification says: characters of the chosen alphabet, then only padding, whole octets, and no set bit lost. |
| `Base64.DecodesExactly` | Payload/Admission/StrictRosterPolicy.h:52-98 | A text is accepted exactly when it has 1 to 61440 characters, some of one alphabet and then only padding, whose bits are whole octets but for fewer than eight zeros. |
| `Base64.PushSextet` | Payload/Admission/StrictRosterPolicy.h:82-95 | The bits read are always the bits of the output followed by those of the accumulator, which stays below 2^bits; the disjunction overlaps nowhere, and no shift or cast loses anything. |
| `Base64.DecodeInvertsEncode` | Payload/Admission/StrictRosterPolicy.h:52-98 | Decoding inverts the standard and the URL-safe encoders of sections 4 and 5 of RFC 4648, padded, unpadded or padded by any other amount, for every nonempty text within the limit. |
| `Base64.EncodeInvertsDecode` | Payload/Admission/StrictRosterPolicy.h:52-98 | Re-encoding what was decoded gives the characters of an accepted text back exactly when their number is not 1 modulo 4. |
| `StrictRoster.ReadRoster` | Payload/Admission/StrictRosterPolicy.h:227-261 | The loop with its three sets accepts exactly the rosters of valid seats that are pairwise apart in player, logical slot and place, and yields their seats and host count. |
| `StrictRoster.Policy.InstallAllocation` | Payload/Admission/StrictRosterPolicy.h:171-335 | The new state and the code are those of the specification, from every valid state, and the invariant is kept. |
| `StrictRoster.Policy.StartAuthority` | Payload/Admission/StrictRosterPolicy.h:337-358 | The same for a start. |
| `StrictRoster.Policy.ValidateJoinGrant` | Payload/Admission/StrictRosterPolicy.h:360-427 | The same for a join grant, with the order of the refusals. |
| `StrictRoster.Policy.MarkDisconnected` | Payload/Admission/StrictRosterPolicy.h:429-439 | The same for a disconnect. |
| `StrictRoster.Policy.Reset` | Payload/Admission/StrictRosterPolicy.h:441-445 | Forgets allocation, used grants and the start. |
| `RosterInvariant.RosterSeatsAreSound` | Payload/Admission/StrictRosterPolicy.h:227-261 | A valid roster gives seats with unique players, logical slots and places, as many as members, with the counted hosts. |
| `RosterDecisions.InstallIsAcceptedExactly` | Payload/Admission/StrictRosterPolicy.h:171-335 | An install is accepted exactly when the allocation is signed for its key and purpose, current, of sound identity and roster with the hosts its hosting asks for, and the installed one is of another authority, has the same token, or is continued on the same route or the next with the same seats; all written out over the claims. |
| `RosterDecisions.InstallRefusalNamesReason` | Payload/Admission/StrictRosterPolicy.h:171-335 | The code of an install is that of the first of these rules that fails, in the order of the source. |
| `RosterDecisions.AcceptedInstallEffect` | Payload/Admission/StrictRosterPolicy.h:271-335 | The same token again changes nothing. Otherwise key id, decoded public key, token, window and expiry become those of the claims; on the same route seats and connections stay, on the next they are the new roster's with only the host of a started P2P match connected, and used grants and the start stay; for another authority everything starts afresh. |
| `RosterRuns.AcceptedInstallIsSigned` | Payload/Admission/StrictRosterPolicy.h:171-335 | In one step: an accepted install carries an allocation signed under the key it brings, for that key id and in its time window; afterwards an allocation with its token id is installed. |
| `RosterDecisions.StartExactly` | Payload/Admission/StrictRosterPolicy.h:337-358 | A start is accepted exactly for a live allocation with verified paths and, in a P2P match, a host seat of the local platform; then exactly that seat is connected, the authority is started, and nothing else changes. The codes of the refusals. |
| `RosterDecisions.JoinRefusalNamesReason` | Payload/Admission/StrictRosterPolicy.h:360-427 | The code of a join is that of the first rule that fails, in the order of the source, with every claim and literal written out. |
| `RosterDecisions.DisconnectExactly` | Payload/Admission/StrictRosterPolicy.h:429-439 | A disconnect is accepted exactly for the generation of the player's seat; then only that seat is no longer connected. |
| `RosterDecisions.DisconnectedPlayerGetsBackIn` | Payload/Admission/StrictRosterPolicy.h:360-439 | After an accepted disconnect any other grant that fits is accepted at the same generation; before it exactly if the seat was not connected. |
| `RosterRuns.RunKeepsInvariant` | Payload/Admission/StrictRosterPolicy.h:171-445 | In every state of every run: unique players, slots and places, the right number of hosts, sound identifiers, and no used grant or start without an allocation. |
| `RosterRuns.AcceptedJoinIsAuthentic` | Payload/Admission/StrictRosterPolicy.h:360-427 | In one step: an accepted join has a grant signed under the installed key for this authority, platform and seat, unused before; afterwards only that seat and the used set changed, and the seat handed out is the frozen one. |
| `RosterRuns.JoinIsAcceptedExactlyWhenEntitled` | Payload/Admission/StrictRosterPolicy.h:360-427 | In one step: a join is accepted exactly when its grant is signed, current, unused and for a seat that is free at its generation; nothing else is refused. |
| `RosterRuns.GrantIsAcceptedOnce` | Payload/Admission/StrictRosterPolicy.h:412-413 | Over every run a grant id is accepted at most once between clearings, across refreshes, resumes and disconnects. |
| `RosterRuns.SeatIsHeldOnce` | Payload/Admission/StrictRosterPolicy.h:414-426 | Between two accepted joins of one player at one generation there is a successful disconnect of exactly that connection, a route advance or a clearing. |
| `RosterRuns.SeatsAreNeverShared` | Payload/Admission/StrictRosterPolicy.h:360-427 | Between clearings two accepted joins get one logical slot, or one place in a team, exactly when they are the same player's, and a player's accepted generations never go back. |
| `RosterRuns.StepContinues` | Payload/Admission/StrictRosterPolicy.h:274-335 | Every event but a clearing keeps identity and frozen seats, lowers no generation, and moves the route by exactly one on a route advance and by nothing otherwise. |
| `RosterRuns.RunContinues` | Payload/Admission/StrictRosterPolicy.h:171-439 | The same over runs: until a clearing, identity and seats stay frozen, route and seat generations never fall, a started authority stays started. |
| `RosterRuns.RefusalChangesNothing` | Payload/Admission/StrictRosterPolicy.h:171-439 | In one step: a refused event leaves the state unchanged, except that a join refused because its seat is connected has used up its grant. |
| `RosterRuns.StaleDisconnectIsHarmless` | Payload/Admission/StrictRosterPolicy.h:429-439 | After an accepted join, a disconnect for an older generation of that player changes nothing. |
| `RosterRuns.JoinNeedsStart` | Payload/Admission/StrictRosterPolicy.h:360-370 | From the initial state no join is accepted without a successful start since the last clearing. |
| `RoleConfirmation.PendingRoleConfirmation.BeginRoleConfirmation` | Payload/Loadout/LoadoutStatePolicy.h:113-137 | A role is put off exactly when it is not being replayed and has neither a baseline nor a settled fetch; then the record waits for it, with the deadline it had if it waited for it already. A role being replayed gets the decision of the replay, and a decision changes nothing. |
| `RoleConfirmation.PendingRoleConfirmation.PollRoleConfirmation` | Payload/Loadout/LoadoutStatePolicy.h:139-159 | A decision, never to wait and Ready exactly with a baseline, comes exactly for a waiting role with a baseline, a settled fetch or its time up; from then on every request for the role is answered with it, whatever is known then. Otherwise nothing changes. |
| `RoleConfirmation.DeadlineIsFixed` | Payload/Loadout/LoadoutStatePolicy.h:127-136 | However polls and retransmissions of one role interleave, its deadline does not move. |
| `RoleConfirmation.PollAfterDeadlineDecides` | Payload/Loadout/LoadoutStatePolicy.h:139-159 | A poll at or after the deadline of an activation decides, unless an earlier poll already did. |
| `RoleConfirmation.ReleasedOnce` | Payload/Loadout/LoadoutStatePolicy.h:113-165 | Between two releases there is a new activation. |
| `RoleConfirmation.ReleasesNeverExceedActivations` | Payload/Loadout/LoadoutStatePolicy.h:113-165 | In every run the releases never outnumber the activations, and a waiting activation has not been released. |
| `RoleConfirmation.ReplayIsNeverDeferred` | Payload/Loadout/LoadoutStatePolicy.h:121-122 | In every reachable state, asking again for the role being replayed gives the replay decision, which is never to wait. |
| `RoleConfirmation.RetransmissionGetsReleasedDecision` | Payload/Loadout/LoadoutStatePolicy.h:113-159 | Over every run, until completion or another role, each retransmission after a release is answered with what that poll decided. |
| `Inventory.SameInventoryEntries` | Payload/Loadout/LoadoutStatePolicy.h:64-86 | The greedy matching loop is true exactly when the two lists are equal as multisets of slot and item, duplicates included; hence it is an equivalence. |
| `Inventory.RearrangedIsSame` | Payload/Loadout/LoadoutStatePolicy.h:61-63 | Every permutation of an inventory compares equal to it. |
| `LoadoutManagement.LoadoutManager.StartServer` | Payload/Loadout/LoadoutManager.cpp:971-1029 | Stops first; becomes active with a new epoch only for an acceptable tunnel and room. |
| `LoadoutManagement.LoadoutManager.StopServer` | Payload/Loadout/LoadoutManager.cpp:1031-1055 | Forgets records, bindings and tasks and moves to a new epoch. |
| `LoadoutManagement.LoadoutManager.BindCurrentWorld` | Payload/Loadout/LoadoutManager.cpp:397-414 | A changed world discards everything stale and moves to a new epoch. |
| `LoadoutManagement.LoadoutManager.ResetForMatchGeneration` | Payload/Loadout/LoadoutManager.cpp:416-426 | While active, discards everything stale and moves to a new epoch, for the same world too. |
| `LoadoutManagement.LoadoutManager.OnPlayerConnected` | Payload/Loadout/LoadoutManager.cpp:1064-1099 | Binds a new record under a new generation and starts its fetch, or does nothing. |
| `LoadoutManagement.LoadoutManager.OnPlayerDisconnected` | Payload/Loadout/LoadoutManager.cpp:1170-1184 | Removes the record and its binding; its task stays behind. |
| `LoadoutManagement.LoadoutManager.ConsumeFetchTasks` | Payload/Loadout/LoadoutManager.cpp:774-816 | Walking and erasing in place delivers every finished task and keeps exactly the unfinished ones, in order. |
| `LoadoutManagement.LoadoutManager.FinishTask` | Payload/Loadout/LoadoutManager.cpp:468-480 | A worker fills the future of its own task and touches nothing else. |
| `LoadoutManagement.LoadoutManager.HandleFetchResult` | Payload/Loadout/LoadoutManager.cpp:667-816 | Replaces one record by what its result makes of it; an exception, in the worker or in the middle of taking the loadouts in, is a failed attempt that leaves the roles taken in by then. |
| `LoadoutEffects.HandledExactly` | Payload/Loadout/LoadoutManager.cpp:667-816 | In one step, every field of the record after each kind of result: taken in, ended for good, retried after its wait, or broken off. |
| `LoadoutEffects.BaselinesExactly` | Payload/Loadout/LoadoutManager.cpp:686-722 | The baselines are those of the usable ids with a valid inventory, of two roles with one id the first. |
| `LoadoutEffects.DeliveredExactly` | Payload/Loadout/LoadoutManager.cpp:441-455 | A finished task changes exactly the record of its own key in its own epoch, to the outcome of its result. |
| `LoadoutManagement.LoadoutManager.TickServer` | Payload/Loadout/LoadoutManager.cpp:1700-1780 | World, tasks, due fetches, seeds and polls in this order, for every iteration order of the records; the replays are exactly the records that the poll released. |
| `LoadoutRetries.TickStartsDueFetches` | Payload/Loadout/LoadoutManager.cpp:1732-1742 | Of the records still there after an active tick exactly those are newly in flight that are visited and, after the pass over the tasks, neither in flight nor settled and past their retry time; each with one task, which is empty. |
| `LoadoutRetries.TickSeedsExactly` | Payload/Loadout/LoadoutManager.cpp:1743-1750 | Likewise exactly those are newly seeded that are visited and, after the pass over the tasks, need a seed and can get it. |
| `LoadoutRetries.RetryStartsInTime` | Payload/Loadout/LoadoutManager.cpp:1732-1742 | Over every run a record with nothing under way stays so, with its retry time, until the first tick at or after that time that visits it, and that tick starts its next fetch, unless the record goes before. |
| `LoadoutRetries.FailureIsRetried` | Payload/Loadout/LoadoutManager.cpp:757-765 | A tick that hands a record a failure that can be retried, or an exception, leaves it with nothing under way for 500, 2000, 10000 or 30000 milliseconds by the number of failures. |
| `LoadoutManagement.LoadoutManager.PollConfirmations` | Payload/Loadout/LoadoutManager.cpp:1761-1780 | The loop polls every record once and collects exactly those it released. |
| `LoadoutManagement.LoadoutManager.CompleteReplay` | Payload/Loadout/LoadoutManager.cpp:1801-1805 | A replay that did not commit is completed. |
| `LoadoutManagement.LoadoutManager.BeginRoleConfirmation` | Payload/Loadout/LoadoutManager.cpp:1211-1286 | The decision and the record of the specification, over every branch. |
| `LoadoutManagement.LoadoutManager.CommitRoleConfirmation` | Payload/Loadout/LoadoutManager.cpp:1288-1300 | The role is selected and the pending confirmation completed. |
| `LoadoutManagement.LoadoutManager.OnExternalPreOrderInventory` | Payload/Loadout/LoadoutManager.cpp:1302-1340 | A published pre-order becomes the override of its role; anything else changes nothing. |
| `LoadoutManagement.LoadoutManager.RebindSeamlessRole` | Payload/Loadout/LoadoutManager.cpp:1101-1140 | Selects the role, activates the spawn gate and drops a pending confirmation, or does nothing. |
| `LoadoutManagement.LoadoutManager.PrepareFreshSeamlessRole` | Payload/Loadout/LoadoutManager.cpp:1142-1168 | Asks for a fresh role: confirmations wait until the containers are seeded. |
| `LoadoutEffects.SeedExactly` | Payload/Loadout/LoadoutManager.cpp:536-576 | In one step: containers are seeded exactly when needed, missing, with baselines fetched, the client travelled, the containers ready, and the call working. |
| `LoadoutEffects.StartExactly` | Payload/Loadout/LoadoutManager.cpp:971-1029 | In one step: a start forgets connections, bindings, tasks and world in any case, under a later epoch, and takes the settings and activates only if accepted. |
| `LoadoutEffects.StopExactly` | Payload/Loadout/LoadoutManager.cpp:1031-1055 | In one step: a stop forgets them too, deactivates, and keeps settings and generation counter. |
| `LoadoutEffects.WorldExactly` | Payload/Loadout/LoadoutManager.cpp:397-414 | In one step: the first world is noted, another one empties connections and bindings under the next epoch and keeps the tasks, the same one changes nothing. |
| `LoadoutEffects.ResetExactly` | Payload/Loadout/LoadoutManager.cpp:416-426 | In one step: the same for a new match, also in the same world, but only while active. |
| `LoadoutEffects.ConnectExactly` | Payload/Loadout/LoadoutManager.cpp:1064-1099 | In one step: the new key, binding, counter, task and every field of the new record, or no change. |
| `LoadoutEffects.DisconnectExactly` | Payload/Loadout/LoadoutManager.cpp:1170-1184 | In one step: exactly the record and the binding of the controller are gone. |
| `LoadoutEffects.FinishExactly` | Payload/Loadout/LoadoutManager.cpp:468-480 | In one step: exactly one empty future is filled. |
| `LoadoutEffects.PollExactly` | Payload/Loadout/LoadoutManager.cpp:1761-1780 | In one step: a role is let go exactly when it waits, is not held for a fresh role, and has an effective inventory, a fetch that is over or its time up; Ready in the first case only. |
| `LoadoutEffects.ReleasedExactly` | Payload/Loadout/LoadoutManager.cpp:1761-1780 | In one step: a poll of all records treats each of them so, and lets exactly those go. |
| `LoadoutEffects.AnswerExactly` | Payload/Loadout/LoadoutManager.cpp:1211-1286 | In one step: the answer to a request from the arguments and the record, with and without deferral, and that only the pending confirmation and the seed of the record change. |
| `LoadoutEffects.PendingExactly` | Payload/Loadout/LoadoutStatePolicy.h:113-137 | In one step: what the request leaves pending, with the deadline one second ahead for a role that was not waiting. |
| `LoadoutEffects.RequestExactly` | Payload/Loadout/LoadoutManager.cpp:1211-1221 | In one step: an unknown player, a stopped server or an unusable role gets Fallback and changes nothing; any other request changes its own record alone. |
| `LoadoutEffects.CommitExactly` | Payload/Loadout/LoadoutManager.cpp:1288-1300 | In one step: selected role, fresh-role flag and pending confirmation of one record, or no change. |
| `LoadoutEffects.OverrideExactly` | Payload/Loadout/LoadoutManager.cpp:1302-1340 | In one step: one override of one record, exactly under the conditions of the source, or no change. |
| `LoadoutEffects.RebindExactly` | Payload/Loadout/LoadoutManager.cpp:1101-1140 | In one step: role, gate, containers, seed and pending confirmation of one record, or no change. |
| `LoadoutEffects.FreshExactly` | Payload/Loadout/LoadoutManager.cpp:1142-1168 | In one step: the three fresh-role flags of one record, or no change. |
| `LoadoutEffects.ReplayEndExactly` | Payload/Loadout/LoadoutManager.cpp:1801-1805 | In one step: a record still replaying has nothing pending afterwards; any other stays as it is. |
| `LoadoutRuns.RunKeepsInvariant` | Payload/Loadout/LoadoutManager.cpp:380-395 | In every state of every run bindings and records are inverse, generations distinct and below the counter, and a record is in flight exactly when one task, of the current epoch, carries its key. |
| `LoadoutRuns.ResultReachesItsStarter` | Payload/Loadout/LoadoutManager.cpp:441-481 | A task that would be applied was started for the very record it is applied to, which since then has been there, in flight, under one epoch, with no other task of its key. |
| `LoadoutRuns.GoneKeysStayGone` | Payload/Loadout/LoadoutManager.cpp:1080-1088 | A connection key that is gone never comes back, so no late result reaches a later connection. |
| `LoadoutRuns.ConsumeAppliesOwnResults` | Payload/Loadout/LoadoutManager.cpp:774-816 | One pass gives every record the result of its own finished task once, and leaves every other record as it was. |
| `LoadoutRuns.StaleResultsAreDropped` | Payload/Loadout/LoadoutManager.cpp:441-455 | In one step: a task is current exactly when its record is live; any other task changes nothing. |
| `LoadoutRuns.SettledForGood` | Payload/Loadout/LoadoutManager.cpp:457-463 | A record that has its final result keeps it and is never in flight again. |
| `LoadoutResults.RecordsSettleWithTheirOwnFetch` | Payload/Loadout/LoadoutManager.cpp:441-481 | Over every run a record settles only in a tick, and then with exactly the outcome, written out, of the result that one event put into the still empty task of the fetch that was started for this record; in between it was there, in flight, with no other task of its key. |
| `LoadoutReplays.ReplayAfterPollIsDecided` | Payload/Loadout/LoadoutManager.cpp:1761-1806 | In one step: polling and replaying in one tick never puts a role off: a released record answers its replay with what the poll decided, or with Fallback if the pre-order of a role that is ready fails. |
| `LoadoutReplays.ReplayIsDeferredOnlyForFreshRole` | Payload/Loadout/LoadoutManager.cpp:1223-1265 | In one step: a role being replayed is put off again exactly when the record is to select a fresh role and cannot be seeded. |
| `LoadoutReplays.HeldBackByFreshRole` | Payload/Loadout/LoadoutManager.cpp:1142-1168 | Over every run a record is replaying, fresh and unseeded only if a fresh role was prepared for it in the middle of that replay, and it has been so ever since: nothing else leads there. |
| `LoadoutReplays.ReplayCanBeDeferred` | Payload/Loadout/LoadoutManager.cpp:1142-1265 | Such a state is reached: a run from the initial state in which the replay of any usable role is put off again. |
| `LoadoutReplays.DeferredRoleWaits` | Payload/Loadout/LoadoutManager.cpp:1211-1265 | In one step: a role that is put off waits in the record, with the deadline it had if it waited already, with one exact exception: it was being replayed, fresh and unseeded; then the end of the replay drops the request. |
| `LoadoutReplays.PollReleasesAfterDeadline` | Payload/Loadout/LoadoutManager.cpp:1761-1780 | In one step: a poll after the deadline releases every waiting record except those held back for a fresh role, which stay as they are. |
| `LoadoutDeadlines.WaitEndsByDeadline` | Payload/Loadout/LoadoutManager.cpp:1700-1780 | Over every run a role that waits keeps its deadline and is let go by the first tick at or after it at the latest, unless before the record went or the role was committed, rebound or replaced by another, or the record is held for a fresh role at that tick. |
| `FrameReader.ReadClient` | Payload/Communication/CommandFramework.cpp:645-745 | The frames handed on and the verdict are a function of the bytes received alone, however they are cut into chunks, for every dispatcher; and if no read is empty, of the concatenation of all chunks. |
| `FrameReader.ReadHandsOnLines` | Payload/Communication/CommandFramework.cpp:711-743 | Lines ended by a line feed, with or without a return before it, are handed on without either, in order, up to the first whose answer is a transport failure or the third protocol error; if there is none, all of them, and the unfinished tail is kept. |
| `FrameReader.LongLineStops` | Payload/Communication/CommandFramework.cpp:711-743 | A line of 65536 bytes or more is never handed on and stops the reading, complete or not. |
| `FrameReader.EmptyReadEnds` | Payload/Communication/CommandFramework.cpp:706-711 | An empty read ends the stream: nothing after it is received. |
| `FrameReader.ReadInParts` | Payload/Communication/CommandFramework.cpp:711-743 | Reading may pause after any byte: what was read decides, or the incomplete line is carried over. |
| `FrameReader.ReadSplitsLines` | Payload/Communication/CommandFramework.cpp:713-742 | Reading is splitting at line feeds: one trailing return dropped, stop at the first line of 65536 bytes or more, at a transport failure, or at the third protocol error. |
| `FrameReader.ErrorsAreBounded` | Payload/Communication/CommandFramework.cpp:729-734 | At most three protocol errors are ever counted, and exactly three stop the reading; what is left over is below the frame limit. |
| `CommandProtocol.ParseSucceedsExactly` | Payload/Communication/CommandProtocol.cpp:61-127 | A frame is a request exactly when it is a command, a tab and an object with an absent or valid id, within the limits, and it can be split in one way only. |
| `CommandProtocol.ParseFailureNamesReason` | Payload/Communication/CommandProtocol.cpp:61-127 | The result of parsing any frame, case by case: the error names the first thing that is wrong. |
| `CommandProtocol.ParseInvertsEncode` | Payload/Communication/CommandProtocol.cpp:61-127 | Parsing an encoded line gives command, payload and id back exactly when the id field is absent or valid, and otherwise the id error. |
| `CommandProtocol.EncodesExactly` | Payload/Communication/CommandProtocol.cpp:221-247 | A frame is made exactly from a command of 1 to 32 allowed characters and an object whose line fits 65536 bytes, and it is command, tab, dump and line feed. |
| `CommandProtocol.ResponseBody` | Payload/Communication/CommandProtocol.cpp:197-207 | In one step: an object is sent as it is, anything else wrapped, and a request id is added exactly if there is one. |
| `CommandProtocol.ResponseCarriesRequestId` | Payload/Communication/CommandProtocol.cpp:197-207 | A response made with a valid request id comes back with that id, also when its payload had to be wrapped. |
| `CommandProtocol.MessagesComeBack` | Payload/Communication/CommandProtocol.cpp:221-247 | Any sequence of sendable messages, encoded, concatenated and cut into any chunks, is read as exactly those messages in order. |
| `WireFormat.ReadVarint` | Payload/Loadout/LoadoutSerializer.cpp:1500-1513 | The loop computes the specified 32-bit value and offset, whatever an overlong varint adds; it advances and stays in bounds. |
| `WireFormat.AddBitsIsSum` | Payload/Loadout/LoadoutSerializer.cpp:1507-1508 | Below the word size the disjunction with the shifted bits is their sum, whenever the value read so far fits below the shift. |
| `WireFormat.ReadInvertsWrite` | Payload/Loadout/LoadoutSerializer.cpp:1500-1513 | Reading inverts the shortest varint of every 32-bit value at every offset. |
| `WireFormat.HexToBytes` | Payload/Loadout/LoadoutSerializer.cpp:1515-1528 | Accepts exactly the texts of pairs that strtol takes whole, blanks and signs included, and yields their bytes. |
| `WireFormat.HexInvertsWrite` | Payload/Loadout/LoadoutSerializer.cpp:1515-1528 | Decoding inverts hexadecimal text in either case for all byte strings. |
| `WireFormat.SkipWireValue` | Payload/Loadout/LoadoutSerializer.cpp:1530-1557 | Passes over exactly the bytes that reading the value would, and fails on the same inputs. |
| `WireFormat.ScanInvertsWrite` | Payload/Loadout/LoadoutSerializer.cpp:1566-1591 | Scanning any list of written fields of wire types 0, 1, 2 and 5 gives the list back. |
| `TruncatedMessages.VarintEnds` | Payload/Loadout/LoadoutSerializer.cpp:1500-1513 | A varint ends at its first byte below 128, and cannot be read without one. |
| `TruncatedMessages.LateByteIsAnything` | Payload/Loadout/LoadoutSerializer.cpp:1507-1511 | In one step: a byte that would be shifted by 32 or more adds what the machine makes of it, and ends the varint like any other. |
| `TruncatedMessages.UnreadableWireStops` | Payload/Loadout/LoadoutSerializer.cpp:1530-1557 | A tag of wire type 3, 4, 6 or 7 stops the reading. |
| `TruncatedMessages.TruncatedMessage` | Payload/Loadout/LoadoutSerializer.cpp:1566-1591 | A written message cut off after any byte of its last field is read as the fields before, and what is missing is known by its number and wire type if its tag is there. |
| `TruncatedMessages.HexPairExactly` | Payload/Loadout/LoadoutSerializer.cpp:1515-1528 | What each pair of characters decodes to: two digits, a digit after a blank or a sign, and nothing else. |
| `WeaponArchive.ParseWeaponPartSlot` | Payload/Loadout/LoadoutSerializer.cpp:1559-1602 | The loop computes the specified part of any bytes, including slot 0 for a slot whose varint is cut off. |
| `WeaponArchive.ParseWeaponArchiveMessage` | Payload/Loadout/LoadoutSerializer.cpp:1604-1648 | The loop computes the specified archive of any bytes. |
| `WeaponArchive.DecodeWeaponArchiveRaw` | Payload/Loadout/LoadoutSerializer.cpp:1658-1708 | First the request form, and only if that holds no archive the bare form, for any text. |
| `TruncatedMessages.PartExactly` | Payload/Loadout/LoadoutSerializer.cpp:1559-1602 | A part has the last slot and the last id of its message, and counts only with both, a slot below 2^31 and a nonempty id. |
| `TruncatedMessages.TruncatedPart` | Payload/Loadout/LoadoutSerializer.cpp:1566-1578 | A part that is cut off is the part of the fields before, but a slot cut off after its tag is 0. |
| `TruncatedMessages.TruncatedArchive` | Payload/Loadout/LoadoutSerializer.cpp:1604-1648 | An archive that is cut off is the archive of the fields before. |
| `WeaponRoundTrip.RequestRoundTrip` | Payload/Loadout/LoadoutSerializer.cpp:1658-1708 | Decoding inverts the reference writer of the request form, for every role. |
| `WeaponRoundTrip.AggregateRoundTrip` | Payload/Loadout/LoadoutSerializer.cpp:1661-1699 | Decoding inverts the writer of the aggregate form; of two archives with one id the later stays. |
| `WeaponRoundTrip.BareRoundTrip` | Payload/Loadout/LoadoutSerializer.cpp:1701-1706 | Decoding inverts the writer of the bare archive form, although it is first read as a request. |
| `UnknownFields.UnknownAtTopIsSkipped` | Payload/Loadout/LoadoutSerializer.cpp:1695-1698 | An unknown top-level field does not change what is decoded from a request or an aggregate. |
| `UnknownFields.UnknownInArchiveIsSkipped` | Payload/Loadout/LoadoutSerializer.cpp:1636-1639 | An unknown field in an archive of a request or an aggregate does not change what is decoded. |
| `UnknownFields.UnknownInPartOfArchiveIsSkipped` | Payload/Loadout/LoadoutSerializer.cpp:1587-1590 | An unknown field in a part of such an archive does not change what is decoded. |
| `UnknownFields.UnknownInBareForm` | Payload/Loadout/LoadoutSerializer.cpp:1682-1706 | An unknown field in a bare archive leaves the result as it is exactly when the request pass does not take it for an archive, or it holds the very archive it stands in. |
| `UnknownFields.UnknownInPartOfBareForm` | Payload/Loadout/LoadoutSerializer.cpp:1682-1706 | An unknown field in a part of a bare archive leaves the result as it is exactly when it is no nonempty id, or an id follows it in the part, or the archive of that id and the part's sub-messages is the very one decoded without it. |
| `UnknownFields.BareFormCanChange` | Payload/Loadout/LoadoutSerializer.cpp:1682-1706 | An example of the first exception: a bare archive with a field 3 holding another archive decodes to the other one. |
| `UnknownFields.PartOfBareFormCanChange` | Payload/Loadout/LoadoutSerializer.cpp:1682-1706 | An example of the second: the thirteen bytes of a bare archive with id 1 and one part, in which a field 1 with the byte 9 was inserted, decode to the archive with id 9 and no parts. |
| `Timeline.P2PTimeline.Begin` | Payload/BattleLog/BattleLogExtractor.cpp:269-283 | Starts over with no events; active, with the digest of match, capability, nonce and session, exactly when there is a session id and hashing works. |
| `Timeline.P2PTimeline.Append` | Payload/BattleLog/BattleLogExtractor.cpp:285-318 | An event is appended exactly to an active timeline that is not final and has room for its kind, if hashing works; then the events are the old ones and this one, with the next number, its kind, time and payload, the old digest and the digest of its text. A refusal for room is noted, any other changes at most the number. |
| `Timeline.BeginExactly` | Payload/BattleLog/BattleLogExtractor.cpp:269-283 | What a start leaves, of the specification. |
| `Timeline.AppendExactly` | Payload/BattleLog/BattleLogExtractor.cpp:285-318 | The same of the specification, so that the theorems about runs speak of it. |
| `Timeline.P2PTimeline.Read` | Payload/BattleLog/BattleLogExtractor.cpp:320-335 | The reported range encloses the numbers of all events and is attained by the first and the last. |
| `Timeline.RunKeepsInvariant` | Payload/BattleLog/BattleLogExtractor.cpp:257-318 | In every state of every run: at most 4096 events, 4095 before the end; MATCH_ENDED at most once and last; increasing numbers; an unbroken hash chain from the first digest to the current one. |
| `Timeline.EventsOnlyGrow` | Payload/BattleLog/BattleLogExtractor.cpp:285-318 | Between starts the events only grow at the end, and a finished timeline is frozen. |
| `Timeline.RoomForTheEnd` | Payload/BattleLog/BattleLogExtractor.cpp:289-294 | In one step: a started, unfinished timeline always has room for MATCH_ENDED: appending it fails only if hashing fails, and otherwise finishes the timeline. |
| `Timeline.ChainLinks` | Payload/BattleLog/BattleLogExtractor.cpp:305-314 | Each event's previous hash is its predecessor's hash, each hash that of its text, and the digest that of the last event. |
| `Timeline.EventTextIsInjective` | Payload/BattleLog/BattleLogExtractor.cpp:301-303 | The hashed text of an event can be read in one way only, whatever its type contains. |
| `Timeline.DigestDeterminesTimeline` | Payload/BattleLog/BattleLogExtractor.cpp:269-318 | Where none of the texts hashed for two chains collide, their final digests are equal exactly when origin, events, order and number are. |
| `Timeline.DigestDeterminesRun` | Payload/BattleLog/BattleLogExtractor.cpp:269-318 | For any two timelines under way in any two runs whose hashed texts do not collide: the digests are equal exactly when both were started for the same match, capability, nonce and session and hold the same events. |

## Left out

- Clearing of secrets, memory allocation failure, locks and logging: they do not change what is decided.
- SHA-512, SHA-256 and random session ids: calls into Windows; parameters here.
- JSON parsing of tokens: `Token` is what ParseJwt yields, and a claim of the wrong JSON type, which throws, is not modelled. Splitting a token at its dots is left out with it.
- Machine widths outside the verifier, the Base64 accumulator and the varints: generations, epochs, sequence numbers and times are unbounded here, and `now + 5` and a route generation of 2^31 - 1 do not overflow.
- StrictRoster.Policy.InstallAllocation: the iteration order of the hash table is not modelled, because no result depends on it.
- LoadoutManagement.LoadoutManager.TickServer: does not bind pending inventories or apply post-spawn overlays, because these are engine calls; and replays of the engine call are not run inside the tick but are the later steps BeginRoleConfirmation, CommitRoleConfirmation and CompleteReplay, in any order with others.
- LoadoutManagement.LoadoutManager.StartServer: does not model the checks of the tunnel address and the room id, because they are string checks of their own; they are one answer.
- LoadoutManagement.LoadoutManager.HandleFetchResult: does not model how an inventory is validated and hashed, because that is serialisation; it is an answer. The late pre-order call for the next life is an engine call and left out.
- LoadoutManagement.LoadoutManager.OnExternalPreOrderInventory: does not model the validity of the inventory and the inspection of the published state, because the engine decides them; they are one answer.
- LoadoutManagement.LoadoutManager.RebindSeamlessRole: does not model the deadline of the spawn gate and the counters of reconfirmation, because the gate itself is left out.
- LoadoutSpec.StartFetch: does not model that std::async fails to start a worker, because that is exhaustion of resources; it would leave the record in flight without a task, for good.
- Engine calls of the loadout manager (seeding containers, pre-order calls, inspection of the player state) are answers given to the step; post-spawn overlays, pending inventory bindings and the seamless spawn gate are left out.
- Roles, inventories and hashes of loadouts: a fetched role is its id and, if it passed validation, a baseline value.
- Named pipes, overlapped input and output, timeouts and the watchdog: the reader gets chunks; a stop request and a connection fault are left out, and an empty read ends the input.
- The command handlers behind the dispatcher, ValidateMatchTarget and the port parser.
- Varints of more than five bytes: what a shift by 32 or more adds is undefined in C++, so it is any function of what was read, and the round trips do not speak about such varints.
- The fixed entries that every decoded weapon gets, and the conversion of names.
- Payloads of timeline events are their dumped text, and the clock is a parameter.
- Hooks, window procedures, the generated game interface, the launcher, the server wrapper and the web console.
