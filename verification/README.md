# Redis sessions, rate limits, slot execution and circuit breaking: a Dafny model

This project models the parts of `app-redis` whose correctness does not show in any one function: the
per-user session store with its thirteen Lua scripts, the two rate limiters, the slot-grouped batch
executor with its hash slots and key names, and the circuit breaker. Each part is written in the form
the source has, classes with methods where the source changes state and functions where it computes,
and is proved against the promises that the source and its documentation make. The original program is
not run.

`dafny verify dfyconfig.toml` checks everything.

## How it is organised

Session store

- `SessionTypes.dfy`: records, envelopes, the store of one user, and the sorted set with its order.
- `SessionScripts.dfy`: what each Lua script does, as a function of the store. `UserStore.dfy`: the same
  scripts statement by statement, each method proved to compute its function.
- `SessionSystem.dfy`: the application side (records, the two-phase encrypted calls) and the transition
  system: any number of clients, clock ticks and TTL reclamation in any order. An encrypted call carries
  an arbitrary earlier read and an arbitrary application clock, so stale reads and skewed clocks are
  covered in every result that does not exclude them.
- `SessionEvolution.dfy`: the six things one step can do to one record. The run-level results build on
  it: `SessionLineage`, `SessionReplay`, `SessionMortality`, `SessionVersions`, `SessionBoundaries`,
  `SessionIndex`.
- `SessionAnswers.dfy`: exactly when each script gives each answer, over the stored fields, the reads and
  the clocks. `SessionWrites.dfy`: what each success stores, field by field, and what follows for later
  validations. `SessionClaims.dfy`: idempotent creation over whole runs. Their results are stated on the
  transition system alone, without the functions that compute answers and records.
- `SessionRefinement.dfy`: encrypted sessions refine plain ones. `SessionReads.dfy`: runs whose encrypted
  reads are stale but genuine. `SessionRepository.dfy`: the repository
  class and its bulk loops, over `Chunks.dfy`.

Rate limits: `SlidingWindow.dfy`, `FixedWindow.dfy`, over `RateLimits.dfy`.

Slots: `SlotGroups.dfy` (grouping by slot), `SlotExecution.dfy` (grouped pipelines on interleaved workers),
`Crc16.dfy` (the table-driven CRC), `SessionKeys.dfy` (escaping and key names, over `Sequences.dfy`),
`ClusterSlots.dfy` (the server's slots) and `ClusterKeys.dfy` (`mset`, `mget`).

Breaker: `CircuitBreaker.dfy`.

## Where the code and its documentation differ

The model follows the code.

- `src/session/session-service.ts:353` says that a touch never resurrects an idle-expired session, and
  that holds. A stale encrypted *update* can: it writes back the idle boundary of an earlier read
  (`src/session/scripts/conditional-update-encrypted.lua:51-58`). `SessionMortality.RevivalStep` gives the
  exact guard, `SessionMortality.IdleDeathCanBeUndone` a run.
- `src/session/session-keys.ts:30` calls the user-id encoding injective. It is, up to surrogate halves:
  ids that differ only in those collide (`SessionKeys.CollisionsExactly`, `SessionKeys.EmojiCollide`).
- `src/client.ts:1388` names CRC16 XModem; the table uses the reflected polynomial 0xA001. The slots are
  not those of the Redis Cluster specification: of the one-character ASCII keys only NUL agrees
  (`ClusterSlots.OneCharacterKeys`). `mset` and `mget` group by these slots, so a group can span two of the
  server's and be refused, which the comments at `src/client.ts:881-911` say cannot happen
  (`ClusterKeys.GroupCanBeRefused`). Keys of one hash tag are safe (`ClusterKeys.UserKeysAreCompatible`).
- `src/ratelimiter.ts:18-24` promises the limit per window. Callers whose clocks are up to d off the
  server's get it for intervals of length window - 2d, and for no longer ones
  (`SlidingWindows.SkewedWindowHolds`, `SlidingWindows.SkewedWindowIsTight`).
- `src/session/session-circuit-breaker.ts:14-15` says that the first success closes a half-open breaker.
  Of several probes under way, the last success closes it (`CircuitBreakers.LastSuccessCloses`).
- `src/session/README.md:373-375` says that a new security version ends the sessions captured at an older one.
  It also ends every session rotated later: a successor carries no version (`src/session/session-service.ts:418`),
  so it validates if and only if the user has none (`SessionWrites.SuccessorLifetime`).
- `src/session/scripts/create.lua:20-21` says that a replay answer means that an earlier attempt created the
  session. The claim is set before the collision check, so a retry after the claim's time collides and the one
  after it is answered as a replay, of a session that neither created (`SessionClaims.CollisionThenReplay`).
- `docs/architecture.md:106-107` says that no client clock is in the critical path. An encrypted rotation
  on a client clock that differs from the server's writes a successor that never validates
  (`SessionRefinement.SkewedRotationFailsClosed`).
- `docs/architecture.md:114-115` says that a record's TTL equals its earliest boundary; the scripts use
  the absolute boundary (`SessionBoundaries.BoundariesHold`).
- `src/client.ts:1590` promises `null` for missing keys only; an empty string is also returned as `null`
  (`ClusterKeys.MGetAgreesUnlessEmpty`).
- `src/ratelimiter.ts:18-20` promises a limit per window; a fixed window lets through up to
  `2 * limit - 1` requests in an interval of that length, and no fewer is true
  (`FixedWindows.TwoWindowsAtMost`, `FixedWindows.TwoWindowsReached`).
- `src/ratelimiter.ts:41` calls `retryAfter` the seconds to wait. A fixed window that ends within half a second
  answers its whole duration instead (`FixedWindows.AnswerSaysLeft`).
- Two differences between the encrypted and the plain path are exact exceptions of the refinement: the
  application deletes an expired record but not its index member, and it answers a replay for a record
  that was consumed and then revoked (`SessionRefinement.StepSimulates`).

## Model

| member | source | states |
|---|---|---|
| `UserStores.UserStore.Create` | src/session/scripts/create.lua:27-68 | a claim answers first and changes nothing; otherwise the claim is set, an existing id is refused, and a new one is stored, indexed and the surplus evicted: new state and reply equal the script function in every case |
| `UserStores.UserStore.EvictSurplus` | src/session/scripts/create.lua:49-66 | evicts the first min(excess, bound) members by (score, id), no others, each with its record; a limit of 0 evicts nothing |
| `UserStores.UserStore.EnforceLimit` | src/session/scripts/enforce-limit.lua:14-38 | the same eviction on its own, with exactly the evicted ids as reply |
| `UserStores.UserStore.Validate` | src/session/scripts/validate.lua:28-90 | the decision order of both envelope kinds, with record and index member removed exactly on the two expiry answers |
| `UserStores.UserStore.Touch` | src/session/scripts/touch.lua:24-71 | every refusal leaves the store as it was, except absolute expiry, which deletes the record; a touch renews activity, caps the idle boundary and keeps the TTL at the absolute boundary |
| `UserStores.UserStore.TouchEncrypted` | src/session/scripts/touch-encrypted.lua:29-89 | decides on the mirrors; a write takes activity and idle boundary from the call and every other mirror from what is stored |
| `UserStores.UserStore.Rotate` | src/session/scripts/rotate.lua:34-119 | replay, refusals and success of a rotation: tombstone or deletion, successor, index swap, and nothing else |
| `UserStores.UserStore.RotateEncrypted` | src/session/scripts/rotate-encrypted.lua:28-106 | the same for encrypted records, on mirrors, with the payloads of the application |
| `UserStores.UserStore.Update` | src/session/scripts/conditional-update.lua:21-62 | writes exactly the patched fields and the next version, or refuses without a change |
| `UserStores.UserStore.UpdateEncrypted` | src/session/scripts/conditional-update-encrypted.lua:24-59 | compare-and-set on the mirrored version; activity and idle boundary come from the payload |
| `UserStores.UserStore.Revoke` | src/session/scripts/revoke.lua:18-60 | sets the status and the tombstone TTL, keeps every other mirror, and is idempotent |
| `UserStores.UserStore.Destroy` | src/session/scripts/delete.lua:11-14 | removes record and index member and says whether there was a record |
| `UserStores.UserStore.CleanupIndex` | src/session/scripts/cleanup-index.lua:12-21 | removes from the index, and returns in order, exactly the listed ids that have no record at that moment |
| `UserStores.UserStore.DeleteBatch` | src/session/scripts/delete-by-user.lua:15-29 | deletes the listed records, returns in order those that existed, and drops the whole index |
| `SessionAnswers.ValidateAnswers` | src/session/scripts/validate.lua:44-90 | each answer has its one condition: inactive with the stored status, expired, idle before the absolute boundary, security for a live plain record of another version, and otherwise the stored envelope with the current version |
| `SessionAnswers.ValidateEffects` | src/session/scripts/validate.lua:28-61 | missing if and only if there is no record; expired and idle answers remove record and index member, every other answer changes nothing |
| `SessionAnswers.Verdicts` | src/session/session-service.ts:294-320 | each result of the service has its one condition on either path: valid if and only if live, with agreeing mirrors and an up-to-date security version |
| `SessionAnswers.OldVersionsAreOut` | src/session/session-repository.ts:780-786 | after a security version is set and until another is, every session that validates carries it, in any run on either path |
| `SessionAnswers.RotateAnswers` | src/session/scripts/rotate.lua:54-78 | a plain rotation succeeds if and only if the record is active and unexpired, any expected version is the stored one and the successor's id is free; conflict, collision, expiry, replay and refusal each have their one condition |
| `SessionAnswers.RotateEncAnswers` | src/session/session-repository.ts:397-446 | the same for encrypted rotations, on the read and the application's clock and on the mirrors and the server's |
| `SessionAnswers.RotateElsewhere` | src/session/scripts/rotate-encrypted.lua:28-38 | when a rotation finds no record or one of the other kind, on both paths, and that it changes nothing then |
| `SessionAnswers.RotateRefusals` | src/session/scripts/rotate.lua:65-69 | a refused rotation changes nothing, but for an expired record: the script removes it with its index member, the application without |
| `SessionAnswers.RotationSeesUpdates` | src/session/scripts/rotate.lua:71-73 | a rotation that names the version of an earlier state conflicts if and only if an update has succeeded since, whatever else ran |
| `SessionAnswers.UpdateAnswers` | src/session/scripts/conditional-update.lua:35-48 | the one condition of each answer of a plain update, success with the next version included |
| `SessionAnswers.UpdateEncAnswers` | src/session/scripts/conditional-update-encrypted.lua:36-49 | the same for encrypted updates, on read and mirrors |
| `SessionAnswers.UpdateElsewhere` | src/session/scripts/conditional-update.lua:21-31 | when an update finds no record or one of the other kind |
| `SessionAnswers.UpdateRefusals` | src/session/scripts/conditional-update.lua:41-48 | a refused update changes nothing, but removes an expired record |
| `SessionAnswers.TouchAnswers` | src/session/scripts/touch.lua:38-57 | the one condition of each answer of a plain touch: expiry before idleness before the throttle |
| `SessionAnswers.TouchEncAnswers` | src/session/session-repository.ts:288-327 | the same for encrypted touches, on read and mirrors, the stale request included |
| `SessionAnswers.TouchElsewhere` | src/session/scripts/touch.lua:26-34 | when a touch finds no record or one of the other kind |
| `SessionAnswers.TouchRefusals` | src/session/scripts/touch.lua:44-57 | a touch that does not write changes nothing, but removes an absolutely expired record and never an idle one |
| `SessionAnswers.RevokeAnswers` | src/session/scripts/revoke.lua:18-46 | a revoke is done if and only if the session is stored and not revoked yet (and an encrypted one was read); every other answer changes nothing |
| `SessionAnswers.CreateAnswers` | src/session/scripts/create.lua:33-44 | replay if and only if claimed; without a claim, collision if and only if there is a record |
| `SessionAnswers.DestroyEffects` | src/session/scripts/delete.lua:11-15 | record and index member are gone, nothing else changes, and the reply says whether there was a record |
| `SessionWrites.CreateWrites` | src/session/session-service.ts:223-246 | a created session is active at version 1 with the given profile and version, lifetime and idle boundary from the clock of the call, equal mirrors and the lifetime as TTL; nothing else changes but the evicted and the claim |
| `SessionWrites.CreateEvicts` | src/session/scripts/create.lua:52-65 | the evicted ids are the oldest members of the index with the new one in it, as many as the surplus but at most one call's worth |
| `SessionWrites.EnforceLimitEvicts` | src/session/scripts/enforce-limit.lua:14-38 | the same for an enforcement on its own, which changes nothing else |
| `SessionWrites.UntouchedLifetime` | src/session/scripts/validate.lua:51-61 | a created session, unchanged since, is valid exactly until its idle timeout or its lifetime is over, then refused as idle and from the lifetime on as expired |
| `SessionWrites.TouchWrites` | src/session/scripts/touch.lua:59-70 | activity becomes now, the idle boundary now plus the timeout but at most the absolute one, the TTL ends there, and nothing else changes |
| `SessionWrites.TouchEncWrites` | src/session/session-repository.ts:302-325 | the payload is the read so renewed; the mirrors take activity and idle boundary from it and keep the rest |
| `SessionWrites.UpdateWrites` | src/session/scripts/conditional-update.lua:52-63 | each of the four fields is the patch's if present and the stored one otherwise, the version is the next and is the one answered, and nothing else changes |
| `SessionWrites.UpdatesCommute` | src/session/scripts/conditional-update.lua:52-57 | two updates leave the same state in either order if and only if their patches agree wherever both have a field |
| `SessionWrites.UpdateEncWrites` | src/session/session-repository.ts:513-534 | the payload is the read so patched, its version is the mirrored and the answered one, and boundary and rotation mirrors are kept |
| `SessionWrites.RevokeWrites` | src/session/scripts/revoke.lua:34-58 | the record stays, revoked in mirror and payload, every other mirror as before, with the TTL of the call; nothing else changes |
| `SessionWrites.RevokedStaysOut` | src/session/scripts/revoke.lua:2-5 | no validation hands out a revoked session before its id is born anew, in any run on either path |
| `SessionWrites.RotateSwaps` | src/session/scripts/rotate.lua:108-117 | on both paths a rotation puts the successor's member, scored now, in place of the old one, retains the old record if and only if so configured, and changes no other record |
| `SessionWrites.RotateWrites` | src/session/scripts/rotate.lua:84-115 | the successor is active at version 1 on the configured lifetime, names its predecessor and has no profile; the tombstone names the successor and the nonce and keeps all else until its expiry |
| `SessionWrites.RotateEncSuccessor` | src/session/scripts/rotate-encrypted.lua:85-103 | the same for the successor of an encrypted rotation, payload and mirrors |
| `SessionWrites.RotateEncTombstone` | src/session/scripts/rotate-encrypted.lua:72-99 | and for its tombstone |
| `SessionWrites.SuccessorLifetime` | src/session/session-service.ts:406-427 | a successor, unchanged since, validates if and only if it is before both boundaries, the clocks agreed at an encrypted rotation, and the user has no security version |
| `SessionClaims.CreateClaims` | src/session/session-repository.ts:111-112 | a create that is no replay leaves a claim of its id for a minute or the session's lifetime; a replay changes nothing and a collision nothing else |
| `SessionClaims.CreateIsIdempotent` | src/session/scripts/create.lua:30-40 | within that time every create of the id is answered as a replay of it and changes nothing, whatever runs in between, even if the session has gone |
| `SessionClaims.ClaimLapses` | src/session/scripts/create.lua:33-44 | from the deadline on the claim can be dropped, and then a create collides if and only if the record is there and creates otherwise |
| `SessionClaims.ReplayHasOrigin` | src/session/scripts/create.lua:33-40 | from a user without claims, a create is answered as a replay only of its own id, and only if an earlier create of that id, itself no replay, set the claim |
| `SessionClaims.CollisionThenReplay` | src/session/scripts/create.lua:39-44 | a create of a stored session without a claim collides, and the next one within the claim's time is answered as a replay |
| `SessionEvolution.StepFate` | src/session/scripts/rotate.lua:49-119 | any step by any client does one of six things to any record (keep, remove, create, refresh, consume, cancel), and only a create or rotation that succeeds brings an id to life, one that did not exist |
| `SessionLineage.OneActivePerLineage` | src/session/scripts/rotate.lua:46-119 | in every reachable state a lineage (a create and its rotations) has at most one active record, for any interleaving, mixed envelope kinds, stale reads and skewed clocks |
| `SessionMortality.ValidateMeansLive` | src/session/scripts/validate.lua:44-90 | the script hands out a record, or stops at its security version, exactly when it is active and before both boundaries |
| `SessionMortality.EndIsFinal` | src/session/scripts/validate.lua:47-55 | a consumed, revoked, absolutely expired or missing session never becomes live again before that id is born anew, in any run, on either path |
| `SessionMortality.DeathIsFinal` | src/session/scripts/touch.lua:38-51 | without encrypted updates of it, an idle-expired session stays dead too |
| `SessionMortality.RevivalStep` | src/session/scripts/conditional-update-encrypted.lua:36-58 | a dead session becomes live in one step other than a birth if and only if the stated guard of an encrypted update holds |
| `SessionMortality.IdleDeathCanBeUndone` | src/session/session-repository.ts:486-541 | a six-step run in which two updates with crossed reads kill a session by idleness and revive it |
| `SessionMortality.OneRotationWins` | src/session/scripts/rotate.lua:53-63 | of any two rotations of one session, plain or encrypted and whatever runs between them, at most one succeeds |
| `SessionReplay.TombstoneStays` | src/session/scripts/rotate.lua:106-117 | from any state, a tombstone outside the index is kept unchanged, and out of the index, until its deadline by every run without an explicit attack on it: evictions, cleanups and deletions that do not list it are included |
| `SessionReplay.RetrySafe` | src/session/scripts/rotate.lua:49-59 | from any state, until the absolute expiry of a rotated session, every later rotation gets the stored successor if it has the same nonce and a refusal otherwise, and changes nothing |
| `SessionReplay.RetrySafeEncrypted` | src/session/session-repository.ts:397-446 | the same for encrypted sessions until the tombstone's deadline, for any read and any clock of the rotation and mirrors that agree or not, whether the retry reads the tombstone or still goes on to the script |
| `SessionReplay.DeadlineCoversExpiry` | src/session/session-repository.ts:426-443 | that deadline is not before the absolute boundary if and only if the rotation's clock is no further ahead than its read's boundary is |
| `SessionReplay.RetrySafeUntilExpiry` | src/session/session-repository.ts:397-446 | so under that condition the encrypted retry is safe until the absolute expiry |
| `SessionVersions.VersionCountsSuccesses` | src/session/scripts/conditional-update.lua:46-62 | when the encrypted updates name a version, plain ones or not, the stored (mirrored) version has grown by exactly the number of successes of the run |
| `SessionVersions.VersionFromBirth` | src/session/scripts/conditional-update-encrypted.lua:47-58 | from its birth on, a record's version is one plus the updates that succeeded |
| `SessionVersions.OneUpdatePerVersion` | src/session/session-repository.ts:503-541 | two guarded updates of one incarnation never both succeed on the same version, whatever touches and stale reads run between them |
| `SessionVersions.EncryptedUpdateCounts` | src/session/scripts/conditional-update-encrypted.lua:47-58 | an encrypted update that succeeds raises the version by one if and only if its read had the stored version |
| `SessionVersions.UnguardedUpdatesCollapse` | src/session/session-repository.ts:513-534 | of two encrypted updates that succeed in a row the second counts if and only if it read the version that the first had written; two from one read count once and the first patch is lost |
| `SessionIndex.AgreesStep` | src/session/scripts/cleanup-index.lua:14-19 | a step keeps the agreement (active records are indexed, consumed ones are not) if and only if it is not a delete-by-user batch that leaves out an active session |
| `SessionIndex.BatchAgreesExactly` | src/session/scripts/delete-by-user.lua:15-29 | a batch keeps the agreement if and only if it lists every active session |
| `SessionIndex.CeilingHolds` | src/session/scripts/create.lua:46-66 | in every reachable state of a run whose batches list all active sessions, the index agrees with the records, and neither it nor the active sessions exceed the limit |
| `SessionIndex.RotateKeepsSize` | src/session/scripts/rotate.lua:115-117 | a rotation never enlarges the index, because the session it consumes was in it |
| `SessionIndex.CreateSurvives` | src/session/scripts/create.lua:52-65 | with the index within the limit, a new session is itself evicted if and only if the index was full and it sorts before every member |
| `SessionIndex.RacedDeleteUnindexes` | src/session/scripts/delete-by-user.lua:27 | a create between the listing and the batch of a delete-by-user ends active and unindexed if and only if it survived its own eviction |
| `SessionBoundaries.ExpiryIsFixed` | src/session/scripts/rotate-encrypted.lua:77 | the absolute boundary of an incarnation never moves, on either path |
| `SessionBoundaries.IdleStaysCapped` | src/session/scripts/rotate.lua:89-91 | in every state that plain sessions reach, on any clocks, no idle boundary passes the absolute one |
| `SessionBoundaries.BoundariesHold` | src/session/session-service.ts:223-246 | with agreeing clocks also: creation <= activity <= now, activity before the absolute boundary, and that boundary is the Redis deadline of active and consumed records |
| `SessionBoundaries.TouchNeverRegresses` | src/session/scripts/touch-encrypted.lua:62-76 | a touch moves recorded activity back if and only if it is a forced plain one on a server clock behind that activity |
| `SessionBoundaries.TouchesAreSpaced` | src/session/scripts/touch.lua:53-59 | an unforced plain touch writes at least the touch interval after any earlier touch of the incarnation |
| `SessionRefinement.StepSimulates` | src/session/session-repository.ts:270-327 | one encrypted call against one plain call on the decrypted store: equal states if and only if not the expired indexed rotation, equal answers if and only if not the replay of a revoked tombstone, mirrors equal to payloads always |
| `SessionRefinement.EncryptedRefinesPlain` | src/session/session-serializer.ts:249-289 | over every run without those two cases the answers are the same, the decrypted store is the plain store, and every mirror equals its payload |
| `SessionRefinement.RacedTouchFailsClosed` | src/session/scripts/touch-encrypted.lua:72-87 | a touch whose read was overtaken leaves agreeing mirrors if and only if version, expiry and rotation fields had not changed; otherwise no validation accepts the record |
| `SessionReads.MirrorsStayAligned` | src/session/session-serializer.ts:268-289 | in every state of a run whose encrypted reads are genuine, however stale, and on any clocks: mirrors and payload share boundary and status, and no idle boundary passes the absolute one |
| `SessionReads.GenuineTouchDiffersInVersion` | src/session/scripts/touch-encrypted.lua:72-87 | after such a run, a touch leaves agreeing mirrors if and only if the version had not moved since its read |
| `SessionReads.GenuineUpdateSeals` | src/session/scripts/conditional-update-encrypted.lua:51-58 | after such a run, an update always leaves agreeing mirrors |
| `SessionRefinement.SkewedRotationFailsClosed` | src/session/scripts/rotate-encrypted.lua:85-105 | the successor of an encrypted rotation has agreeing mirrors, and can validate, if and only if the client's clock agreed with the server's at the rotation |
| `SessionRepositories.Repository.TouchSession` | src/session/session-repository.ts:270-327 | the uninterrupted encrypted touch equals the two-phase step with the stored record as read |
| `SessionRepositories.Repository.RotateSession` | src/session/session-repository.ts:380-446 | the uninterrupted encrypted rotation equals the two-phase step |
| `SessionRepositories.Repository.UpdateSession` | src/session/session-repository.ts:486-541 | the uninterrupted encrypted update equals the two-phase step |
| `SessionRepositories.Repository.RevokeSession` | src/session/session-repository.ts:567-606 | the uninterrupted encrypted revoke equals the two-phase step |
| `SessionRepositories.Repository.DeleteByUser` | src/session/session-repository.ts:662-689 | for any batch size: the index is emptied, every indexed record and no other is gone, and exactly the ids that had one are returned |
| `SessionRepositories.DeleteByUserAgrees` | src/session/session-repository.ts:662-689 | run without interruption it keeps the index agreement and leaves no active session |
| `SessionRepositories.Repository.EnforceLimit` | src/session/session-repository.ts:746-774 | evicts a front of the index of size min(excess, reach of the bounded loop), records included, and returns that size |
| `SessionRepositories.EnforcementConverges` | src/session/session-repository.ts:746-774 | such a front is exactly the oldest members; the limit is met if and only if the excess is within reach, never undercut, and the reach is at least min(100 calls, hard cap) |
| `SortedSet.OldestElems` | src/session/scripts/create.lua:57 | listing n members one least member at a time gives, without repetition, exactly the members with fewer than n before them |
| `Chunks.Chunk` | src/cluster.ts:235-241 | the batches are non-empty, full but for the last, and concatenate to the list |
| `SlidingWindows.SlidingKey.ConsumeSliding` | src/ratelimiter.ts:45-67 | the script and its call: new set, TTL and answer equal the script function |
| `SlidingWindows.SlidingKey.CheckSliding` | src/ratelimiter.ts:69-86 | the same for the check, which prunes but adds nothing |
| `SlidingWindows.AnswersFromLog` | src/ratelimiter.ts:52-66 | through every run, with the key dropped at any time from its TTL on, the set stands for the full log of admitted requests: every consume gets the answer computed from the log |
| `SlidingWindows.OnlyConsumesMatter` | src/ratelimiter.ts:351-371 | checks and expiries anywhere in a run change no consume's answer |
| `SlidingWindows.WindowHolds` | src/ratelimiter.ts:54-66 | no interval (t - window, t], for any t, holds more than `limit` admitted requests of a run |
| `SlidingWindows.SkewedWindowHolds` | src/ratelimiter.ts:52-66 | with callers whose clocks are within d of the server's, no interval of length window - 2d holds more than `limit` admitted requests |
| `SlidingWindows.SkewedWindowIsTight` | src/ratelimiter.ts:307-317 | for every limit and every d up to half a window, a run puts one request too many into an interval one millisecond longer |
| `SlidingWindows.SkewOverruns` | src/ratelimiter.ts:307-317 | so for every limit and every skew of a millisecond or more a full window can be overrun |
| `SlidingWindows.CheckForetells` | src/ratelimiter.ts:77-85 | a check gives the verdict and the hint that a consume at that instant would get |
| `SlidingWindows.RetryHintIsExact` | src/ratelimiter.ts:55-61 | after a denial with nothing else admitted, a retry succeeds if and only if the oldest counted request has left the window, and after k seconds if and only if k is at least the hint |
| `SlidingWindows.AnswerSaysLog` | src/ratelimiter.ts:306-331 | in every run with agreeing clocks: `used` counts the requests admitted in the window that ends now, this one included, `remaining` is what that leaves, and `resetAt` is the exit of the oldest, rounded up to a second, for a denial and now for an admission |
| `SlidingWindows.CheckSaysLog` | src/ratelimiter.ts:351-371 | the fields of a check, over the same window without a request of its own |
| `FixedWindows.FixedKey.ConsumeFixed` | src/ratelimiter.ts:286-304 | the three commands of one client in sequence, with the answer and the key they leave |
| `FixedWindows.LifetimeHolds` | src/ratelimiter.ts:288-294 | while a key lives, at most what is left of the limit is allowed, for any interleaving of clients |
| `FixedWindows.TwoWindowsAtMost` | src/ratelimiter.ts:286-304 | any half-open interval as long as the duration holds at most 2 * limit - 1 allowed requests, however commands interleave and however late or lost an EXPIRE is |
| `FixedWindows.TwoWindowsReached` | src/ratelimiter.ts:286-304 | for every limit and duration there is a run that reaches that bound |
| `FixedWindows.AnswersMatchCounts` | src/ratelimiter.ts:294-303 | the clients told yes, and those still to be told, are exactly the requests counted within the limit |
| `FixedWindows.AnswerSaysLeft` | src/ratelimiter.ts:292-303 | `resetAt` is within half a second of the end of the key's lifetime if at least half a second is left, and a whole duration away otherwise; `retryAfter` is that distance for a denial and 0 for an admission |
| `FixedWindows.AnswerSaysRank` | src/ratelimiter.ts:288-303 | however clients interleave, `used` is the client's own rank among the requests of the key's lifetime and `remaining` what that leaves of the limit |
| `SlotGroups.Group` | src/cluster.ts:78-91 | the Map lists the slots by first appearance and holds for each exactly its items, in order |
| `SlotExecution.GroupBySlot` | src/cluster.ts:78-91 | the groups partition the batch by slot and keep the order inside each slot |
| `SlotExecution.SlotAlone` | src/cluster.ts:48-58 | on a slot's keys, running the whole batch in order and running that slot's commands alone agree |
| `SlotExecution.EveryScheduleIsSequential` | src/cluster.ts:93-102 | for every schedule of the workers: at most `concurrency` pipelines run, every result written is the in-order one, and at the end results and data are those of the batch in order |
| `SlotExecution.ReportedOnce` | src/cluster.ts:139-147 | a pipeline's report writes only results that were empty, and no later step changes one |
| `SlotExecution.WorkShrinks` | src/cluster.ts:95-102 | every step of an unfinished worker leaves one unit of work less, so the batch ends |
| `SlotExecution.ExecuteBySlot` | src/cluster.ts:67-111 | the call always ends, with one result per command in input order and the data of the batch run in order |
| `ClusterKeys.MSetBySlot` | src/client.ts:926-943 | every group is accepted if and only if keys that share a client slot share a server slot; then the data is what one MSET of all pairs would leave, repeated keys included; otherwise exactly the groups before the first refused one are stored |
| `ClusterKeys.MGetBySlot` | src/client.ts:1597-1658 | under the same condition, and only then, the read succeeds, with each key's value in input order whatever the order of the groups, empty strings as null |
| `ClusterKeys.GroupsAcceptedIffCompatible` | src/client.ts:906-911 | no group gets a CROSSSLOT error if and only if the client's slots are compatible with the server's |
| `ClusterKeys.UserKeysAreCompatible` | src/session/session-repository.ts:625-628 | keys of one user, of any family and number, are always accepted together |
| `ClusterKeys.GroupCanBeRefused` | src/client.ts:926-941 | "a0c" and "bpb" are grouped by the client and refused by the server |
| `ClusterKeys.MGetAgreesUnlessEmpty` | src/client.ts:1621-1657 | that equals a plain MGET if and only if no requested key holds an empty string |
| `Crc16.BuildTable` | src/client.ts:1376-1386 | entry i is i after eight divisions by the polynomial, for all 256 entries |
| `Crc16.CalculateSlot` | src/client.ts:1403-1418 | the table-driven loop equals the bit-by-bit CRC of the hashed part on every string, and the slot is below 16384 |
| `Crc16.CrcExtends` | src/client.ts:1413-1416 | one turn of the loop feeds the low byte of one code unit, bit by bit, to the reference |
| `ClusterSlots.OneCharacterKeys` | src/client.ts:1388-1417 | of the keys that are one ASCII character, only NUL gets the slot of the Redis Cluster specification |
| `ClusterSlots.SameSlotApart` | src/client.ts:1403-1417 | "a0c" and "bpb" share a slot here and are in two slots there |
| `ClusterSlots.OneClusterSlotPerUser` | src/session/session-keys.ts:12-14 | all keys that a script gets for a user are in one slot of the server's |
| `SessionKeys.EncodeUserId` | src/session/session-keys.ts:32-49 | refuses exactly ids that are empty or longer than 512 units; otherwise returns the escaping |
| `SessionKeys.DecodesToScrubbed` | src/session/session-keys.ts:38-47 | the escaping can be read back unit by unit, surrogate halves as U+FFFD |
| `SessionKeys.CollisionsExactly` | src/session/session-keys.ts:25-31 | two ids share an encoding if and only if they differ at most in surrogate halves |
| `SessionKeys.InjectiveWithoutSurrogates` | src/session/session-keys.ts:25-31 | without surrogate halves the encoding is injective |
| `SessionKeys.EmojiCollide` | src/session/session-keys.ts:38-47 | two distinct valid ids with one encoding |
| `SessionKeys.EncodeInAlphabet` | src/session/session-keys.ts:28-30 | an encoding holds only letters, digits and `._%-`, and is empty only for the empty id |
| `SessionKeys.TagIsUser` | src/session/session-keys.ts:12-14 | the hash tag of every user key is the escaped user id, whatever the session id holds |
| `SessionKeys.OneSlotPerUser` | src/session/session-keys.ts:77-101 | all keys that a script gets for a user are in one slot |
| `SessionKeys.PrefixMakesKey` | src/session/session-keys.ts:117-123 | the prefix that the eviction loops extend makes the record key |
| `SessionKeys.KeysNameOneThing` | src/session/session-keys.ts:81-114 | two keys are equal if and only if namespace, family, session id and (scrubbed) user are: the families are disjoint and injective |
| `CircuitBreakers.SessionCircuitBreaker.Acquire` | src/session/session-circuit-breaker.ts:97-111 | admission and state after it, the roll to half-open included |
| `CircuitBreakers.SessionCircuitBreaker.Succeed` | src/session/session-circuit-breaker.ts:114-126 | the state after a recorded success |
| `CircuitBreakers.SessionCircuitBreaker.Fail` | src/session/session-circuit-breaker.ts:129-142 | the state after a recorded failure |
| `CircuitBreakers.OpenKeepsQuiet` | src/session/session-circuit-breaker.ts:145-155 | for resetTimeoutMs after an opening no call is admitted and the breaker does not open again |
| `CircuitBreakers.OpeningsAreSpaced` | src/session/session-circuit-breaker.ts:129-155 | in any stretch of length T it opens at most 1 + T / resetTimeoutMs times |
| `CircuitBreakers.CountsHold` | src/session/session-circuit-breaker.ts:97-177 | in every run: while closed the count is the exact streak of recorded failures, below the threshold; it opens exactly when the streak reaches it; probes stay within [0, halfOpenMaxRequests] |
| `CircuitBreakers.BusinessErrorsWedgeHalfOpen` | src/session/session-service.ts:154-166 | probes that end in business errors keep their places, and once they fill the limit no call is admitted until something is recorded |
| `CircuitBreakers.FullUntilFreed` | src/session/session-circuit-breaker.ts:97-155 | a full half-open breaker admits again if and only if a success or reset came, or a failure at least resetTimeoutMs ago |
| `CircuitBreakers.LastSuccessCloses` | src/session/session-circuit-breaker.ts:114-126 | of n probes admitted together, m successes close the breaker if and only if m = n |

## Left out

- Session ids are opaque numbers whose order stands for the byte order of index members; token hashing and random ids are not modelled, and a fresh id is simply one without a record.
- Envelopes are datatypes: JSON text, cipher, key versions and undecryptable payloads are not modelled; decryption is the inverse of encryption.
- The order of an eviction reply: the evicted ids are kept as a set, because no caller reads their order.
- One application call reads its clock once; the service and the repository each read it.
- `listByUser`, `cleanupUserIndex`: a page of the index and repeated calls of the cleanup script, whose effect on the agreement `SessionIndex.AgreesStep` covers.
- `revokeAll` under concurrent rotation: a successor created after the listing survives it.
- The global jti index, the revocation store, device binding, metadata limits and the in-memory touch throttle of the service; a failed validation's cleanup is a `Destroy` step of the system.
- SessionBoundaries.BoundariesHold: states deadline and activity for agreeing clocks and plain sessions; a revoked record has the tombstone TTL of its call.
- SlidingWindows.SkewedWindowHolds: assumes request ids that never repeat, one limit and duration per key, and a server clock that does not go back.
- FixedWindows.TwoWindowsAtMost: assumes one limit and duration per key and no `reset`.
- Fail-open answers of the rate limiters when Redis fails.
- SlotExecution.ExecuteBySlot: covers batches whose commands touch only keys of their declared slot, without other writers, and pipelines that are not rejected; retries and missing pipeline results are not modelled.
- ClusterKeys.MGetBySlot: the node that a group is sent to first is not modelled; a group that it does not answer goes to the routed client, which the server accepts by the same rule.
- The server's slots are those of the Redis Cluster specification; which node serves a slot, and the redirections of the client library, are not modelled.
- Trimming of the namespace: `SessionKeys.IsNamespace` is what the constructor accepts after it.
- Calls that were admitted before an opening may finish in half-open and lower the probe count; the count is bounded, the number of probes really under way is not.
- Connection handling, Sentinel and cluster routing, script loading, locks, the value cache, pub/sub, health checks, metrics, logging and configuration parsing.
