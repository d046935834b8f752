# AgentCred: revocation cache, rate limiter and benchmark statistics

AgentCred issues short-lived signed credentials to agents and verifies them at a resource server.
PostgreSQL is the authority on issuances and revocations. Redis holds three families of keys: one
expiring key per revoked JTI, one freshness lease, and one fixed-window counter per principal, audience
and action. This project models the code that has to get those right and proves what it promises.

Three cores, each an executable model with a specification and theorems over whole runs:

- **Revocation protocol** (`Database`, `RevocationCache`, `SyncBatch`, `SyncLoop`, `Synchronizer`, `Issuer`,
  and the state machine `Protocol` with `ProtocolRefinement`, `ProtocolInvariant`, `ProtocolSafety`,
  `ProtocolStaleness`, `ProtocolIssuerRuns`, `ProtocolStalenessBound`, `ProtocolTimed`, `ProtocolTimedBound`;
  `EndToEnd` joins it to the verifier). Syncs, `POST /revoke` handlers, checks, the
  clock, out-of-band writes, outages and wipes interleave one atomic step at a time, in any number.
- **Rate limiter and verifier** (`Utf8`, `Base64Url`, `RateLimitKey`, `FixedWindow`, `FixedWindowCounts`,
  `FixedWindowStore`, `RateLimiter`, `Claims`, `Verifier`, `Budget`).
- **Benchmark statistics** (`OrderStatistics`, `Benchmark`).

What the source does by changing things is imperative here: the classes `Pool`, `Redis`, `CounterStore` and
`RevocationSynchronizer` and the methods of the routes and the verifier. Each method's `ensures` ties the
new state to a function of the old one, the state machine is built from those functions, and
`ProtocolRefinement` proves that its steps, when nothing interrupts them, do what the methods do.

## Hypotheses

- One clock, which never goes back, serves the issuer, Redis and the verifiers. Protocol times are
  milliseconds; limiter times are whole seconds of Redis time.
- A Redis key is live before its expiry instant and gone from it on. This is a choice: Redis itself calls a key
  expired once the time is past that instant, to the millisecond. Under that reading the strict
  `< 3 * interval + d` becomes `<=`, the run that reaches the bound lasts one millisecond longer, and a
  revocation key outlives `exp` by that millisecond.
- `expires_at` is a whole second, because `createIssuance` writes an integer `exp`; a row that other means
  insert is assumed to be one too. Issuance and revocation rows are never deleted.
- An SQL statement, a `MULTI`/`EXEC`, a `SET`, an `MGET` and a script are each one atomic step. A write that
  is reported as failed may still have been applied. The `SET` of a revoke handler and the 200 that follows it
  are one step, so "after a 200" counts wipes from the `SET` on. The rows of `revocations` are stamped with the step's time.
- A check begins only before `exp`, as the verifier tests `exp` first. The revocation key goes at `exp`, so
  statements about answers from Redis concern reads before `exp`.
- The signature is ideal: an accepted token carries exactly the payload that was signed. `jwtVerify` tests
  the presence of `iss` and `aud`, then the issuer, the audience, the type of `iat`, and `exp` by section
  4.1.4 of RFC 7519.
- Strings are well-formed Unicode. Arrays are no longer than ECMAScript's 2^32 - 1 elements.
- The keyspace is a map from a datatype of keys; `RevocationCache.KeysNeverCollide` justifies this for the
  texts that the source builds.
- The results about runs of the issuer (`ProtocolIssuerRuns`, `ProtocolStalenessBound`, `ProtocolTimedBound`)
  take each issuance to be that of a schema-valid `POST /issue` that was signed by the time of its insert. All
  other results hold whatever the lifetimes.
- The two timed results, convergence and lease continuity, assume that the loop is not stopped from the commit
  or the success on, that the host fires timers when they are due, and that a loop sync takes at most `d`. They
  hold whatever came before, overlapping starts included.

## Where the code and its documentation differ

- ADR-0012 (`DECISIONS.md:197-222`) says that out-of-band writes become consistent within the sync interval.
  The code gives `3 * interval + d`, where `d` bounds the time from a sync's snapshot to its lease write, or the
  hour that `/issue` grants a credential at most, whichever is less. In runs whose credentials come from
  `/issue`, `ProtocolStalenessBound.StalenessBoundIff` says which bounds hold, to the millisecond, and
  `ProtocolStalenessBound.DocumentedBoundIff` that the documented one holds exactly for intervals of 3600 s or
  more; the default is 5 s. With a loop that never fails and syncs that last at most `d` the bound is
  `interval + 2d` (`ProtocolTimed.ConvergesWhenHealthy`), and `ProtocolTimedBound.ConvergenceBoundIsReached`
  reaches it unless the lease or the credential ends first. That lemma is why the theorem asks for a time
  strictly later than the bound; syncs that take less than D satisfy it from c + interval + 2D on.
- A wipe of Redis is not always safe, because the batch and the lease are separate writes: a sync past its
  snapshot can renew the lease over an empty cache. `ProtocolSafety.WipeHarmlessIff` says exactly when this
  happens to a revocation: some sync in flight has a snapshot without it, or has already written it.
- `start` after `stop` can overlap a sync that is still running; then two timers exist and the one the closure
  forgot fires after the next `stop` (`SyncLoop.OrphanTimerFiresAfterStop`). `SyncLoop.NeverOverlapsIff`
  gives the exact condition. The issuer itself calls `start` once.
- The signer does not look at what the injected JTI generator yields, and the verifier refuses a blank JTI.
  `Issuer.IssuedTokenIsAllowed` therefore has the two cases; `randomUUID` is never blank.

## Model

| member | source | states |
|---|---|---|
| `ProtocolInvariant.InvariantStep` | issuer/src/jobs/sync-revocations.ts:78-124 | every step of every activity keeps: cached JTIs are committed revocations, their keys expire with their credentials, unfinished syncs and handlers carry stored rows; rows are only added |
| `ProtocolInvariant.InvariantAlong` | issuer/src/routes/revoke.ts:36-59 | the same over whole runs; a revocation row, once written, never changes |
| `ProtocolInvariant.CacheSoundInEveryRun` | verifier-sdk/src/revocation-cache.ts:36-50 | in every reachable state a cached JTI has a committed revocation and its EXAT is its issuance's exp |
| `ProtocolInvariant.ExpiryNeverRewritten` | verifier-sdk/src/revocation-cache.ts:46-48 | no write path gives a cached key another expiry, so no rewrite shortens it |
| `ProtocolInvariant.RepliesAgree` | issuer/src/db.ts:74-86 | any two 200 answers to `/revoke` for one JTI, however revokes interleave and are retried, carry the same timestamp, reason and expiry |
| `ProtocolInvariant.PublishCarriesExpiry` | issuer/src/server.ts:128-133 | every publish sends the issuance's expiry; it is skipped, with a 200, exactly when the credential has expired |
| `ProtocolSafety.GuardedStep` | verifier-sdk/src/revocation-cache.ts:57-84 | a revocation that is cached, or uncached with no live lease and every sync in flight still to write it, stays so until exp |
| `ProtocolSafety.SnapshotSees` | issuer/src/db.ts:94-104 | a snapshot taken after a commit carries every live revocation into its batch |
| `ProtocolSafety.AcknowledgedNeverMissed` | issuer/src/routes/revoke.ts:45-58 | after a 200 for a JTI, a check answered from Redis before exp, or from PostgreSQL at any time, answers "revoked", through syncs with older snapshots, lapses, outages and harmless wipes |
| `EndToEnd.AcknowledgedNeverAllowed` | verifier-sdk/src/verify.ts:211-226 | after a 200 for a JTI, `verifyCredential` denies every authentic token with that JTI as revoked, or as unavailable when its check fails, and consumes no capacity |
| `EndToEnd.StaleAllowsEnd` | verifier-sdk/src/verify.ts:211-253 | an authentic token whose live revocation `verifyCredential` overlooks was checked in Redis less than 3 intervals + d after the commit |
| `EndToEnd.RevokedAnswersAreTrue` | verifier-sdk/src/revocation.ts:7-13 | in every reachable state a check answers "revoked" only for a JTI with a revocation row, and PostgreSQL's answer is exact |
| `ProtocolSafety.HarmfulWipeMisses` | issuer/src/jobs/sync-revocations.ts:96-107 | if a sync in flight will not write a revocation any more, a wipe can be followed by a check that misses it |
| `ProtocolSafety.WipeHarmlessIff` | issuer/src/jobs/sync-revocations.ts:96-107 | a wipe is harmless for a live revocation if and only if every sync in flight has still to write it |
| `ProtocolStaleness.BoundedStaleness` | issuer/src/jobs/sync-revocations.ts:74-107 | in every run with failing syncs, outages and expiry, a check answered "not revoked" from Redis before exp is less than 3 intervals + d later than the commit |
| `ProtocolIssuerRuns.LiveRevocationsAreYoung` | issuer/src/routes/issue.ts:46-46 | in every run of the issuer a live revocation is less than 3600 s old |
| `ProtocolStalenessBound.MissesAreYoung` | issuer/src/jobs/sync-revocations.ts:74-107 | in every run of the issuer a miss is younger than min(3 intervals + d, 3600 s) |
| `ProtocolStalenessBound.StalenessBoundIsReached` | issuer/src/jobs/sync-revocations.ts:74-107 | for every interval and d each age below that limit occurs in a run of the issuer |
| `ProtocolStalenessBound.StalenessBoundIff` | issuer/src/jobs/sync-revocations.ts:74-107 | a staleness bound holds of all runs of the issuer if and only if it is at least min(3 intervals + d, 3600 s) - 1 ms |
| `ProtocolStalenessBound.DocumentedBoundIff` | DECISIONS.md:197-222 | the documented bound, the sync interval, holds of all runs of the issuer if and only if the interval is at least 3600 s |
| `ProtocolTimed.LoopMove` | issuer/src/jobs/sync-revocations.ts:126-155 | the protocol drives the scheduler of `SyncLoop` step for step |
| `ProtocolTimed.ConvergesWhenHealthy` | issuer/src/jobs/sync-revocations.ts:126-137 | if loop syncs succeed and last at most d, a revocation committed at c by any path is reported by every check after c + interval + 2d, in every run, overlapping starts included |
| `ProtocolTimedBound.ConvergenceBoundIsReached` | issuer/src/jobs/sync-revocations.ts:126-137 | for every interval and d each age up to interval + 2d below min(3 intervals + d, 3600 s) occurs in a healthy run of the issuer |
| `ProtocolTimed.LeaseNeverLapses` | issuer/src/jobs/sync-revocations.ts:74-137 | if loop syncs last at most d and at most k in a row fail with (k+1)(interval+d) < 3 interval, the freshness key is live in every state after a success, in every run, overlapping starts included |
| `ProtocolRefinement.SyncStepsAreSyncOnce` | issuer/src/jobs/sync-revocations.ts:78-124 | snapshot, batch and lease as protocol steps, or a failed snapshot, leave the keyspace that `SyncOnce` leaves; the sync settles with success exactly when `SyncOnce` reports it. The number of rows it reports has no counterpart in the protocol |
| `ProtocolRefinement.RevokeStepsArePostRevoke` | issuer/src/routes/revoke.ts:36-59 | commit, publish and set as protocol steps leave the tables, keyspace and answer that `PostRevoke` leaves |
| `ProtocolRefinement.CheckStepsAreIsRevoked` | verifier-sdk/src/revocation-cache.ts:60-83 | read and fallback as protocol steps give the cached checker's answer over the PostgreSQL checker |
| `Synchronizer.RevocationSynchronizer.constructor` | issuer/src/jobs/sync-revocations.ts:67-76 | a synchronizer starts stopped and without a timer |
| `Synchronizer.RevocationSynchronizer.SyncOnce` | issuer/src/jobs/sync-revocations.ts:78-124 | result and keyspace for every combination of failures; the lease is written only over an acknowledged batch |
| `Synchronizer.RevocationSynchronizer.Schedule` | issuer/src/jobs/sync-revocations.ts:126-137 | sets one timer an interval ahead, unless stopped |
| `Synchronizer.RevocationSynchronizer.Start` | issuer/src/jobs/sync-revocations.ts:141-147 | starts a stopped loop; otherwise nothing changes |
| `Synchronizer.RevocationSynchronizer.Stop` | issuer/src/jobs/sync-revocations.ts:148-154 | clears the remembered timer and leaves a running sync alone |
| `Synchronizer.RevocationSynchronizer.TimerFires` | issuer/src/jobs/sync-revocations.ts:130-132 | forgets the handle and begins a sync |
| `Synchronizer.RevocationSynchronizer.SyncSettles` | issuer/src/jobs/sync-revocations.ts:132-134 | success or failure, the next timer is set unless stopped |
| `SyncLoop.TidyStep` | issuer/src/jobs/sync-revocations.ts:126-155 | every scheduler step but an overlapping start keeps the one remembered timer or one running sync, and no timer fires while stopped |
| `SyncLoop.OneDelayAhead` | issuer/src/jobs/sync-revocations.ts:126-147 | `start` of a stopped loop and the end of a sync of a started one set one remembered timer, one interval ahead; nothing else sets or moves a timer |
| `SyncLoop.SyncsAreSpaced` | issuer/src/jobs/sync-revocations.ts:126-137 | in every run each loop sync begins at least one interval after a start or the end of a sync |
| `SyncLoop.NeverOverlapsIff` | issuer/src/jobs/sync-revocations.ts:126-155 | a run has at most one timer or sync, exactly one while started, and begins none while stopped, if and only if `start` is never called over a sync left running |
| `SyncLoop.OrphanTimerFiresAfterStop` | issuer/src/jobs/sync-revocations.ts:148-154 | for every interval a run in which an overlapping start leaves a timer that fires after `stop` |
| `SyncBatch.BatchIsActiveSet` | issuer/src/jobs/sync-revocations.ts:85-94 | the SQL filter and the whole-second test together drop no live row and add none; each command has its issuance's expiry |
| `SyncBatch.BatchSetEffect` | issuer/src/jobs/sync-revocations.ts:96-104 | a batch writes its own keys with their issuances' expiries and no other key |
| `SyncBatch.SyncSpeaksForItsBatch` | issuer/src/jobs/sync-revocations.ts:96-116 | success means the whole snapshot and the lease were written; a changed lease implies every active revocation is cached |
| `SyncBatch.ReportedCountIsActive` | issuer/src/jobs/sync-revocations.ts:83-116 | the number a sync reports is the number of active revocations, each of which is then cached while every other revocation key is as before |
| `SyncBatch.SyncedCacheAgrees` | verifier-sdk/src/revocation.ts:4-14 | after an undisturbed sync and while its lease lasts, the cached checker answers for every live credential what the PostgreSQL checker answers |
| `RevocationCache.RevocationExpirySeconds` | verifier-sdk/src/revocation-cache.ts:27-34 | the whole second at or before the expiry, exactly while it lies ahead; for whole-second expiries that is the expiry itself |
| `RevocationCache.CacheTrustedIff` | verifier-sdk/src/revocation-cache.ts:66-83 | the cache answers if and only if the reply has two values, a date and nothing or the flag; everything else goes to the fallback |
| `RevocationCache.CacheRevocation` | verifier-sdk/src/revocation-cache.ts:36-50 | writes the flag with the credential's expiry, or reports false and writes nothing when it has expired |
| `RevocationCache.Redis.Exec` | issuer/src/jobs/sync-revocations.ts:96-104 | applies the whole batch or none of it, command by command |
| `RevocationCache.KeysNeverCollide` | verifier-sdk/src/revocation-cache.ts:3-25 | revocation keys, the freshness key and counter keys have equal texts only when they are the same key |
| `Database.Pool.CreateIssuance` | issuer/src/db.ts:45-61 | inserts the row of the claims, or fails on the key or a check constraint and changes nothing |
| `Database.InsertableIff` | db/schema.sql:3-16 | an insert succeeds if and only if the JTI is new and every row still meets the table's checks |
| `Database.FirstRevocationWins` | issuer/src/db.ts:74-86 | the first revocation stores the requested reason and its time, later ones return them, an unknown JTI is not revoked, other JTIs are untouched |
| `Database.Pool.RevokeIssuance` | issuer/src/db.ts:74-86 | the first revocation wins; every call for a known JTI returns the stored row; an unknown JTI changes nothing |
| `Issuer.PostIssue` | issuer/src/routes/issue.ts:51-62 | signs, inserts, and releases the token only after an acknowledged insert |
| `Issuer.IssueAnswers` | issuer/src/routes/issue.ts:51-62 | beyond the schema only a used JTI or a failed insert denies a token; the row appears exactly when the insert was applied |
| `Issuer.BadRequestIff` | issuer/src/routes/issue.ts:31-49 | 400 if and only if a text is blank, the ttl is outside 1 to 3600, or the scope is empty or repeats an entry |
| `Issuer.ReleasedIsStored` | issuer/src/routes/issue.ts:60-61 | every released token has, and keeps, a row equal to its claims |
| `Issuer.ReleasedJtisDiffer` | db/schema.sql:3-4 | no two released tokens share a JTI, whatever the generator yields |
| `Issuer.IssuedTokenIsAllowed` | issuer/src/sign.ts:44-75 | before floor(issued) + ttl, unrevoked and within budget, the token of a schema-valid body is allowed for each action of its scope with the claims the body asked for, field by field, exactly when its JTI is not blank |
| `Issuer.IssuedTokenExpires` | issuer/src/sign.ts:47-53 | from floor(issued) + ttl on it is denied as expired |
| `Issuer.PostRevoke` | issuer/src/routes/revoke.ts:36-59 | tables, keyspace and 404, 200 or 503 for every outcome of the publish |
| `Issuer.RevokeAnswers` | issuer/src/routes/revoke.ts:36-59 | 404 if and only if the JTI has no issuance, 503 if and only if a due publish failed, else 200 with the first revocation; and what each leaves in the cache |
| `Claims.ClaimsRoundTrip` | verifier-sdk/src/verify.ts:82-110 | the verifier reads back exactly the claims that were signed and refuses exactly the ill-formed ones |
| `Claims.VerifiedClaimsIff` | verifier-sdk/src/verify.ts:82-110 | a payload is accepted as claims c if and only if c is well formed and the payload is what the signer writes for c |
| `Verifier.VerifyCredential` | verifier-sdk/src/verify.ts:157-254 | decision and counters after one call |
| `Verifier.AllowIff` | verifier-sdk/src/verify.ts:176-253 | allowed if and only if authentic, known to be unrevoked, in scope and admitted by the limiter |
| `Verifier.AuthenticDenialReasons` | verifier-sdk/src/verify.ts:211-251 | each reason for denying an authentic token, if and only if: revocation before scope, scope before budget, a failed revocation lookup or limiter as unavailable |
| `Verifier.AllowedClaimsAreComplete` | verifier-sdk/src/verify.ts:82-97 | no claim of an allowed credential is blank, and its scope covers the action |
| `Verifier.LimiterOutagesFailClosed` | verifier-sdk/src/verify.ts:228-250 | no limiter or no policy row allows; an unreadable policy, a lost script call or a lost reply denies as unavailable |
| `Verifier.ScriptDecides` | verifier-sdk/src/rate-limiter.ts:145-181 | a delivered script call decides by the counter of principal, audience and action: allow, or rate-limited until that counter's reset |
| `Verifier.ScriptOfSpender` | verifier-sdk/src/verify.ts:228-234 | the script runs for the token's principal, the audience and the action, whatever the JTI, exactly for authentic attempts in scope with a valid policy whose call reaches Redis |
| `Verifier.SpendersMoveCounters` | verifier-sdk/src/rate-limiter.ts:145-148 | such an attempt moves the counter of its identity, even if the reply is lost; no other attempt moves any |
| `Verifier.OtherTokensAreRefused` | verifier-sdk/src/verify.ts:182-209 | any other token is denied for signature, expiry, issuer, audience or claims |
| `Verifier.TokenDenialReasons` | verifier-sdk/src/verify.ts:112-130 | which reason a token gets that is unsigned, of a foreign issuer, for a foreign audience or expired, each if and only if |
| `Verifier.ForeignOrExpired` | verifier-sdk/src/verify.ts:190-204 | the same for tokens the issuer could have signed, in order: issuer, audience, expiry, else authentic |
| `Verifier.RefusedLeavesCounters` | verifier-sdk/src/verify.ts:182-230 | a counter moves only for an authentic, unrevoked credential in scope |
| `Budget.LogIsFaithful` | verifier-sdk/src/verify.ts:228-234 | a budget's counter depends on the script runs for its principal, audience and action alone, whatever tokens made them, and every allow rests on an admission |
| `Budget.RotationCannotBeatBudget` | verifier-sdk/src/verify.ts:228-253 | over any sequence of attempts with any tokens and JTIs, the allows of authentic attempts with one principal, audience and action whose script ran in one aligned window never exceed max_requests |
| `Budget.DecisionsIgnoreExpiry` | verifier-sdk/src/rate-limiter.ts:65-72 | whichever due keys Redis drops before each script call, every decision is that of a store that keeps them |
| `Budget.RotationCannotBeatExpiringBudget` | verifier-sdk/src/verify.ts:228-253 | the same budget, over the attempts themselves, on the store with its keys expiring |
| `FixedWindow.CounterStore.Eval` | verifier-sdk/src/rate-limiter.ts:47-73 | the script, command by command: the new hash, its expiry and the reply |
| `FixedWindowCounts.OtherWindowStartsOver` | verifier-sdk/src/rate-limiter.ts:57-63 | a hash of another window or another length counts for nothing: {1, 1, reset, now} and the hash of a fresh key |
| `FixedWindowCounts.SameWindowGoesOn` | verifier-sdk/src/rate-limiter.ts:65-72 | a hash of the same window and length gains one if there is room and stays as it is otherwise |
| `FixedWindowCounts.AdmittedInSeries` | verifier-sdk/src/rate-limiter.ts:48-72 | in every run, policies changing from call to call, each reply follows from the admissions in the unbroken series of calls of its own window and length |
| `FixedWindowCounts.CountFound` | verifier-sdk/src/rate-limiter.ts:51-63 | the count a call finds is the tally of its own aligned window |
| `FixedWindowCounts.AllowedIff` | verifier-sdk/src/rate-limiter.ts:65-72 | a call is admitted exactly while its window has capacity left |
| `FixedWindowCounts.ExactWindow` | verifier-sdk/src/rate-limiter.ts:48-72 | each aligned window admits min(capacity left, requests), from any stored counter |
| `FixedWindowCounts.ExactWindowFromEmpty` | verifier-sdk/src/rate-limiter.ts:48-72 | on a fresh key each aligned window admits min(M, requests) |
| `FixedWindowCounts.BurstBound` | verifier-sdk/src/rate-limiter.ts:51-52 | any L consecutive seconds admit at most M (ceil((L-1)/W) + 1) calls |
| `FixedWindowCounts.DeniedUntilReset` | verifier-sdk/src/rate-limiter.ts:65-68 | after a denial every later call of the same policy before the reset is denied |
| `FixedWindowCounts.AdmittedAfterRetry` | verifier-sdk/src/rate-limiter.ts:167-174 | a call at now + retryAfter, with 1 <= retryAfter <= W, is admitted if and only if fewer than M calls of the new window came first |
| `FixedWindowCounts.CountIsAdmissions` | verifier-sdk/src/rate-limiter.ts:65-72 | over a run with fixed W and changing maxima, the count a call finds is what its window began with plus the admissions since, so denials never change it |
| `FixedWindowCounts.AdmissionWithinItsMaximum` | verifier-sdk/src/rate-limiter.ts:65-72 | over such a run the reply carries the window's running total, which an admission keeps within its own maximum and a denial finds at or above it |
| `FixedWindowCounts.TotalWithinLargestMaximum` | verifier-sdk/src/rate-limiter.ts:57-72 | over such a run, from any stored counter, no window's total exceeds the largest maximum used in it |
| `FixedWindowStore.KeyIsolation` | verifier-sdk/src/rate-limiter.ts:145-148 | each key's replies on the shared store are those of a counter that serves only its own requests |
| `FixedWindowStore.TenantIsolation` | verifier-sdk/src/rate-limiter.ts:133-148 | any interleaving gives each principal, audience and action the replies of its private counter |
| `FixedWindowStore.ExpiryInvisible` | verifier-sdk/src/rate-limiter.ts:65-72 | with any policies and however late due keys are dropped, `EXPIREAT reset_at + 1` changes no reply |
| `RateLimitKey.KeyPartRoundTrip` | verifier-sdk/src/rate-limiter.ts:79-81 | an encoded part decodes back and has no ':' |
| `RateLimitKey.ParseOf` | verifier-sdk/src/rate-limiter.ts:83-85 | a key parses back to its three parts |
| `RateLimitKey.Injective` | verifier-sdk/src/rate-limiter.ts:83-85 | two contexts share a key if and only if they are equal |
| `Base64Url.DecodeEncode` | verifier-sdk/src/rate-limiter.ts:79-81 | base64url of section 5 of RFC 4648 has a left inverse for every byte length |
| `Base64Url.EncodeShape` | verifier-sdk/src/rate-limiter.ts:79-81 | no padding, only the URL-safe alphabet, and the exact length |
| `Utf8.DecodeEncode` | verifier-sdk/src/rate-limiter.ts:79-81 | no two well-formed strings share a UTF-8 encoding |
| `RateLimiter.GetPolicy` | verifier-sdk/src/rate-limiter.ts:87-116 | no policy exactly when there is no row, failure exactly when the row is not two positive integers, and otherwise the row's own values |
| `RateLimiter.ScriptReplyAccepted` | verifier-sdk/src/rate-limiter.ts:145-181 | a script reply is accepted if and only if its integers are safe; then neither clamp changes a value and 1 <= retryAfter <= W |
| `RateLimiter.ParseIntegerIff` | verifier-sdk/src/rate-limiter.ts:118-127 | a value parses to n if and only if it is the safe integer n, as a number or a non-empty string |
| `RateLimiter.ReadReplyIff` | verifier-sdk/src/rate-limiter.ts:152-181 | four integers are accepted exactly with a verdict of 0 or 1, a count of at least 0 and a reset ahead, and how they are then read |
| `RateLimiter.OtherRepliesAreRefused` | verifier-sdk/src/rate-limiter.ts:149-165 | every other reply is an error |
| `RateLimiter.CheckRateLimit` | verifier-sdk/src/rate-limiter.ts:129-183 | result and counters for every policy lookup and delivery of the script call |
| `OrderStatistics.OrderStatistic` | verifier-sdk/src/benchmark.ts:143-145 | the k-th sorted sample is at most x if and only if more than k samples are |
| `OrderStatistics.OrderStatisticsMonotone` | verifier-sdk/src/benchmark.ts:152-157 | pointwise larger samples have a larger k-th order statistic |
| `OrderStatistics.SortIsUnique` | verifier-sdk/src/benchmark.ts:143-143 | any sorted permutation is the sorted array, so the result does not depend on the sorting algorithm |
| `Benchmark.PercentileIsNearestRank` | verifier-sdk/src/benchmark.ts:136-146 | in exact arithmetic the percentile is the least value that the given share of the samples does not exceed |
| `Benchmark.PercentileMonotone` | verifier-sdk/src/benchmark.ts:136-146 | percentiles exist and grow with their rank, under any monotone rounding |
| `Benchmark.MedianMonotone` | verifier-sdk/src/benchmark.ts:148-158 | pointwise larger samples have a larger median, under any monotone rounding |
| `Benchmark.MedianIsMiddle` | verifier-sdk/src/benchmark.ts:148-158 | by counting samples, the median is the middle one whatever the rounding, or the rounded mean of the two middle ones |
| `Benchmark.RankValueIsUnique` | verifier-sdk/src/benchmark.ts:152-157 | counting determines the sample of a rank |
| `Benchmark.PercentileCovers` | verifier-sdk/src/benchmark.ts:143-145 | with any rounding of the share, the percentile is the least sample that covers it |
| `Benchmark.StatisticsRefuse` | verifier-sdk/src/benchmark.ts:137-151 | exactly which calls throw |
| `Benchmark.OrderOfSamplesIsForgotten` | verifier-sdk/src/benchmark.ts:136-158 | neither statistic depends on the order of the samples |
| `Benchmark.PeakIsFirstMaximum` | verifier-sdk/src/benchmark.ts:241-243 | the peak is the first concurrency of maximal median throughput |
| `Benchmark.SummaryLatencies` | verifier-sdk/src/benchmark.ts:245-248 | each latency of a summary is the median of its own column |
| `Benchmark.SummaryThroughput` | verifier-sdk/src/benchmark.ts:235-250 | the two throughput figures belong to one level, the first whose median rate is maximal |
| `Benchmark.SummaryRefusedIff` | verifier-sdk/src/benchmark.ts:216-233 | a summary exists if and only if there is a trial, a level, and the same levels in every trial |
| `Benchmark.SummaryKeepsPercentileOrder` | verifier-sdk/src/benchmark.ts:213-252 | p50 <= p95 <= p99 in every summary of measured trials, under any monotone rounding |
| `Benchmark.SummaryForgetsTrialOrder` | verifier-sdk/src/benchmark.ts:213-252 | a summary, or its failure, does not depend on the order of the trials |

## Left out

- ProtocolStaleness.BoundedStaleness: wipes are included except one that meets a sync which has read the revocation and has only its lease to write; clock skew and partial loss of keys are not included.
- ProtocolTimed.LeaseNeverLapses: assumes no wipe after the success, since a wipe removes the lease itself.
- Benchmark.PercentileIsNearestRank: exact arithmetic only; in double precision percentage / 100 * n can round past an integer, so the rank can be off by one. The order theorems hold under rounding.
- Double precision elsewhere: counters, window arithmetic in Lua and times are unbounded integers; the 2^53 limit appears only where the reply is parsed. Samples that are NaN or infinite are not modelled.
- `Date` and `TIMESTAMPTZ` below the millisecond, and the formatting of timestamps.
- ES256, PEM handling and the other checks of `jose` (`nbf`, `crit`, token syntax): inside the ideal signature.
- The check order and error classes of `jose` are taken from its interface as the code uses it; `jose` is not part of this model.
- A hash under a counter key with missing or foreign fields, a key of another Redis type, and a `MULTI` batch that fails in part.
- `ORDER BY` in the sync snapshot: the listing is any order, and the results hold for all.
- The log lines of a sync, and its duration.
- Timer delays above 2^31 - 1 ms, which the host shortens.
- `nonBlankString` of the `/revoke` body: an unknown or blank JTI is answered from the tables.
- `middleware.ts`, the audit observer and the verification log: one-branch facts and I/O.
- Fastify servers, environment parsing (`readSyncIntervalSeconds` included), shutdown, health checks and the demo clients: wiring.
- `GET /issuances/:jti` and the key files: a plain read, and file handling.
- `parseBenchmarkOptions`, `runConcurrentLoad` and `rotateScenarioOrder`: command line, wall-clock measurement and a rotation of three items.
